/** The contiguous buffer: bytes are written at the tail and popped off the head by
    moving the rest down. */
module Iobufs {
  import opened Telnet

  /** Memory with `text` written over it from `at` on. */
  function Splice(cells: Bytes, at: nat, text: Bytes): (r: Bytes)
    requires at + |text| <= |cells|
    ensures |r| == |cells| && r[..at] == cells[..at] && r[at..at + |text|] == text
  {
    cells[..at] + text + cells[at + |text|..]
  }

  /** What snprintf leaves in the room it is given: text that does not fit is cut and
      closed by a NUL. */
  function Printed(text: Bytes, room: nat): (r: Bytes)
    ensures |r| == if |text| < room then |text| else room
    ensures |text| < room ==> r == text
    ensures |text| >= room > 0 ==> r[..room - 1] == text[..room - 1] && r[room - 1] == 0
  {
    if |text| < room then text else if room == 0 then [] else text[..room - 1] + [0]
  }

  function Clamped(n: nat, most: nat): nat {
    if n > most then most else n
  }

  class Iobuf {
    const data: array<byte>
    var tail: nat

    ghost predicate Valid()
      reads this
    {
      tail <= data.Length
    }

    /** The queued bytes, oldest first. */
    ghost function Contents(): (s: Bytes)
      requires Valid()
      reads this, data
      ensures |s| == tail
    {
      data[..tail]
    }

    constructor (length: nat)
      ensures Valid() && data.Length == length && Contents() == []
      ensures fresh(data)
    {
      data := new byte[length];
      tail := 0;
    }

    function Len(): (n: nat)
      requires Valid()
      reads this, data
      ensures n == |Contents()|
    {
      tail
    }

    function Avail(): (n: nat)
      requires Valid()
      reads this, data
      ensures n + |Contents()| == data.Length
    {
      data.Length - tail
    }

    /** The bytes from the head on. */
    method Front(n: nat) returns (s: Bytes)
      requires Valid() && n <= Len()
      ensures s == Contents()[..n]
    {
      s := data[..n];
    }

    /** memcpy to the tail; the bytes are not queued until they are pushed. */
    method Store(text: Bytes)
      requires Valid() && |text| <= Avail()
      modifies data
      ensures Contents() == old(Contents())
      ensures data[..] == Splice(old(data[..]), tail, text)
    {
      for i := 0 to |text|
        invariant data[..tail] == old(data[..tail])
        invariant forall j :: 0 <= j < i ==> data[tail + j] == text[j]
        invariant forall j :: tail + i <= j < data.Length ==> data[j] == old(data[j])
      {
        data[tail + i] := text[i];
      }
      assert data[..] == data[..tail] + text + data[tail + |text|..];
    }

    /** Advances the tail over bytes already stored; pushing past the end stops at
        the end. */
    method Push(len: nat)
      requires Valid()
      modifies this`tail
      ensures Valid()
      ensures tail == if old(tail) + len > data.Length then data.Length else old(tail) + len
      ensures tail == Clamped(old(tail) + len, data.Length)
      ensures Contents() == old(Contents()) + data[old(tail)..tail]
    {
      tail := tail + len;
      if tail > data.Length {
        tail := data.Length;
      }
    }

    /** Drops bytes from the head, at most all of them, moving the rest down in
        place. */
    method Pop(len: nat)
      requires Valid()
      modifies this`tail, data
      ensures Valid()
      ensures Contents() == if len >= |old(Contents())| then [] else old(Contents())[len..]
      ensures data[..] ==
        if len >= old(tail) then old(data[..]) else Splice(old(data[..]), 0, old(data[..])[len..old(tail)])
    {
      if len >= tail {
        tail := 0;
        return;
      }
      var rest := tail - len;
      for i := 0 to rest
        invariant forall j :: 0 <= j < i ==> data[j] == old(data[len + j])
        invariant forall j :: i <= j < data.Length ==> data[j] == old(data[j])
      {
        data[i] := data[len + i];
      }
      tail := rest;
      assert data[..rest] == old(Contents())[len..] == old(data[..])[len..old(tail)];
      assert data[..] == data[..rest] + data[rest..];
    }

    method PopAll()
      requires Valid()
      modifies this`tail
      ensures Valid() && Contents() == []
    {
      tail := 0;
    }

    /** Stores and pushes bytes that fit. */
    method Append(text: Bytes)
      requires Valid() && |text| <= Avail()
      modifies this`tail, data
      ensures Valid() && Contents() == old(Contents()) + text
    {
      Store(text);
      Push(|text|);
    }

    /** snprintf to the tail followed by a push of the length it reports: what does
        not fit is cut and the last byte becomes a NUL. */
    method Print(text: Bytes)
      requires Valid()
      modifies this`tail, data
      ensures Valid()
      ensures data[..] == Splice(old(data[..]), old(tail), Printed(text, old(Avail())))
      ensures tail == Clamped(old(tail) + |text|, data.Length)
      ensures Contents() == old(Contents()) + Printed(text, old(Avail()))
    {
      Store(Printed(text, Avail()));
      Push(|text|);
    }
  }

  // ---- Sequences of operations against a bounded queue ----

  /** The memory of a buffer and how much of it is queued. */
  datatype Mem = Mem(cells: Bytes, tail: nat)

  /** Writes by memcpy and snprintf, and the operations proper. */
  datatype Op = Store(text: Bytes) | Push(len: nat) | Print(text: Bytes) | Pop(len: nat) | PopAll

  predicate Sized(m: Mem) {
    m.tail <= |m.cells|
  }

  function Queued(m: Mem): Bytes
    requires Sized(m)
  {
    m.cells[..m.tail]
  }

  /** memcpy must not write past the end; that is up to its caller. */
  predicate Fits(m: Mem, op: Op) {
    op.Store? ==> m.tail + |op.text| <= |m.cells|
  }

  function Apply(m: Mem, op: Op): (r: Mem)
    requires Sized(m) && Fits(m, op)
    ensures Sized(r) && |r.cells| == |m.cells|
  {
    match op
    case Store(text) => m.(cells := Splice(m.cells, m.tail, text))
    case Push(len) => m.(tail := Clamped(m.tail + len, |m.cells|))
    case Print(text) =>
      Mem(Splice(m.cells, m.tail, Printed(text, |m.cells| - m.tail)), Clamped(m.tail + |text|, |m.cells|))
    case Pop(len) =>
      if len >= m.tail then m.(tail := 0)
      else Mem(Splice(m.cells, 0, m.cells[len..m.tail]), m.tail - len)
    case PopAll => m.(tail := 0)
  }

  predicate Legal(m: Mem, ops: seq<Op>)
    requires Sized(m)
    decreases |ops|
  {
    ops != [] ==> Fits(m, ops[0]) && Legal(Apply(m, ops[0]), ops[1..])
  }

  function ApplyAll(m: Mem, ops: seq<Op>): (r: Mem)
    requires Sized(m) && Legal(m, ops)
    ensures Sized(r) && |r.cells| == |m.cells|
    decreases |ops|
  {
    if ops == [] then m else ApplyAll(Apply(m, ops[0]), ops[1..])
  }

  /** The bytes an operation adds to the queue: a push adds what has been stored behind
      the tail, as far as there is memory, and a print what it has printed. */
  function Added(m: Mem, op: Op): Bytes
    requires Sized(m) && Fits(m, op)
  {
    match op
    case Push(len) => m.cells[m.tail..Clamped(m.tail + len, |m.cells|)]
    case Print(text) => Printed(text, |m.cells| - m.tail)
    case _ => []
  }

  function AddedAll(m: Mem, ops: seq<Op>): Bytes
    requires Sized(m) && Legal(m, ops)
    decreases |ops|
  {
    if ops == [] then [] else Added(m, ops[0]) + AddedAll(Apply(m, ops[0]), ops[1..])
  }

  /** Bytes stored and then pushed are added as they are. */
  lemma StoredThenPushed(m: Mem, text: Bytes)
    requires Sized(m) && Fits(m, Store(text))
    ensures var s := Apply(m, Store(text));
      Queued(s) == Queued(m) && Queued(Apply(s, Push(|text|))) == Queued(m) + text
  {
  }

  /** One operation adds at the tail and drops at the head. */
  lemma OpIsFifo(m: Mem, op: Op) returns (dropped: nat)
    requires Sized(m) && Fits(m, op)
    ensures dropped <= |Queued(m) + Added(m, op)|
    ensures Queued(Apply(m, op)) == (Queued(m) + Added(m, op))[dropped..]
    ensures op.Pop? ==> dropped == if op.len > |Queued(m)| then |Queued(m)| else op.len
    ensures op.PopAll? ==> dropped == |Queued(m)|
    ensures !op.Pop? && !op.PopAll? ==> dropped == 0
  {
    dropped := if op.Pop? then Clamped(op.len, m.tail) else if op.PopAll? then m.tail else 0;
  }

  /** The queue is first-in first-out: what it holds is always the end of what was in it
      and what has been added, and it never exceeds its capacity. */
  lemma {:induction false} QueueIsFifo(m: Mem, ops: seq<Op>) returns (dropped: nat)
    requires Sized(m) && Legal(m, ops)
    ensures dropped <= |Queued(m) + AddedAll(m, ops)|
    ensures Queued(ApplyAll(m, ops)) == (Queued(m) + AddedAll(m, ops))[dropped..]
    ensures |Queued(ApplyAll(m, ops))| <= |m.cells|
    decreases |ops|
  {
    hide Apply, Added, Queued;
    if ops == [] {
      dropped := 0;
      assert Queued(m) + [] == Queued(m);
    } else {
      var m1 := Apply(m, ops[0]);
      var first := OpIsFifo(m, ops[0]);
      var others := QueueIsFifo(m1, ops[1..]);
      dropped := first + others;
      DropTwice(Queued(m) + Added(m, ops[0]), first, AddedAll(m1, ops[1..]), others);
      assert Queued(m) + (Added(m, ops[0]) + AddedAll(m1, ops[1..]))
          == Queued(m) + Added(m, ops[0]) + AddedAll(m1, ops[1..]);
    }
    QueueFits(ApplyAll(m, ops));
  }

  lemma QueueFits(m: Mem)
    requires Sized(m)
    ensures |Queued(m)| <= |m.cells|
  {
  }

  lemma DropTwice(a: Bytes, n: nat, b: Bytes, k: nat)
    requires n <= |a| && k <= |a[n..] + b|
    ensures n + k <= |a + b| && (a[n..] + b)[k..] == (a + b)[n + k..]
  {
    assert a[n..] + b == (a + b)[n..];
  }

  /** Any sequence of operations on a buffer is the same sequence on its memory: pushes
      past the end, prints that are cut and pops of more than there is included. */
  method Replay(b: Iobuf, ops: seq<Op>)
    requires b.Valid() && Legal(Mem(b.data[..], b.tail), ops)
    modifies b`tail, b.data
    ensures b.Valid()
    ensures Mem(b.data[..], b.tail) == ApplyAll(old(Mem(b.data[..], b.tail)), ops)
    ensures b.Contents() == Queued(ApplyAll(old(Mem(b.data[..], b.tail)), ops))
    ensures b.Len() + b.Avail() == b.data.Length
  {
    ghost var end := ApplyAll(Mem(b.data[..], b.tail), ops);
    for i := 0 to |ops|
      invariant b.Valid() && Legal(Mem(b.data[..], b.tail), ops[i..])
      invariant ApplyAll(Mem(b.data[..], b.tail), ops[i..]) == end
    {
      assert ops[i..][0] == ops[i] && ops[i..][1..] == ops[i + 1..];
      Perform(b, ops[i]);
    }
    assert b.Contents() == b.data[..][..b.tail];
  }

  method Perform(b: Iobuf, op: Op)
    requires b.Valid() && Fits(Mem(b.data[..], b.tail), op)
    modifies b`tail, b.data
    ensures b.Valid()
    ensures Mem(b.data[..], b.tail) == Apply(old(Mem(b.data[..], b.tail)), op)
  {
    hide Splice, Printed, Clamped;
    match op {
      case Store(text) => b.Store(text);
      case Push(len) => b.Push(len);
      case Print(text) => b.Print(text);
      case Pop(len) => b.Pop(len);
      case PopAll => b.PopAll();
    }
  }
}
