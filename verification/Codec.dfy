/** The compression library as an abstract stream codec, and the two loops that
    move text through it as functions on values. */
module Codec {
  import opened Telnet

  /** A stream's state: all it has been given, all it has produced, and whatever
      else the library keeps. */
  datatype ZState = ZState(fed: Bytes, emitted: Bytes, inner: nat)

  /** One call on a stream: Z_OK with the bytes taken and made, or another code. */
  datatype Call = Done(taken: nat, made: Bytes, inner: nat) | Failed

  function After(z: ZState, input: Bytes, taken: nat, made: Bytes, inner: nat): ZState
    requires taken <= |input|
  {
    ZState(z.fed + input[..taken], z.emitted + made, inner)
  }

  // ---- Deflating ----

  /** deflate with Z_SYNC_FLUSH, as a function of the state, the input and the
      output space; what its peer decodes; and how much output is still owed. */
  datatype Deflater = Deflater(
    seed: nat,
    minRoom: nat,
    call: (ZState, Bytes, nat) -> Call,
    valid: ZState -> bool,
    decode: Bytes -> Bytes,
    owed: (ZState, Bytes) -> nat)

  function NewDeflate(d: Deflater): ZState {
    ZState([], [], d.seed)
  }

  /** The contract of one call with at least the least output space. Input that is taken
      is flushed, so it makes output. Space left over means the flush is complete: all
      input is taken and the peer can decode all of it. A full output buffer means
      progress, and that the next call goes through. */
  ghost predicate DeflateLaw(d: Deflater, z: ZState, input: Bytes, room: nat) {
    var c := d.call(z, input, room);
    && (input != [] ==> c.Done?)
    && (c.Done? ==>
      && c.taken <= |input| && |c.made| <= room && (c.taken > 0 ==> c.made != [])
      && var z1 := After(z, input, c.taken, c.made, c.inner);
         && d.valid(z1)
         && (|c.made| < room ==> c.taken == |input| && d.decode(z1.emitted) == z1.fed)
         && (|c.made| == room ==>
             && d.owed(z1, input[c.taken..]) < d.owed(z, input)
             && d.call(z1, input[c.taken..], room).Done?))
  }

  ghost predicate LawfulDeflater(d: Deflater) {
    && d.valid(NewDeflate(d)) && d.decode([]) == []
    && forall z, input, room: nat {:trigger DeflateLaw(d, z, input, room)} ::
        d.valid(z) && room >= d.minRoom && room > 0 ==> DeflateLaw(d, z, input, room)
  }

  /** What one compressed write leaves behind. */
  datatype Written = Written(z: ZState, wire: Bytes, ok: bool)

  function Prepend(made: Bytes, w: Written): Written {
    w.(wire := made + w.wire)
  }

  /** The loop of write_endpoint_compressed: deflate into a workspace, write that
      out, and again for as long as the workspace was filled. */
  ghost function WriteLoop(d: Deflater, z: ZState, data: Bytes, room: nat): Written
    requires LawfulDeflater(d) && d.valid(z) && room >= d.minRoom && room > 0
    decreases d.owed(z, data)
  {
    assert DeflateLaw(d, z, data, room);
    match d.call(z, data, room)
    case Failed => Written(z, [], false)
    case Done(taken, made, inner) =>
      var z1 := After(z, data, taken, made, inner);
      if |made| < room then Written(z1, made, true)
      else Prepend(made, WriteLoop(d, z1, data[taken..], room))
  }

  /** One round of the writing loop, taken apart. */
  lemma WriteLoopStep(d: Deflater, z: ZState, data: Bytes, room: nat)
    requires LawfulDeflater(d) && d.valid(z) && room >= d.minRoom && room > 0
    requires d.call(z, data, room).Done?
    ensures var Done(taken, made, inner) := d.call(z, data, room);
      && taken <= |data| && |made| <= room && (taken > 0 ==> made != [])
      && var z1 := After(z, data, taken, made, inner);
         && d.valid(z1)
         && (|made| < room ==> WriteLoop(d, z, data, room) == Prepend(made, Written(z1, [], true)))
         && (|made| == room ==>
             && d.owed(z1, data[taken..]) < d.owed(z, data)
             && d.call(z1, data[taken..], room).Done?
             && WriteLoop(d, z, data, room) == Prepend(made, WriteLoop(d, z1, data[taken..], room)))
  {
    assert DeflateLaw(d, z, data, room);
    var made := d.call(z, data, room).made;
    assert made + [] == made;
  }

  lemma PrependTwice(a: Bytes, b: Bytes, w: Written)
    ensures Prepend(a, Prepend(b, w)) == Prepend(a + b, w)
    ensures Prepend([], w) == w && Prepend(a, w).z == w.z && Prepend(a, w).wire == a + w.wire
    ensures a + [] == a
  {
    assert a + b + w.wire == a + (b + w.wire);
    assert [] + w.wire == w.wire;
  }

  lemma DataIsTaken(d: Deflater, z: ZState, data: Bytes, room: nat)
    requires LawfulDeflater(d) && d.valid(z) && room >= d.minRoom && room > 0 && data != []
    ensures d.call(z, data, room).Done?
  {
    assert DeflateLaw(d, z, data, room);
  }

  /** A write of any size through a workspace of any permitted size ends, takes all
      of the data, and leaves the peer able to decode all that was ever written. */
  lemma {:induction false} WriteIsComplete(d: Deflater, z: ZState, data: Bytes, room: nat)
    requires LawfulDeflater(d) && d.valid(z) && room >= d.minRoom && room > 0
    requires data != [] || d.call(z, data, room).Done?
    ensures var w := WriteLoop(d, z, data, room);
      && w.ok && d.valid(w.z)
      && w.z.fed == z.fed + data
      && w.z.emitted == z.emitted + w.wire
      && d.decode(w.z.emitted) == w.z.fed
    decreases d.owed(z, data)
  {
    assert DeflateLaw(d, z, data, room);
    WriteLoopStep(d, z, data, room);
    hide WriteLoop, LawfulDeflater;
    var Done(taken, made, inner) := d.call(z, data, room);
    var z1 := After(z, data, taken, made, inner);
    if |made| < room {
      assert data[..taken] == data;
      assert made + [] == made;
    } else {
      WriteIsComplete(d, z1, data[taken..], room);
      TakeAll(z.fed, data, taken);
      PrependTwice(z.emitted, made, WriteLoop(d, z1, data[taken..], room));
    }
  }

  lemma TakeAll(fed: Bytes, data: Bytes, taken: nat)
    requires taken <= |data|
    ensures fed + data[..taken] + data[taken..] == fed + data
  {
    assert data[..taken] + data[taken..] == data;
  }

  /** The state and the wire after a sequence of writes. */
  ghost function WriteAll(d: Deflater, writes: seq<Bytes>, room: nat): Written
    requires LawfulDeflater(d) && room >= d.minRoom && room > 0
    requires forall i :: 0 <= i < |writes| ==> writes[i] != []
    ensures d.valid(WriteAll(d, writes, room).z)
    decreases |writes|
  {
    if writes == [] then Written(NewDeflate(d), [], true)
    else
      var before := WriteAll(d, writes[..|writes| - 1], room);
      var last := writes[|writes| - 1];
      WriteIsComplete(d, before.z, last, room);
      var w := WriteLoop(d, before.z, last, room);
      Written(w.z, before.wire + w.wire, before.ok && w.ok)
  }

  /** Over any sequence of writes, what the peer decodes from the wire is exactly
      what was written, in order. */
  lemma {:induction false} WireRoundTrip(d: Deflater, writes: seq<Bytes>, room: nat)
    requires LawfulDeflater(d) && room >= d.minRoom && room > 0
    requires forall i :: 0 <= i < |writes| ==> writes[i] != []
    ensures var w := WriteAll(d, writes, room);
      && w.ok && w.wire == w.z.emitted && w.z.fed == Concat(writes)
      && d.decode(w.wire) == Concat(writes)
    decreases |writes|
  {
    if writes != [] {
      var n := |writes| - 1;
      WireRoundTrip(d, writes[..n], room);
      var before := WriteAll(d, writes[..n], room);
      WriteIsComplete(d, before.z, writes[n], room);
      ConcatSnoc(writes[..n], writes[n]);
      assert writes == writes[..n] + [writes[n]];
    }
  }

  // ---- Inflating ----

  datatype Inflater = Inflater(
    seed: nat,
    call: (ZState, Bytes, nat) -> Call,
    valid: ZState -> bool,
    decode: Bytes -> Bytes)

  function NewInflate(i: Inflater): ZState {
    ZState([], [], i.seed)
  }

  /** Z_OK means progress within the given bounds. */
  ghost predicate InflateLaw(i: Inflater, z: ZState, input: Bytes, room: nat) {
    var c := i.call(z, input, room);
    c.Done? ==>
      && c.taken <= |input| && |c.made| <= room
      && (c.taken > 0 || c.made != [])
      && i.valid(After(z, input, c.taken, c.made, c.inner))
  }

  /** What has come out is part of the decoding of what went in, and more input
      never changes the decoding of what came before. */
  ghost predicate LawfulInflater(i: Inflater) {
    && i.valid(NewInflate(i))
    && (forall z :: i.valid(z) ==> z.emitted <= i.decode(z.fed))
    && (forall a, b :: a <= b ==> i.decode(a) <= i.decode(b))
    && forall z, input, room: nat {:trigger InflateLaw(i, z, input, room)} ::
        i.valid(z) ==> InflateLaw(i, z, input, room)
  }

  /** What reads on a socket will find: data (never empty), nothing yet, an error,
      or the end, at which the socket stays. */
  datatype Recv = Data(first: byte, more: Bytes) | Again | Trouble | Closed

  /** The result of a read: text, end of file, EAGAIN, or another error. */
  datatype Got = Got(text: Bytes) | Eof | WouldBlock | Error

  /** A read of at most `count` bytes. */
  function SockRead(inbox: seq<Recv>, count: nat): (r: (Got, seq<Recv>))
    ensures r.0.Got? ==> 0 < |r.0.text| <= count
  {
    if inbox == [] then (WouldBlock, [])
    else match inbox[0]
      case Closed => (Eof, inbox)
      case Again => (WouldBlock, inbox[1..])
      case Trouble => (Error, inbox[1..])
      case Data(first, more) =>
        var all := [first] + more;
        if count == 0 then (Eof, inbox)
        else if count >= |all| then (Got(all), inbox[1..])
        else (Got(all[..count]), [Data(all[count], all[count + 1..])] + inbox[1..])
  }

  /** The text a result carries. */
  function TextOf(got: Got): Bytes {
    if got.Got? then got.text else []
  }

  /** All the bytes a socket has in store. */
  function Stored(inbox: seq<Recv>): Bytes {
    if inbox == [] then []
    else (if inbox[0].Data? then [inbox[0].first] + inbox[0].more else []) + Stored(inbox[1..])
  }

  /** Which result a read has, and that it takes as much as there is room for of the data
      that has come in first. */
  lemma SockReadExact(inbox: seq<Recv>, count: nat)
    ensures var (got, rest) := SockRead(inbox, count);
      && (got == WouldBlock <==> inbox == [] || inbox[0].Again?)
      && (got == Error <==> inbox != [] && inbox[0].Trouble?)
      && (got == Eof <==> inbox != [] && (inbox[0].Closed? || (inbox[0].Data? && count == 0)))
      && (got.Got? ==> |got.text| == (if count <= |inbox[0].more| then count else 1 + |inbox[0].more|))
      && Stored(inbox) == TextOf(got) + Stored(rest)
      && (got == Eof ==> rest == inbox)
  {
    SockReadTakes(inbox, count);
  }

  lemma SockReadTakes(inbox: seq<Recv>, count: nat)
    ensures var (got, rest) := SockRead(inbox, count);
      Stored(inbox) == (if got.Got? then got.text else []) + Stored(rest)
  {
    if inbox != [] && inbox[0].Data? && count > 0 {
      var all := [inbox[0].first] + inbox[0].more;
      if count < |all| {
        var rest := [Data(all[count], all[count + 1..])] + inbox[1..];
        assert rest[1..] == inbox[1..];
        assert all == all[..count] + ([all[count]] + all[count + 1..]);
      }
    }
  }

  /** A compressed input: the stream, and the bytes of the workspace it has yet to
      be given. */
  datatype Inflating = Inflating(z: ZState, left: Bytes)

  datatype ReadResult = ReadResult(state: Inflating, inbox: seq<Recv>, got: Got)

  /** The loop of read_endpoint_compressed: refill the workspace when it is used up,
      inflate into the caller's space, until something has come out. */
  ghost function ReadLoop(i: Inflater, s: Inflating, inbox: seq<Recv>, count: nat): ReadResult
    requires LawfulInflater(i) && i.valid(s.z)
    decreases |Stored(inbox)| + |s.left|
  {
    SockReadTakes(inbox, EP_BUFSIZE);
    var (got, rest) := if s.left == [] then SockRead(inbox, EP_BUFSIZE) else (Got(s.left), inbox);
    if !got.Got? then ReadResult(s, rest, got)
    else
      var left := got.text;
      assert InflateLaw(i, s.z, left, count);
      match i.call(s.z, left, count)
      case Failed => ReadResult(Inflating(s.z, left), rest, Error)
      case Done(taken, made, inner) =>
        var s1 := Inflating(After(s.z, left, taken, made, inner), left[taken..]);
        if made != [] then ReadResult(s1, rest, Got(made))
        else ReadLoop(i, s1, rest, count)
  }

  /** One round of the reading loop, taken apart. */
  lemma ReadLoopStep(i: Inflater, s: Inflating, inbox: seq<Recv>, count: nat)
    requires LawfulInflater(i) && i.valid(s.z)
    ensures var (got, rest) := if s.left == [] then SockRead(inbox, EP_BUFSIZE) else (Got(s.left), inbox);
      var r := ReadLoop(i, s, inbox, count);
      && (!got.Got? ==> r == ReadResult(s, rest, got))
      && (got.Got? ==>
          var c := i.call(s.z, got.text, count);
          && (c.Failed? ==> r == ReadResult(Inflating(s.z, got.text), rest, Error))
          && (c.Done? ==>
             c.taken <= |got.text| && |c.made| <= count
             && var s1 := Inflating(After(s.z, got.text, c.taken, c.made, c.inner), got.text[c.taken..]);
               && i.valid(s1.z)
               && (c.made != [] ==> r == ReadResult(s1, rest, Got(c.made)))
               && (c.made == [] ==> r == ReadLoop(i, s1, rest, count))
               && (c.made == [] ==> |Stored(rest)| + |s1.left| < |Stored(inbox)| + |s.left|)))
  {
    SockReadTakes(inbox, EP_BUFSIZE);
    var (got, rest) := if s.left == [] then SockRead(inbox, EP_BUFSIZE) else (Got(s.left), inbox);
    if got.Got? {
      assert InflateLaw(i, s.z, got.text, count);
    }
  }

  /** Up to number `k` there was only data on the socket. */
  ghost predicate DataBefore(inbox: seq<Recv>, k: nat) {
    k <= |inbox| && forall j :: 0 <= j < k ==> inbox[j].Data?
  }

  /** A read that gives no text has used up the workspace and all the data before number
      `k` on the socket, and reports what it has found there; or a call has failed, and would
      fail again. */
  lemma {:induction false} ReadLoopStops(i: Inflater, s: Inflating, inbox: seq<Recv>, count: nat) returns (k: nat)
    requires LawfulInflater(i) && i.valid(s.z)
    ensures DataBefore(inbox, k)
    ensures var r := ReadLoop(i, s, inbox, count);
      && (r.got == WouldBlock ==>
            r.state.left == []
            && if k == |inbox| then r.inbox == [] else inbox[k].Again? && r.inbox == inbox[k + 1..])
      && (r.got == Eof ==> r.state.left == [] && k < |inbox| && inbox[k].Closed? && r.inbox == inbox[k..])
      && (r.got == Error ==>
            if r.state.left == [] then k < |inbox| && inbox[k].Trouble? && r.inbox == inbox[k + 1..]
            else i.call(r.state.z, r.state.left, count).Failed?)
    decreases |Stored(inbox)| + |s.left|
  {
    ReadLoopStep(i, s, inbox, count);
    hide ReadLoop, LawfulInflater, Stored, After;
    k := 0;
    var (got, rest) := if s.left == [] then SockRead(inbox, EP_BUFSIZE) else (Got(s.left), inbox);
    if got.Got? {
      var c := i.call(s.z, got.text, count);
      if c.Done? && c.made == [] {
        var s1 := Inflating(After(s.z, got.text, c.taken, c.made, c.inner), got.text[c.taken..]);
        var n := ReadLoopStops(i, s1, rest, count);
        k := if s.left == [] && |rest| < |inbox| then n + 1 else n;
        if s.left == [] {
          TakenFrom(inbox, rest, n, k);
        }
      }
    }
  }

  /** Positions on the socket after a read of data, and before. */
  lemma TakenFrom(inbox: seq<Recv>, rest: seq<Recv>, n: nat, k: nat)
    requires inbox != [] && inbox[0].Data? && DataBefore(rest, n)
    requires rest == inbox[1..] || (rest != [] && rest[0].Data? && rest[1..] == inbox[1..])
    requires k == if |rest| < |inbox| then n + 1 else n
    ensures DataBefore(inbox, k) && (k == |inbox| <==> n == |rest|)
    ensures k < |inbox| && !inbox[k].Data? ==> inbox[k] == rest[n] && inbox[k + 1..] == rest[n + 1..]
    ensures n < |rest| && !rest[n].Data? ==> inbox[k] == rest[n] && inbox[k..] == rest[n..]
  {
    if |rest| == |inbox| {
      assert forall j :: 1 <= j < |inbox| ==> rest[j] == rest[1..][j - 1] == inbox[j];
    }
  }

  /** Everything that went into the stream, waits in the workspace, or is still to come
      from the socket. */
  function Drawn(s: Inflating, inbox: seq<Recv>): Bytes {
    s.z.fed + s.left + Stored(inbox)
  }

  /** One call neither loses nor repeats a byte, whatever the read sizes and
      interruptions: what is returned is what the stream produced, and what left the
      socket went into the stream or waits in the workspace. */
  lemma {:induction false} ReadIsLossless(i: Inflater, s: Inflating, inbox: seq<Recv>, count: nat)
    requires LawfulInflater(i) && i.valid(s.z)
    ensures var r := ReadLoop(i, s, inbox, count);
      && i.valid(r.state.z)
      && r.state.z.emitted == s.z.emitted + TextOf(r.got)
      && (r.got.Got? ==> 1 <= |r.got.text| <= count)
      && Drawn(s, inbox) == Drawn(r.state, r.inbox)
    decreases |Stored(inbox)| + |s.left|
  {
    ReadLoopStep(i, s, inbox, count);
    hide ReadLoop, LawfulInflater, SockRead, Stored, Drawn, After;
    Refilled(s, inbox);
    var (got, rest) := if s.left == [] then SockRead(inbox, EP_BUFSIZE) else (Got(s.left), inbox);
    if got.Got? {
      var left := got.text;
      if i.call(s.z, left, count).Done? {
        var Done(taken, made, inner) := i.call(s.z, left, count);
        var s1 := Inflating(After(s.z, left, taken, made, inner), left[taken..]);
        Onward(s.z, left, taken, made, inner, rest);
        if made == [] {
          ReadIsLossless(i, s1, rest, count);
        }
      }
    }
  }

  /** Filling the workspace moves bytes from the socket. */
  lemma Refilled(s: Inflating, inbox: seq<Recv>)
    ensures var (got, rest) := if s.left == [] then SockRead(inbox, EP_BUFSIZE) else (Got(s.left), inbox);
      Drawn(s, inbox) == Drawn(Inflating(s.z, if got.Got? then got.text else s.left), rest)
  {
    hide Stored;
    SockReadTakes(inbox, EP_BUFSIZE);
    assert [] + Stored(inbox) == Stored(inbox);
    if s.left == [] {
      var (got, rest) := SockRead(inbox, EP_BUFSIZE);
      assert s.z.fed + s.left == s.z.fed;
      assert s.z.fed + (TextOf(got) + Stored(rest)) == s.z.fed + TextOf(got) + Stored(rest);
    }
  }

  /** A call moves bytes from the workspace into the stream. */
  lemma Onward(z: ZState, left: Bytes, taken: nat, made: Bytes, inner: nat, rest: seq<Recv>)
    requires taken <= |left|
    ensures var s := Inflating(After(z, left, taken, made, inner), left[taken..]);
      && Drawn(s, rest) == Drawn(Inflating(z, left), rest)
      && s.z.emitted == z.emitted + made
      && (made == [] ==> s.z.emitted == z.emitted)
  {
    hide Stored;
    assert left == left[..taken] + left[taken..];
    assert z.fed + left[..taken] + left[taken..] == z.fed + left;
  }

  /** The calls of a run, each with its own space; the results in order. */
  datatype ReadRun = ReadRun(state: Inflating, inbox: seq<Recv>, returned: Bytes)

  ghost function ReadAll(i: Inflater, inbox: seq<Recv>, counts: seq<nat>): (r: ReadRun)
    requires LawfulInflater(i)
    ensures i.valid(r.state.z)
    decreases |counts|
  {
    if counts == [] then ReadRun(Inflating(NewInflate(i), []), inbox, [])
    else
      var before := ReadAll(i, inbox, counts[..|counts| - 1]);
      var count := counts[|counts| - 1];
      ReadIsLossless(i, before.state, before.inbox, count);
      var r := ReadLoop(i, before.state, before.inbox, count);
      ReadRun(r.state, r.inbox, before.returned + TextOf(r.got))
  }

  /** Over any sequence of calls the text returned is always the beginning of the
      decoding of all bytes read from the socket so far. */
  lemma {:induction false} CompressedReadLossless(i: Inflater, inbox: seq<Recv>, counts: seq<nat>)
    requires LawfulInflater(i)
    ensures var r := ReadAll(i, inbox, counts);
      var drawn := r.state.z.fed + r.state.left;
      && r.returned == r.state.z.emitted
      && Stored(inbox) == drawn + Stored(r.inbox)
      && r.returned <= i.decode(drawn)
    decreases |counts|
  {
    if counts == [] {
      assert [] + [] + Stored(inbox) == Stored(inbox);
    } else {
      CompressedReadLossless(i, inbox, counts[..|counts| - 1]);
      var before := ReadAll(i, inbox, counts[..|counts| - 1]);
      ReadIsLossless(i, before.state, before.inbox, counts[|counts| - 1]);
    }
    var r := ReadAll(i, inbox, counts);
    assert r.state.z.fed <= r.state.z.fed + r.state.left;
  }

  // ---- The contracts can be met ----

  /** A codec that stores its input. */
  function StoringDeflater(): Deflater {
    Deflater(0, 1,
      (z: ZState, input: Bytes, room: nat) =>
        var n := if |input| <= room then |input| else room;
        Done(n, input[..n], 0),
      (z: ZState) => z.fed == z.emitted,
      (text: Bytes) => text,
      (z: ZState, input: Bytes) => |input|)
  }

  function StoringInflater(): Inflater {
    Inflater(0,
      (z: ZState, input: Bytes, room: nat) =>
        var n := if |input| <= room then |input| else room;
        if n == 0 then Failed else Done(n, input[..n], 0),
      (z: ZState) => z.fed == z.emitted,
      (text: Bytes) => text)
  }

  lemma ContractsCanBeMet()
    ensures LawfulDeflater(StoringDeflater()) && LawfulInflater(StoringInflater())
  {
    var d := StoringDeflater();
    forall z, input, room: nat | d.valid(z) && room > 0 ensures DeflateLaw(d, z, input, room) {
    }
    var i := StoringInflater();
    forall z, input, room: nat | i.valid(z) ensures InflateLaw(i, z, input, room) {
    }
  }
}
