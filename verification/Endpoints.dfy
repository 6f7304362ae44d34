/** One side of the proxy: its socket, buffers, compression streams and negotiation
    state, updated in place. */
module Endpoints {
  import opened Telnet
  import opened Iobufs
  import opened Codec
  import opened Handlers
  import opened Wire
  import Environ

  // ---- The socket's bytes against the frames handed to it ----

  /** The wire from `wireBase` on carries the frames from `base` on: verbatim, or as
      the output of the running compressor, which its peer can decode completely.
      The part before is verbatim if nothing in it was compressed; before a
      compressed part there is an uncompressed byte, the end of a start marker. */
  ghost predicate Carries(d: Deflater, sent: seq<Frame>, wire: Bytes, base: nat, wireBase: nat, zd: Option<ZState>) {
    && base <= |sent| && wireBase <= |wire|
    && (AllPacked(sent[..base], false) ==> wire[..wireBase] == BytesOf(sent[..base]))
    && match zd
       case None => AllPacked(sent[base..], false) && wire[wireBase..] == BytesOf(sent[base..])
       case Some(z) =>
         && d.valid(z) && d.decode(z.emitted) == z.fed
         && AllPacked(sent[base..], true)
         && wire[wireBase..] == z.emitted && BytesOf(sent[base..]) == z.fed
         && (base == |sent| ==> z.emitted == [])
         && base > 0 && !sent[base - 1].packed
  }

  lemma PackedAt(fs: seq<Frame>, a: nat, b: nat, packed: bool)
    requires a <= b <= |fs| && AllPacked(fs[a..b], packed)
    ensures forall i :: a <= i < b ==> fs[i].packed == packed
  {
    forall i | a <= i < b ensures fs[i].packed == packed {
      assert fs[a..b][i - a] == fs[i];
    }
  }

  lemma CarriesPlain(d: Deflater, sent: seq<Frame>, wire: Bytes, base: nat, wireBase: nat, data: Bytes, origin: Origin)
    requires Carries(d, sent, wire, base, wireBase, None)
    ensures Carries(d, sent + Frames(data, origin, false), wire + data, base, wireBase, None)
  {
    var more := Frames(data, origin, false);
    assert (sent + more)[..base] == sent[..base] && (wire + data)[..wireBase] == wire[..wireBase];
    assert (sent + more)[base..] == sent[base..] + more;
    assert (wire + data)[wireBase..] == wire[wireBase..] + data;
  }

  lemma CarriesPacked(d: Deflater, sent: seq<Frame>, wire: Bytes, base: nat, wireBase: nat, z: ZState,
                      data: Bytes, origin: Origin, w: Written)
    requires Carries(d, sent, wire, base, wireBase, Some(z)) && data != []
    requires d.valid(w.z) && w.z.fed == z.fed + data && w.z.emitted == z.emitted + w.wire
    requires d.decode(w.z.emitted) == w.z.fed
    ensures Carries(d, sent + Frames(data, origin, true), wire + w.wire, base, wireBase, Some(w.z))
  {
    var more := Frames(data, origin, true);
    assert (sent + more)[..base] == sent[..base] && (wire + w.wire)[..wireBase] == wire[..wireBase];
    assert (sent + more)[base..] == sent[base..] + more;
    assert (wire + w.wire)[wireBase..] == wire[wireBase..] + w.wire;
    assert BytesOf(sent[base..] + more) == BytesOf(sent[base..]) + data;
  }

  /** Turning compression on or off starts a new part of the wire. */
  lemma CarriesSwitch(d: Deflater, sent: seq<Frame>, wire: Bytes, base: nat, wireBase: nat, zd: Option<ZState>)
    requires LawfulDeflater(d) && Carries(d, sent, wire, base, wireBase, zd)
    ensures Carries(d, sent, wire, |sent|, |wire|, None)
    ensures sent != [] && !sent[|sent| - 1].packed ==>
      Carries(d, sent, wire, |sent|, |wire|, Some(NewDeflate(d)))
  {
    assert sent[..|sent|] == sent && wire[..|wire|] == wire;
    assert sent == sent[..base] + sent[base..] && wire == wire[..wireBase] + wire[wireBase..];
    PackedAt(sent, base, |sent|, zd.Some?);
    if AllPacked(sent, false) {
      assert base < |sent| ==> sent[base].packed == zd.Some?;
      assert zd.Some? ==> base == |sent|;
      assert BytesOf(sent) == BytesOf(sent[..base]) + BytesOf(sent[base..]);
    }
  }

  /** A wire on which nothing was compressed is all that was handed over. */
  lemma CarriesRaw(d: Deflater, sent: seq<Frame>, wire: Bytes, base: nat, wireBase: nat, zd: Option<ZState>)
    requires Carries(d, sent, wire, base, wireBase, zd) && AllPacked(sent, false) && zd.None?
    ensures wire == BytesOf(sent)
  {
    assert sent == sent[..base] + sent[base..] && wire == wire[..wireBase] + wire[wireBase..];
    assert BytesOf(sent) == BytesOf(sent[..base]) + BytesOf(sent[base..]);
  }

  /** Raw text up to and including the start marker, then bytes that decode to
      everything handed over since. */
  lemma CarriesCompressed(d: Deflater, client: Peer, wire: Bytes, base: nat, wireBase: nat, z: ZState, n: nat)
    requires Carries(d, client.sent, wire, base, wireBase, Some(z))
    requires Compressed(client, n)
    ensures wire == BytesOf(client.sent[..n]) + MCCP2_START + z.emitted
    ensures d.decode(z.emitted) == BytesOf(client.sent[n + 5..])
  {
    var sent := client.sent;
    PackedAt(sent, 0, n, false);
    PackedAt(sent, n + 5, |sent|, true);
    PackedAt(sent, base, |sent|, true);
    assert forall i :: n <= i < n + 5 ==> !sent[i].packed by {
      forall i | n <= i < n + 5 ensures !sent[i].packed {
        assert sent[i] == sent[n..n + 5][i - n];
      }
    }
    assert base < |sent| ==> sent[base].packed;
    assert !sent[base - 1].packed;
    assert base == n + 5;
    assert AllPacked(sent[..base], false);
    MarkerBytes(sent, n);
    assert wire == wire[..wireBase] + wire[wireBase..];
  }

  // ---- What has been read against what the socket gave ----

  /** Until the input is compressed the text heard is the bytes taken. Since the
      latest start, the text heard is what the stream has produced, and the bytes
      taken went into the stream or are left in the workspace. */
  ghost predicate Hears(i: Inflater, zi: Option<ZState>, left: Bytes, starts: nat,
                        took: Bytes, heard: Bytes, took0: Bytes, heard0: Bytes) {
    match zi
    case None => starts == 0 && heard == took
    case Some(z) =>
      && starts > 0 && i.valid(z)
      && heard == heard0 + z.emitted
      && took == took0 + z.fed + left
      && (starts == 1 ==> heard0 == took0)
  }

  lemma CarriesValid(d: Deflater, sent: seq<Frame>, wire: Bytes, base: nat, wireBase: nat, z: ZState)
    requires Carries(d, sent, wire, base, wireBase, Some(z))
    ensures d.valid(z)
  {
  }

  /** A compressed read keeps the account. */
  lemma HearsCompressed(i: Inflater, z: ZState, left: Bytes, starts: nat, took: Bytes, heard: Bytes,
                        took0: Bytes, heard0: Bytes, inbox: seq<Recv>, count: nat, r: ReadResult)
    requires LawfulInflater(i)
    requires Hears(i, Some(z), left, starts, took, heard, took0, heard0)
    requires r == ReadLoop(i, Inflating(z, left), inbox, count)
    ensures var took1 := took0 + r.state.z.fed + r.state.left;
      && Hears(i, Some(r.state.z), r.state.left, starts, took1, heard + TextOf(r.got), took0, heard0)
      && took + Stored(inbox) == took1 + Stored(r.inbox)
      && (r.got.Got? ==> 1 <= |r.got.text| <= count)
  {
    hide ReadLoop, LawfulInflater;
    ReadIsLossless(i, Inflating(z, left), inbox, count);
    assert took + Stored(inbox) == took0 + (z.fed + left + Stored(inbox));
    assert took0 + (r.state.z.fed + r.state.left + Stored(r.inbox))
        == took0 + r.state.z.fed + r.state.left + Stored(r.inbox);
    assert heard0 + (z.emitted + TextOf(r.got)) == heard0 + z.emitted + TextOf(r.got);
  }

  lemma HearsPlain(i: Inflater, left: Bytes, left': Bytes, starts: nat, took: Bytes, heard: Bytes,
                   took0: Bytes, heard0: Bytes, text: Bytes)
    requires Hears(i, None, left, starts, took, heard, took0, heard0)
    ensures Hears(i, None, left', starts, took + text, heard + text, took0, heard0)
  {
  }

  lemma HearsStart(i: Inflater, zi: Option<ZState>, left: Bytes, starts: nat, took: Bytes, heard: Bytes,
                   took0: Bytes, heard0: Bytes)
    requires LawfulInflater(i) && Hears(i, zi, left, starts, took, heard, took0, heard0)
    ensures Hears(i, Some(NewInflate(i)), [], starts + 1, took, heard, took, heard)
  {
    assert took + [] + [] == took && heard + [] == heard;
  }

  lemma HearsValid(i: Inflater, z: ZState, left: Bytes, starts: nat, took: Bytes, heard: Bytes,
                   took0: Bytes, heard0: Bytes)
    requires Hears(i, Some(z), left, starts, took, heard, took0, heard0)
    ensures i.valid(z)
  {
  }

  /** What is flushed from a plain endpoint ends with a plain byte. */
  lemma FlushedLast(p: Peer, text: Bytes)
    requires !p.deflating && text != []
    ensures var q := Flush(Put(p, text));
      q.sent != [] && !q.sent[|q.sent| - 1].packed && !q.deflating
      && q == p.(sent := q.sent, output := q.output)
  {
  }

  lemma Taken(took: Bytes, text: Bytes, stored: Bytes)
    ensures took + text + stored == took + (text + stored)
  {
  }

  /** How often the input has been announced as compressed, and all that had been read
      from the socket and handed on as text when that was last done. */
  datatype Account = Account(starts: nat, took0: Bytes, heard0: Bytes)

  /** What has been read, and what there still is to read. */
  datatype Tape = Tape(took: Bytes, heard: Bytes, inbox: seq<Recv>, account: Account)

  /** The account is as before, or has been opened anew at the present point. */
  predicate Renewed(before: Account, after: Account, took: Bytes, heard: Bytes) {
    after == before || (after.starts > before.starts && after.took0 == took && after.heard0 == heard)
  }

  /** Flushing empties the output buffer exactly if the endpoint is not compressed or
      has nothing queued. */
  lemma FlushEmpties(p: Peer)
    ensures Flush(p).output == [] <==> !p.deflating || p.output == []
    ensures p.deflating ==>
      Flush(Flush(p)).sent == p.sent + Frames(p.output, Injected, true) + Frames(p.output, Injected, true)
  {
  }

  /** So what is queued for a compressed endpoint is sent again by the next flush. */
  lemma FlushRepeats(p: Peer, c: byte)
    requires p.deflating && p.output == [c]
    ensures Flush(p).output == [c]
    ensures Flush(Flush(p)).sent == p.sent + [Frame(c, Injected, true), Frame(c, Injected, true)]
  {
    FlushEmpties(p);
    assert Frames([c], Injected, true) == [Frame(c, Injected, true)];
  }

  lemma FormatPrints(p: Peer, text: Bytes)
    requires |p.output| <= EP_BUFSIZE
    ensures Format(p, text) == p.(output := p.output + Printed(text, EP_BUFSIZE - |p.output|))
  {
    assert p.output + (text[..0] + [0]) == p.output + text[..0] + [0];
    assert p.output + [] == p.output;
  }

  class Endpoint {
    const input: Iobuf
    const output: Iobuf
    const zin: array<byte>
    const zout: array<byte>
    const mode: Mode
    const deflater: Deflater
    const inflater: Inflater

    var matching: bool
    var patterns: seq<Pattern>
    var re: seq<Bytes>
    var mnes: Mnes
    var nego: Nego

    // The z_stream of each direction; nextIn and availIn delimit the bytes of the
    // input workspace the stream has yet to be given.
    var zd: Option<ZState>
    var zi: Option<ZState>
    var nextIn: nat
    var availIn: nat

    // The socket: what reads will find, and what has been written.
    var inbox: seq<Recv>
    var wire: Bytes

    // Everything handed over for writing, and where the present part of it starts.
    ghost var sent: seq<Frame>
    ghost var base: nat
    ghost var wireBase: nat

    // Everything read from the socket and handed on as text, also up to the latest
    // start of compressed input.
    ghost var took: Bytes
    ghost var heard: Bytes
    ghost var took0: Bytes
    ghost var heard0: Bytes
    ghost var starts: nat

    ghost function Repr(): set<object> {
      {this, input, output, input.data, output.data, zin, zout}
    }

    ghost predicate Distinct() {
      && input != output
      && input.data != output.data && input.data != zin && input.data != zout
      && output.data != zin && output.data != zout && zin != zout
    }

    /** The parts are distinct and of the right size. */
    ghost predicate Shaped()
      reads input, output
    {
      && Distinct()
      && input.data.Length == EP_BUFSIZE && output.data.Length == EP_BUFSIZE
      && zin.Length == EP_BUFSIZE && zout.Length == EP_BUFSIZE
      && input.Valid() && output.Valid()
      && LawfulDeflater(deflater) && deflater.minRoom <= EP_BUFSIZE && LawfulInflater(inflater)
    }

    ghost predicate Valid()
      reads Repr()
      ensures Valid() ==> input.Valid() && output.Valid() && Distinct()
    {
      && Shaped()
      && Carries(deflater, sent, wire, base, wireBase, zd)
      && nextIn + availIn <= EP_BUFSIZE
      && Hears(inflater, zi, Left(), starts, took, heard, took0, heard0)
    }

    /** The bytes left in the input workspace. */
    ghost function Left(): Bytes
      reads this`nextIn, this`availIn, zin
    {
      if nextIn + availIn <= zin.Length then zin[nextIn..nextIn + availIn] else []
    }

    /** What the next read of the endpoint gives, into the room the input buffer has. */
    ghost function NextRead(): Got
      reads this`zi, this`nextIn, this`availIn, this`inbox, zin, input, input.data
    {
      if !input.Valid() || !LawfulInflater(inflater) then WouldBlock
      else if zi.None? then SockRead(inbox, input.Avail()).0
      else if inflater.valid(zi.value) then ReadLoop(inflater, Inflating(zi.value, Left()), inbox, input.Avail()).got
      else WouldBlock
    }

    ghost function Beginning(): Account
      reads this`starts, this`took0, this`heard0
    {
      Account(starts, took0, heard0)
    }

    ghost function Played(): Tape
      reads this`took, this`heard, this`inbox, this`starts, this`took0, this`heard0
    {
      Tape(took, heard, inbox, Beginning())
    }

    /** All the bytes the socket has given and will give. */
    ghost function Supply(): Bytes
      reads this`took, this`inbox
    {
      took + Stored(inbox)
    }

    ghost function View(): Peer
      requires output.Valid()
      reads this, output, output.data
    {
      Peer(matching, mnes, nego, zd.Some?, starts, output.Contents(), sent)
    }

    constructor (mode: Mode, deflater: Deflater, inflater: Inflater, inbox: seq<Recv>)
      requires LawfulDeflater(deflater) && deflater.minRoom <= EP_BUFSIZE && LawfulInflater(inflater)
      ensures Valid() && fresh(Repr())
      ensures this.mode == mode && this.inbox == inbox && patterns == [] && re == []
      ensures this.deflater == deflater && this.inflater == inflater && starts == 0
      ensures View() == Peer(false, Silent, Unoffered, false, 0, [], [])
      ensures input.Contents() == [] && wire == [] && took == [] && heard == [] && Supply() == Stored(inbox)
    {
      this.input := new Iobuf(EP_BUFSIZE);
      this.output := new Iobuf(EP_BUFSIZE);
      this.zin := new byte[EP_BUFSIZE];
      this.zout := new byte[EP_BUFSIZE];
      this.mode, this.deflater, this.inflater, this.inbox := mode, deflater, inflater, inbox;
      matching, patterns, re, mnes, nego := false, [], [], Silent, Unoffered;
      zd, zi, nextIn, availIn, wire := None, None, 0, 0, [];
      sent, base, wireBase := [], 0, 0;
      took, heard, took0, heard0, starts := [], [], [], [], 0;
    }

    // ---- Negotiation state ----

    method EnableMatching()
      requires Valid()
      modifies this`matching
      ensures Valid() && View() == old(View()).(matching := true)
    {
      matching := true;
    }

    method DisableMatching()
      requires Valid()
      modifies this`matching
      ensures Valid() && View() == old(View()).(matching := false)
    {
      matching := false;
    }

    method SetMnes(mnes: Mnes)
      requires Valid()
      modifies this`mnes
      ensures Valid() && View() == old(View()).(mnes := mnes)
    {
      this.mnes := mnes;
    }

    method SetNego(nego: Nego)
      requires Valid()
      modifies this`nego
      ensures Valid() && View() == old(View()).(nego := nego)
    {
      this.nego := nego;
    }

    method AddPattern(text: Bytes, action: Action)
      requires Valid()
      modifies this`patterns
      ensures Valid() && View() == old(View())
      ensures patterns == old(patterns) + [Pattern(text, action)]
    {
      patterns := patterns + [Pattern(text, action)];
    }

    method SetExpression(re: seq<Bytes>)
      requires Valid()
      modifies this`re
      ensures Valid() && View() == old(View()) && this.re == re
    {
      this.re := re;
    }

    // ---- Writing ----

    method WriteSock(data: Bytes) returns (ret: int)
      modifies this`wire
      ensures wire == old(wire) + data && ret == |data|
    {
      wire := wire + data;
      ret := |data|;
    }

    /** Puts bytes the compressor has made into the workspace and writes them out. */
    method WriteWorkspace(made: Bytes) returns (ret: int)
      requires |made| <= zout.Length
      modifies this`wire, zout
      ensures wire == old(wire) + made && ret == |made|
    {
      forall k | 0 <= k < |made| {
        zout[k] := made[k];
      }
      assert zout[..|made|] == made;
      ret := WriteSock(zout[..|made|]);
    }

    /** Sends all of the data through the compressor, a workspace at a time. The value
        returned is total_in, which has been reset by then. */
    method WriteCompressed(data: Bytes) returns (ret: int)
      requires zout.Length == EP_BUFSIZE
      requires LawfulDeflater(deflater) && deflater.minRoom <= EP_BUFSIZE
      requires zd.Some? && deflater.valid(zd.value) && data != []
      modifies this`zd, this`wire, zout
      ensures var w := WriteLoop(deflater, old(zd.value), data, EP_BUFSIZE);
        zd == Some(w.z) && wire == old(wire) + w.wire
      ensures ret == 0
    {
      hide WriteLoop, LawfulDeflater, After, Prepend;
      ghost var w := WriteLoop(deflater, zd.value, data, EP_BUFSIZE);
      var z, rest := zd.value, data;
      ghost var made: Bytes := [];
      var consumed, totalIn := 0, 0;
      DataIsTaken(deflater, z, data, EP_BUFSIZE);
      PrependTwice([], [], w);
      var more := true;
      while more
        invariant deflater.valid(z) && |rest| <= |data|
        invariant more ==> deflater.call(z, rest, EP_BUFSIZE).Done?
        invariant wire == old(wire) + made && zd == old(zd)
        invariant w == Prepend(made, if more then WriteLoop(deflater, z, rest, EP_BUFSIZE) else Written(z, [], true))
        invariant totalIn == 0
        decreases more, deflater.owed(z, rest)
      {
        WriteLoopStep(deflater, z, rest, EP_BUFSIZE);
        var call := deflater.call(z, rest, EP_BUFSIZE);
        z, rest := After(z, rest, call.taken, call.made, call.inner), rest[call.taken..];
        totalIn := call.taken;
        var written := WriteWorkspace(call.made);
        PrependTwice(made, call.made, if |call.made| < EP_BUFSIZE then Written(z, [], true)
                                      else WriteLoop(deflater, z, rest, EP_BUFSIZE));
        made := made + call.made;
        if written > 0 {
          consumed, totalIn := consumed + totalIn, 0;
          more := |call.made| == EP_BUFSIZE;
        } else {
          totalIn := if consumed == 0 then written else totalIn;
          more := false;
        }
      }
      PrependTwice(made, [], Written(z, [], true));
      zd := Some(z);
      ret := totalIn;
    }

    method WriteEndpoint(data: Bytes, ghost origin: Origin) returns (ret: int)
      requires Valid() && (zd.Some? ==> data != [])
      modifies this`zd, this`wire, this`sent, zout
      ensures Valid()
      ensures View() == Write(old(View()), data, origin)
      ensures ret == if old(zd).None? then |data| else 0
    {
      hide Carries, Hears, WriteLoop, LawfulDeflater, LawfulInflater;
      if zd.Some? {
        CarriesValid(deflater, sent, wire, base, wireBase, zd.value);
        DataIsTaken(deflater, zd.value, data, EP_BUFSIZE);
        WriteIsComplete(deflater, zd.value, data, EP_BUFSIZE);
        CarriesPacked(deflater, sent, wire, base, wireBase, zd.value, data, origin,
                      WriteLoop(deflater, zd.value, data, EP_BUFSIZE));
        ret := WriteCompressed(data);
      } else {
        CarriesPlain(deflater, sent, wire, base, wireBase, data, origin);
        ret := WriteSock(data);
      }
      sent := sent + Frames(data, origin, zd.Some?);
    }

    /** Writes out the output buffer and pops as many bytes as the write reports, which
        are none on a compressed endpoint. */
    method FlushEndpoint() returns (ret: int)
      requires Valid() && (zd.Some? ==> output.Len() > 0)
      modifies this`zd, this`wire, this`sent, zout, output`tail, output.data
      ensures Valid()
      ensures View() == Flush(old(View()))
    {
      var data := output.Front(output.Len());
      assert data == output.Contents();
      ret := WriteEndpoint(data, Injected);
      if ret > 0 {
        output.Pop(ret);
      }
    }

    /** Queues bytes for the endpoint by memcpy. */
    method QueueBytes(text: Bytes)
      requires Valid() && output.Len() + |text| <= EP_BUFSIZE
      modifies output`tail, output.data
      ensures Valid()
      ensures View() == Put(old(View()), text)
    {
      output.Append(text);
    }

    /** Queues printed text for the endpoint. */
    method QueueText(text: Bytes)
      requires Valid()
      modifies output`tail, output.data
      ensures Valid()
      ensures View() == Format(old(View()), text)
    {
      hide Carries, Hears, LawfulDeflater, LawfulInflater, Splice, Printed, Format;
      FormatPrints(View(), text);
      output.Print(text);
    }

    /** Queues bytes by memcpy and sends them. */
    method SendBytes(text: Bytes)
      requires Valid() && zd.None? && output.Len() + |text| <= EP_BUFSIZE
      modifies this`zd, this`wire, this`sent, zout, output`tail, output.data
      ensures Valid() && View() == Flush(Put(old(View()), text))
    {
      hide Carries, Hears, LawfulDeflater, LawfulInflater, Frames;
      QueueBytes(text);
      var _ := FlushEndpoint();
    }

    /** Queues printed text and sends it. */
    method SendText(text: Bytes)
      requires Valid() && zd.None?
      modifies this`zd, this`wire, this`sent, zout, output`tail, output.data
      ensures Valid() && View() == Flush(Format(old(View()), text))
    {
      hide Carries, Hears, LawfulDeflater, LawfulInflater, Frames;
      QueueText(text);
      var _ := FlushEndpoint();
    }

    /** Queues a list of reports and sends them. */
    method SendReports(reports: seq<Environ.Report>)
      requires Valid() && zd.None?
      modifies this`zd, this`wire, this`sent, zout, output`tail, output.data
      ensures Valid()
      ensures View() == Flush(Queue(old(View()), reports))
    {
      hide Carries, Hears, LawfulDeflater, LawfulInflater;
      ghost var start := View();
      for i := 0 to |reports|
        invariant Valid() && zd.None?
        invariant Queue(start, reports) == Queue(View(), reports[i..])
      {
        assert reports[i..][1..] == reports[i + 1..];
        QueueText(Environ.MnesPair(reports[i].name, reports[i].value));
      }
      var _ := FlushEndpoint();
    }

    /** From here on what is written is compressed; a start marker has just been sent. */
    method StartDeflate()
      requires Valid() && zd.None? && sent != [] && !sent[|sent| - 1].packed
      modifies this`zd, this`base, this`wireBase
      ensures Valid()
      ensures View() == old(View()).(deflating := true)
    {
      CarriesSwitch(deflater, sent, wire, base, wireBase, zd);
      zd, base, wireBase := Some(NewDeflate(deflater)), |sent|, |wire|;
    }

    /** Announces compression to the endpoint and turns it on. */
    method BeginCompression()
      requires Valid() && zd.None? && output.Len() + |MCCP2_START| <= EP_BUFSIZE
      modifies this`zd, this`wire, this`sent, zout, output`tail, output.data, this`base, this`wireBase, this`nego
      ensures Valid()
      ensures View() == Flush(Put(old(View()), MCCP2_START)).(deflating := true, nego := Accepted)
    {
      hide Endpoint.Valid;
      FlushedLast(View(), MCCP2_START);
      SendBytes(MCCP2_START);
      StartDeflate();
      SetNego(Accepted);
    }

    method StopDeflate()
      requires Valid()
      modifies this`zd, this`base, this`wireBase
      ensures Valid()
      ensures View() == old(View()).(deflating := false)
    {
      if zd.Some? {
        CarriesSwitch(deflater, sent, wire, base, wireBase, zd);
        zd, base, wireBase := None, |sent|, |wire|;
      }
    }

    /** Turns compression off, or takes note that it is not wanted. */
    method EndCompression()
      requires Valid()
      modifies this`zd, this`base, this`wireBase, this`nego
      ensures Valid()
      ensures View() == old(View()).(deflating := false, nego := Refused)
    {
      hide Endpoint.Valid;
      StopDeflate();
      SetNego(Refused);
    }

    /** From here on what is read is decompressed. */
    method StartInflate()
      requires Valid()
      modifies this`zi, this`nextIn, this`availIn, this`took0, this`heard0, this`starts
      ensures Valid()
      ensures View() == old(View()).(starts := old(starts) + 1)
      ensures Beginning() == Account(old(starts) + 1, took, heard)
    {
      hide Carries, Hears, LawfulDeflater, LawfulInflater;
      HearsStart(inflater, zi, Left(), starts, took, heard, took0, heard0);
      zi, nextIn, availIn := Some(NewInflate(inflater)), 0, 0;
      took0, heard0, starts := took, heard, starts + 1;
      assert Left() == [];
    }

    // ---- Reading ----

    /** Drops bytes from the head of the input buffer. */
    method PopInput(len: nat)
      requires Valid() && len <= input.Len()
      modifies input`tail, input.data
      ensures Valid() && View() == old(View())
      ensures input.Contents() == old(input.Contents())[len..]
    {
      hide Carries, Hears, LawfulDeflater, LawfulInflater;
      input.Pop(len);
    }

    method ReadSock(count: nat) returns (got: Got)
      modifies this`inbox
      ensures (got, inbox) == SockRead(old(inbox), count)
    {
      var r := SockRead(inbox, count);
      inbox := r.1;
      got := r.0;
    }

    /** Reads from the socket into the workspace. */
    method Refill() returns (got: Got)
      requires zin.Length == EP_BUFSIZE && nextIn + availIn <= EP_BUFSIZE && availIn == 0
      modifies this`nextIn, this`availIn, this`inbox, zin
      ensures (got, inbox) == SockRead(old(inbox), EP_BUFSIZE)
      ensures nextIn + availIn <= EP_BUFSIZE && Left() == TextOf(got)
    {
      got := ReadSock(EP_BUFSIZE);
      if got.Got? {
        forall k | 0 <= k < |got.text| {
          zin[k] := got.text[k];
        }
        nextIn, availIn := 0, |got.text|;
        assert Left() == got.text;
      } else {
        assert Left() == [];
      }
    }

    /** Gives the stream the bytes left in the workspace. */
    method InflateOnce(count: nat) returns (call: Call)
      requires zin.Length == EP_BUFSIZE && nextIn + availIn <= EP_BUFSIZE
      requires LawfulInflater(inflater) && zi.Some? && inflater.valid(zi.value)
      modifies this`zi, this`nextIn, this`availIn
      ensures call == inflater.call(old(zi.value), old(Left()), count)
      ensures call.Failed? ==>
        zi == old(zi) && nextIn == old(nextIn) && availIn == old(availIn) && Left() == old(Left())
      ensures call.Done? ==>
        call.taken <= |old(Left())| && nextIn + availIn <= EP_BUFSIZE
        && Left() == old(Left())[call.taken..]
        && zi == Some(After(old(zi.value), old(Left()), call.taken, call.made, call.inner))
    {
      var left := zin[nextIn..nextIn + availIn];
      call := inflater.call(zi.value, left, count);
      assert InflateLaw(inflater, zi.value, left, count);
      if call.Done? {
        zi := Some(After(zi.value, left, call.taken, call.made, call.inner));
        nextIn, availIn := nextIn + call.taken, availIn - call.taken;
        assert Left() == left[call.taken..];
      }
    }

    lemma UsedUp()
      requires zin.Length == EP_BUFSIZE && nextIn + availIn <= EP_BUFSIZE
      ensures availIn == 0 <==> Left() == []
    {
    }

    /** Refills the workspace when it is used up and inflates from it, until some text
        has come out or a read fails. */
    method ReadCompressed(count: nat) returns (got: Got)
      requires zin.Length == EP_BUFSIZE && nextIn + availIn <= EP_BUFSIZE
      requires LawfulInflater(inflater) && zi.Some? && inflater.valid(zi.value)
      modifies this`zi, this`nextIn, this`availIn, this`inbox, zin
      ensures nextIn + availIn <= EP_BUFSIZE && zi.Some?
      ensures var r := ReadLoop(inflater, Inflating(old(zi.value), old(Left())), old(inbox), count);
        && Inflating(zi.value, Left()) == r.state && inbox == r.inbox && got == r.got
    {
      hide ReadLoop, LawfulInflater, SockRead, Stored, Left, After;
      ghost var r := ReadLoop(inflater, Inflating(zi.value, Left()), inbox, count);
      while true
        invariant zi.Some? && inflater.valid(zi.value) && nextIn + availIn <= EP_BUFSIZE
        invariant r == ReadLoop(inflater, Inflating(zi.value, Left()), inbox, count)
        decreases |Stored(inbox)| + |Left()|
      {
        ReadLoopStep(inflater, Inflating(zi.value, Left()), inbox, count);
        UsedUp();
        if availIn == 0 {
          got := Refill();
          if !got.Got? {
            return;
          }
        }
        var call := InflateOnce(count);
        if call.Failed? {
          return Error;
        }
        if call.made != [] {
          return Got(call.made);
        }
      }
    }

    /** The compressed read, and the account of it. */
    method ReadInflated(count: nat) returns (got: Got)
      requires zin.Length == EP_BUFSIZE && nextIn + availIn <= EP_BUFSIZE && LawfulInflater(inflater)
      requires Hears(inflater, zi, Left(), starts, took, heard, took0, heard0)
      requires zi.Some? && inflater.valid(zi.value)
      modifies this`zi, this`nextIn, this`availIn, this`inbox, zin, this`took, this`heard
      ensures nextIn + availIn <= EP_BUFSIZE && zi.Some?
      ensures Hears(inflater, zi, Left(), starts, took, heard, took0, heard0)
      ensures ReadResult(Inflating(zi.value, Left()), inbox, got)
           == ReadLoop(inflater, Inflating(old(zi).value, old(Left())), old(inbox), count)
      ensures old(Left()) != [] ==>
        var c := inflater.call(old(zi).value, old(Left()), count);
        && (c.Done? && c.made != [] ==>
              && got == Got(c.made) && inbox == old(inbox)
              && c.taken <= |old(Left())| && Left() == old(Left())[c.taken..]
              && zi == Some(After(old(zi).value, old(Left()), c.taken, c.made, c.inner)))
        && (c.Failed? ==> got == Error && inbox == old(inbox) && zi == old(zi) && Left() == old(Left()))
      ensures got.Got? ==> 1 <= |got.text| <= count
      ensures heard == old(heard) + TextOf(got)
      ensures took + Stored(inbox) == old(took) + old(Stored(inbox))
    {
      hide Hears, ReadLoop, LawfulInflater, Stored, Left, SockRead, After;
      ReadLoopStep(inflater, Inflating(zi.value, Left()), inbox, count);
      HearsCompressed(inflater, zi.value, Left(), starts, took, heard, took0, heard0, inbox, count,
                      ReadLoop(inflater, Inflating(zi.value, Left()), inbox, count));
      got := ReadCompressed(count);
      took := took0 + zi.value.fed + Left();
      heard := heard + TextOf(got);
    }

    /** The read from the bare socket, and the account of it. */
    method ReadBare(count: nat) returns (got: Got)
      requires Hears(inflater, zi, Left(), starts, took, heard, took0, heard0) && zi.None?
      modifies this`inbox, this`took, this`heard
      ensures Hears(inflater, zi, Left(), starts, took, heard, took0, heard0)
      ensures (got, inbox) == SockRead(old(inbox), count)
      ensures heard == old(heard) + TextOf(got)
      ensures took + Stored(inbox) == old(took) + old(Stored(inbox))
    {
      hide Hears, Stored, SockRead;
      SockReadTakes(inbox, count);
      got := ReadSock(count);
      HearsPlain(inflater, Left(), Left(), starts, took, heard, took0, heard0, TextOf(got));
      Taken(took, TextOf(got), Stored(inbox));
      took, heard := took + TextOf(got), heard + TextOf(got);
    }

    /** The socket read or the compressed one. */
    method ReadText(count: nat) returns (got: Got)
      requires zin.Length == EP_BUFSIZE && nextIn + availIn <= EP_BUFSIZE && LawfulInflater(inflater)
      requires Hears(inflater, zi, Left(), starts, took, heard, took0, heard0)
      requires zi.Some? ==> inflater.valid(zi.value)
      modifies this`zi, this`nextIn, this`availIn, this`inbox, zin, this`took, this`heard
      ensures nextIn + availIn <= EP_BUFSIZE
      ensures Hears(inflater, zi, Left(), starts, took, heard, took0, heard0)
      ensures old(zi).None? ==> (got, inbox) == SockRead(old(inbox), count)
      ensures old(zi).Some? ==> zi.Some?
      ensures old(zi).Some? ==>
        ReadResult(Inflating(zi.value, Left()), inbox, got)
          == ReadLoop(inflater, Inflating(old(zi).value, old(Left())), old(inbox), count)
      ensures old(zi).Some? && old(Left()) != [] ==>
        var c := inflater.call(old(zi).value, old(Left()), count);
        && (c.Done? && c.made != [] ==>
              && got == Got(c.made) && inbox == old(inbox)
              && c.taken <= |old(Left())| && Left() == old(Left())[c.taken..]
              && zi == Some(After(old(zi).value, old(Left()), c.taken, c.made, c.inner)))
        && (c.Failed? ==> got == Error && inbox == old(inbox) && zi == old(zi) && Left() == old(Left()))
      ensures got.Got? ==> 1 <= |got.text| <= count
      ensures heard == old(heard) + TextOf(got) && zi.Some? == old(zi).Some?
      ensures took + Stored(inbox) == old(took) + old(Stored(inbox))
    {
      hide Hears, ReadLoop, LawfulInflater, Stored, SockRead, After, Left;
      if zi.Some? {
        got := ReadInflated(count);
      } else {
        got := ReadBare(count);
      }
    }

    /** One read into the input buffer's free space. On a compressed endpoint the bytes left
        in the workspace, or else what the socket has, are given to the stream until some
        text has come out; only then does the socket's state show. */
    method ReadEndpoint() returns (got: Got)
      requires Valid()
      modifies this`zi, this`nextIn, this`availIn, this`inbox, zin, this`took, this`heard
      modifies input`tail, input.data
      ensures Valid() && got == old(NextRead())
      ensures got.Got? ==> got.text != [] && input.Contents() == old(input.Contents()) + got.text
      ensures !got.Got? ==> input.Contents() == old(input.Contents())
      ensures heard == old(heard) + TextOf(got)
      ensures View() == old(View())
      ensures Supply() == old(Supply())
      ensures old(zi).None? ==> (got, inbox) == SockRead(old(inbox), old(input.Avail()))
      ensures zi.None? ==>
        (got == Eof <==>
         old(inbox) != [] && (old(inbox[0]).Closed? || (old(inbox[0]).Data? && old(input.Avail()) == 0)))
      ensures old(zi).Some? ==> zi.Some?
      ensures old(zi).Some? ==>
        ReadResult(Inflating(zi.value, Left()), inbox, got)
          == ReadLoop(inflater, Inflating(old(zi).value, old(Left())), old(inbox), old(input.Avail()))
      ensures old(zi).Some? && old(Left()) != [] ==>
        var c := inflater.call(old(zi).value, old(Left()), old(input.Avail()));
        && (c.Done? && c.made != [] ==>
              && got == Got(c.made) && inbox == old(inbox)
              && c.taken <= |old(Left())| && Left() == old(Left())[c.taken..]
              && zi == Some(After(old(zi).value, old(Left()), c.taken, c.made, c.inner)))
        && (c.Failed? ==> got == Error && inbox == old(inbox) && zi == old(zi) && Left() == old(Left()))
    {
      hide Carries, Hears, LawfulDeflater, LawfulInflater, Stored, ReadLoop;
      if zi.Some? {
        HearsValid(inflater, zi.value, Left(), starts, took, heard, took0, heard0);
      }
      got := ReadText(input.Avail());
      if got.Got? {
        input.Append(got.text);
      }
    }
  }
}
