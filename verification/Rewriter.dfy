/** The streaming rewriter: text arrives in pieces, is held in a buffer, and is
    shipped or handed to pattern handlers. The handlers are a parameter. */
module Rewriter {
  import opened Telnet
  import opened Matcher

  /** What a handler leaves behind, and whether it has consumed the match itself. */
  datatype Reply<H> = Reply(state: H, handled: bool)

  /** One direction of the proxy over states `H`: its patterns, whether matching
      is enabled, how bytes are written to the other side, and what happens when
      alternative number `k` has matched. */
  datatype Rules<!H> = Rules(
    patterns: seq<Bytes>,
    live: H -> bool,
    ship: (H, Bytes) -> H,
    act: (H, nat, Bytes) -> Reply<H>)

  ghost predicate WritesNothing<H>(r: Rules<H>, h: H) {
    r.ship(h, []) == h
  }

  ghost predicate WritesJoin<H>(r: Rules<H>, h: H, a: Bytes, b: Bytes) {
    r.ship(r.ship(h, a), b) == r.ship(h, a + b)
  }

  ghost predicate WritesQuietly<H>(r: Rules<H>, h: H, a: Bytes) {
    r.live(r.ship(h, a)) == r.live(h)
  }

  /** Patterns are not empty, and writing is a stream: the way the text is
      divided into writes is invisible and writing never toggles matching. */
  ghost predicate Lawful<H(!new)>(r: Rules<H>) {
    && NonEmpty(r.patterns)
    && (forall h :: WritesNothing(r, h))
    && (forall h, a, b :: WritesJoin(r, h, a, b))
    && (forall h, a :: WritesQuietly(r, h, a))
  }

  /** State after the match `m` of alternative `k`: a handler that has not
      consumed the match leaves it to be forwarded. */
  function React<H>(r: Rules<H>, h: H, k: nat, m: Bytes): H {
    var reply := r.act(h, k, m);
    if reply.handled then reply.state else r.ship(reply.state, m)
  }

  /** State once the bytes before the match are shipped and the match is dealt with. */
  function AfterMatch<H>(r: Rules<H>, h: H, buf: Bytes, at: nat, k: nat, len: nat): H
    requires at + len <= |buf|
  {
    var h1 := if at > 0 then r.ship(h, buf[..at]) else h;
    React(r, h1, k, buf[at..at + len])
  }

  function Search<H>(r: Rules<H>, h: H, buf: Bytes): (v: Verdict)
    requires NonEmpty(r.patterns)
    ensures v.Match? ==>
      v.at + v.len <= |buf| && v.len > 0 && v.alt < |r.patterns| && buf[v.at..v.at + v.len] == r.patterns[v.alt]
    ensures v.Partial? ==> v.at < |buf|
  {
    ScanMeaning(r.patterns, buf, 0);
    if r.live(h) then Scan(r.patterns, buf, 0) else NoMatch
  }

  /** The processing of one read: all of the buffer is shipped or consumed,
      except that a possible match still to be completed holds it all back. */
  function Drain<H>(r: Rules<H>, h: H, buf: Bytes): (H, Bytes)
    requires NonEmpty(r.patterns)
    decreases |buf|
  {
    match Search(r, h, buf)
    case NoMatch => (r.ship(h, buf), [])
    case Partial(at) => (h, buf)
    case Match(at, k, len) =>
      var h2 := AfterMatch(r, h, buf, at, k, len);
      var rest := buf[at + len..];
      if |rest| > 0 then Drain(r, h2, rest) else (h2, [])
  }

  /** A sequence of reads, each appended to what the buffer still holds. */
  function Feed<H>(r: Rules<H>, h: H, buf: Bytes, chunks: seq<Bytes>): (H, Bytes)
    requires NonEmpty(r.patterns)
    decreases |chunks|
  {
    if chunks == [] then (h, buf)
    else
      var (h1, b1) := Drain(r, h, buf + chunks[0]);
      Feed(r, h1, b1, chunks[1..])
  }

  /** The held buffer seen as shipped text followed by the pending partial match. */
  function Settle<H>(r: Rules<H>, hb: (H, Bytes)): (H, Bytes)
    requires NonEmpty(r.patterns)
  {
    match Search(r, hb.0, hb.1)
    case Partial(at) => (r.ship(hb.0, hb.1[..at]), hb.1[at..])
    case _ => hb
  }

  /** The rewriter on a whole stream at once. */
  function OneShot<H>(r: Rules<H>, h: H, text: Bytes): (H, Bytes)
    requires NonEmpty(r.patterns)
  {
    Settle(r, Drain(r, h, text))
  }

  // ---- The way a stream is cut does not matter ----

  lemma DrainNothing<H(!new)>(r: Rules<H>, h: H)
    requires Lawful(r)
    ensures Drain(r, h, []) == (h, [])
  {
    assert WritesNothing(r, h);
  }

  /** A match behind `a` is dealt with in the same way once `a` is shipped. */
  lemma AfterMatchShift<H(!new)>(r: Rules<H>, h: H, a: Bytes, b: Bytes, at: nat, k: nat, len: nat)
    requires Lawful(r) && at + len <= |b|
    ensures AfterMatch(r, h, a + b, |a| + at, k, len) == AfterMatch(r, r.ship(h, a), b, at, k, len)
    ensures (a + b)[|a| + at + len..] == b[at + len..]
  {
    assert (a + b)[..|a| + at] == a + b[..at];
    assert (a + b)[|a| + at..|a| + at + len] == b[at..at + len];
    if at == 0 {
      assert a + b[..at] == a;
      assert WritesNothing(r, h);
    } else {
      assert WritesJoin(r, h, a, b[..at]);
    }
  }

  lemma OneShotNothing<H(!new)>(r: Rules<H>, h: H)
    requires Lawful(r)
    ensures OneShot(r, h, []) == (h, [])
  {
    DrainNothing(r, h);
  }

  lemma OneShotIs<H(!new)>(r: Rules<H>, h: H, buf: Bytes)
    requires NonEmpty(r.patterns)
    ensures OneShot(r, h, buf) == Settle(r, Drain(r, h, buf))
  {
  }

  lemma OneShotNoMatch<H(!new)>(r: Rules<H>, h: H, buf: Bytes)
    requires NonEmpty(r.patterns) && Search(r, h, buf) == NoMatch
    ensures OneShot(r, h, buf) == (r.ship(h, buf), [])
  {
  }

  lemma OneShotPartial<H(!new)>(r: Rules<H>, h: H, buf: Bytes)
    requires NonEmpty(r.patterns) && Search(r, h, buf).Partial?
    ensures var at := Search(r, h, buf).at; OneShot(r, h, buf) == (r.ship(h, buf[..at]), buf[at..])
  {
  }

  lemma OneShotMatch<H(!new)>(r: Rules<H>, h: H, buf: Bytes)
    requires Lawful(r) && Search(r, h, buf).Match?
    ensures var Match(at, k, len) := Search(r, h, buf);
      OneShot(r, h, buf) == OneShot(r, AfterMatch(r, h, buf, at, k, len), buf[at + len..])
  {
    var Match(at, k, len) := Search(r, h, buf);
    DrainNothing(r, AfterMatch(r, h, buf, at, k, len));
  }

  /** If all of `a` is free of matches however it continues, it can be shipped first. */
  lemma ShipFirst<H(!new)>(r: Rules<H>, h: H, a: Bytes, b: Bytes)
    requires Lawful(r)
    requires r.live(h) ==> Scan(r.patterns, a + b, 0) == Scan(r.patterns, a + b, |a|)
    ensures OneShot(r, h, a + b) == OneShot(r, r.ship(h, a), b)
  {
    hide OneShot, AfterMatch, Scan, Drain;
    var h1 := r.ship(h, a);
    ScanShift(r.patterns, a, b, 0);
    assert WritesQuietly(r, h, a);
    var v := Search(r, h1, b);
    assert Search(r, h, a + b) == Shift(v, |a|);
    match v
    case NoMatch =>
      OneShotNoMatch(r, h, a + b);
      OneShotNoMatch(r, h1, b);
      assert WritesJoin(r, h, a, b);
    case Partial(at) =>
      OneShotPartial(r, h, a + b);
      OneShotPartial(r, h1, b);
      assert (a + b)[..|a| + at] == a + b[..at];
      assert (a + b)[|a| + at..] == b[at..];
      assert WritesJoin(r, h, a, b[..at]);
    case Match(at, k, len) =>
      OneShotMatch(r, h, a + b);
      OneShotMatch(r, h1, b);
      AfterMatchShift(r, h, a, b, at, k, len);
  }

  /** Processing `a + b` in one go is processing `a`, and then `b` behind what was held. */
  lemma {:induction false} DrainSplit<H(!new)>(r: Rules<H>, h: H, a: Bytes, b: Bytes)
    requires Lawful(r)
    ensures var (h1, held) := Drain(r, h, a);
      OneShot(r, h, a + b) == OneShot(r, h1, held + b)
    decreases |a|
  {
    ScanExtend(r.patterns, a, b, 0);
    match Search(r, h, a)
    case NoMatch =>
      ShipFirst(r, h, a, b);
      assert [] + b == b;
    case Partial(at) =>
    case Match(at, k, len) =>
      var h2 := AfterMatch(r, h, a, at, k, len);
      var rest := a[at + len..];
      assert (a + b)[..at] == a[..at];
      assert (a + b)[at..at + len] == a[at..at + len];
      assert (a + b)[at + len..] == rest + b;
      assert AfterMatch(r, h, a + b, at, k, len) == h2;
      DrainNothing(r, h2);
      assert Drain(r, h, a + b) == Drain(r, h2, rest + b);
      DrainSplit(r, h2, rest, b);
  }

  /** What is held back stays held back until more text arrives. */
  lemma {:induction false} DrainStable<H(!new)>(r: Rules<H>, h: H, buf: Bytes)
    requires Lawful(r)
    ensures var (h1, held) := Drain(r, h, buf); Drain(r, h1, held) == (h1, held)
    decreases |buf|
  {
    match Search(r, h, buf)
    case NoMatch => DrainNothing(r, r.ship(h, buf));
    case Partial(at) =>
    case Match(at, k, len) =>
      var h2 := AfterMatch(r, h, buf, at, k, len);
      if |buf[at + len..]| > 0 {
        DrainStable(r, h2, buf[at + len..]);
      } else {
        DrainNothing(r, h2);
      }
  }

  lemma {:induction false} FeedIsOneShot<H(!new)>(r: Rules<H>, h: H, buf: Bytes, chunks: seq<Bytes>)
    requires Lawful(r) && Drain(r, h, buf) == (h, buf)
    ensures Settle(r, Feed(r, h, buf, chunks)) == OneShot(r, h, buf + Concat(chunks))
    decreases |chunks|
  {
    hide OneShot, Drain, Settle;
    if chunks == [] {
      OneShotIs(r, h, buf);
      assert buf + Concat(chunks) == buf;
    } else {
      var (h1, b1) := Drain(r, h, buf + chunks[0]);
      DrainStable(r, h, buf + chunks[0]);
      FeedIsOneShot(r, h1, b1, chunks[1..]);
      DrainSplit(r, h, buf + chunks[0], Concat(chunks[1..]));
      assert buf + Concat(chunks) == buf + chunks[0] + Concat(chunks[1..]);
    }
  }

  /** However a stream is cut into reads, the state, everything shipped and the
      pending partial match are those of the one-shot rewriter on the whole stream. */
  lemma ChunkingIndependence<H(!new)>(r: Rules<H>, h: H, chunks: seq<Bytes>, cuts: seq<Bytes>)
    requires Lawful(r) && Concat(chunks) == Concat(cuts)
    ensures Settle(r, Feed(r, h, [], chunks)) == OneShot(r, h, Concat(chunks))
    ensures Settle(r, Feed(r, h, [], chunks)) == Settle(r, Feed(r, h, [], cuts))
  {
    DrainNothing(r, h);
    FeedIsOneShot(r, h, [], chunks);
    FeedIsOneShot(r, h, [], cuts);
    assert [] + Concat(chunks) == Concat(chunks);
    assert [] + Concat(cuts) == Concat(cuts);
  }

  // ---- What became of the text ----

  /** A piece of the text: shipped between matches, a match forwarded, or a match
      that its handler consumed. */
  datatype Entry = Text(text: Bytes) | Kept(alt: nat, text: Bytes) | Eaten(alt: nat, text: Bytes)

  function MatchEntry<H>(r: Rules<H>, h: H, buf: Bytes, at: nat, k: nat, len: nat): Entry
    requires at + len <= |buf|
  {
    var h1 := if at > 0 then r.ship(h, buf[..at]) else h;
    var m := buf[at..at + len];
    if r.act(h1, k, m).handled then Eaten(k, m) else Kept(k, m)
  }

  /** The pieces one read is taken apart into, in order. */
  function Journal<H>(r: Rules<H>, h: H, buf: Bytes): seq<Entry>
    requires NonEmpty(r.patterns)
    decreases |buf|
  {
    match Search(r, h, buf)
    case NoMatch => [Text(buf)]
    case Partial(_) => []
    case Match(at, k, len) =>
      var rest := buf[at + len..];
      var here := [Text(buf[..at]), MatchEntry(r, h, buf, at, k, len)];
      if |rest| > 0 then here + Journal(r, AfterMatch(r, h, buf, at, k, len), rest) else here
  }

  /** The text taken out of the buffer. */
  function Consumed(j: seq<Entry>): Bytes {
    if j == [] then [] else j[0].text + Consumed(j[1..])
  }

  /** The text forwarded to the other side. */
  function Passed(j: seq<Entry>): Bytes {
    if j == [] then [] else (if j[0].Eaten? then [] else j[0].text) + Passed(j[1..])
  }

  lemma {:induction false} PassedAppend(i: seq<Entry>, j: seq<Entry>)
    ensures Passed(i + j) == Passed(i) + Passed(j)
    ensures Consumed(i + j) == Consumed(i) + Consumed(j)
  {
    if i == [] {
      assert i + j == j;
    } else {
      assert (i + j)[1..] == i[1..] + j;
      PassedAppend(i[1..], j);
    }
  }

  lemma ConsumedTwo(a: Entry, b: Entry)
    ensures Consumed([a, b]) == a.text + b.text
  {
    assert [a, b][1..] == [b];
    assert [b][1..] == [];
    assert Consumed([b]) == b.text + [];
    assert b.text + [] == b.text;
  }

  lemma MatchEntryText<H>(r: Rules<H>, h: H, buf: Bytes, at: nat, k: nat, len: nat)
    requires at + len <= |buf|
    ensures var e := MatchEntry(r, h, buf, at, k, len);
      !e.Text? && e.alt == k && e.text == buf[at..at + len]
  {
  }

  /** No byte is lost or invented: the pieces and what is held make up the buffer. */
  lemma {:induction false} Conservation<H(!new)>(r: Rules<H>, h: H, buf: Bytes)
    requires NonEmpty(r.patterns)
    ensures Consumed(Journal(r, h, buf)) + Drain(r, h, buf).1 == buf
    decreases |buf|
  {
    hide MatchEntry, AfterMatch, Consumed, Scan;
    match Search(r, h, buf)
    case NoMatch => ConsumedOne(Text(buf));
    case Partial(_) => ConsumedNone();
    case Match(at, k, len) =>
      hide Search;
      var rest := buf[at + len..];
      var entry := MatchEntry(r, h, buf, at, k, len);
      MatchEntryText(r, h, buf, at, k, len);
      ConsumedTwo(Text(buf[..at]), entry);
      if |rest| > 0 {
        var h2 := AfterMatch(r, h, buf, at, k, len);
        Conservation(r, h2, rest);
        PassedAppend([Text(buf[..at]), entry], Journal(r, h2, rest));
        Regroup(buf, at, len, Consumed(Journal(r, h2, rest)), Drain(r, h2, rest).1);
      } else {
        Regroup(buf, at, len, [], []);
      }
  }

  lemma Regroup(buf: Bytes, at: nat, len: nat, consumed: Bytes, held: Bytes)
    requires at + len <= |buf| && consumed + held == buf[at + len..]
    ensures buf[..at] + buf[at..at + len] + consumed + held == buf
    ensures consumed == [] ==> buf[..at] + buf[at..at + len] + consumed == buf[..at] + buf[at..at + len]
  {
    var front := buf[..at] + buf[at..at + len];
    assert front + consumed + held == front + (consumed + held);
    assert front == buf[..at + len];
  }

  lemma ConsumedNone()
    ensures Consumed([]) == []
  {
  }

  lemma ConsumedOne(e: Entry)
    ensures Consumed([e]) == e.text
  {
    assert [e][1..] == [];
    assert e.text + [] == e.text;
  }

  /** Each recorded match is the text of its alternative. */
  ghost predicate Faithful(ps: seq<Bytes>, j: seq<Entry>) {
    forall i :: 0 <= i < |j| && !j[i].Text? ==> j[i].alt < |ps| && j[i].text == ps[j[i].alt]
  }

  lemma {:induction false} JournalFaithful<H(!new)>(r: Rules<H>, h: H, buf: Bytes)
    requires NonEmpty(r.patterns)
    ensures Faithful(r.patterns, Journal(r, h, buf))
    decreases |buf|
  {
    hide MatchEntry, AfterMatch;
    match Search(r, h, buf)
    case NoMatch =>
    case Partial(_) =>
    case Match(at, k, len) =>
      MatchEntryText(r, h, buf, at, k, len);
      if |buf[at + len..]| > 0 {
        JournalFaithful(r, AfterMatch(r, h, buf, at, k, len), buf[at + len..]);
      }
  }

  // ---- Properties carried through a read ----

  ghost predicate KeptByShip<H>(r: Rules<H>, inv: H -> bool, h: H, a: Bytes) {
    inv(h) ==> inv(r.ship(h, a))
  }

  ghost predicate KeptByAct<H>(r: Rules<H>, inv: H -> bool, h: H, k: nat)
    requires k < |r.patterns|
  {
    inv(h) ==> inv(r.act(h, k, r.patterns[k]).state)
  }

  /** `inv` is kept by every write and by every handler on its own match. */
  ghost predicate Invariant<H(!new)>(r: Rules<H>, inv: H -> bool) {
    && (forall h, a :: KeptByShip(r, inv, h, a))
    && (forall h, k: nat {:trigger KeptByAct(r, inv, h, k)} :: k < |r.patterns| ==> KeptByAct(r, inv, h, k))
  }

  lemma {:induction false} DrainKeeps<H(!new)>(r: Rules<H>, inv: H -> bool, h: H, buf: Bytes)
    requires NonEmpty(r.patterns) && Invariant(r, inv) && inv(h)
    ensures inv(Drain(r, h, buf).0)
    decreases |buf|
  {
    match Search(r, h, buf)
    case NoMatch =>
      assert KeptByShip(r, inv, h, buf);
    case Partial(_) =>
    case Match(at, k, len) =>
      MatchKeeps(r, inv, h, buf, at, k, len);
      if |buf[at + len..]| > 0 {
        DrainKeeps(r, inv, AfterMatch(r, h, buf, at, k, len), buf[at + len..]);
      }
  }

  lemma MatchKeeps<H(!new)>(r: Rules<H>, inv: H -> bool, h: H, buf: Bytes, at: nat, k: nat, len: nat)
    requires Invariant(r, inv) && inv(h)
    requires at + len <= |buf| && k < |r.patterns| && buf[at..at + len] == r.patterns[k]
    ensures inv(AfterMatch(r, h, buf, at, k, len))
  {
    var h1 := if at > 0 then r.ship(h, buf[..at]) else h;
    var m := buf[at..at + len];
    assert KeptByShip(r, inv, h, buf[..at]);
    assert KeptByAct(r, inv, h1, k);
    assert KeptByShip(r, inv, r.act(h1, k, m).state, m);
  }
}
