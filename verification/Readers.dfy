/** What the rewriter makes of the text it reads, against all the matches there are in that
    text: for any handlers, however the text arrives, it deals with every one of them, up to
    the first that ends matching. */
module Readers {
  import opened Telnet
  import opened Matcher
  import opened Rewriter
  import opened Parses

  // ---- One buffer ----

  /** The matches in a journal, at their offsets from `off` on. */
  function MarksOf(j: seq<Entry>, off: nat): seq<Mark> {
    if j == [] then []
    else (if j[0].Text? then [] else [Mark(off, j[0].alt)]) + MarksOf(j[1..], off + |j[0].text|)
  }

  lemma {:induction false} MarksAppend(i: seq<Entry>, j: seq<Entry>, off: nat)
    ensures MarksOf(i + j, off) == MarksOf(i, off) + MarksOf(j, off + |Consumed(i)|)
  {
    if i == [] {
      assert i + j == j;
      assert [] + MarksOf(j, off) == MarksOf(j, off);
    } else {
      assert (i + j)[0] == i[0] && (i + j)[1..] == i[1..] + j;
      var next := off + |i[0].text|;
      MarksAppend(i[1..], j, next);
      var head := if i[0].Text? then [] else [Mark(off, i[0].alt)];
      assert head + (MarksOf(i[1..], next) + MarksOf(j, next + |Consumed(i[1..])|))
          == head + MarksOf(i[1..], next) + MarksOf(j, next + |Consumed(i[1..])|);
    }
  }

  lemma {:induction false} MarksMoved(j: seq<Entry>, off: nat, d: nat)
    ensures MarksOf(j, off + d) == Moved(MarksOf(j, off), d)
  {
    hide Moved;
    if j == [] {
      NothingMoved(d);
    } else {
      var more := MarksOf(j[1..], off + |j[0].text|);
      MarksMoved(j[1..], off + |j[0].text|, d);
      if j[0].Text? {
        assert [] + more == more && [] + Moved(more, d) == Moved(more, d);
      } else {
        MovedFirst(Mark(off, j[0].alt), more, d);
      }
    }
  }

  lemma MarksTwo(text: Bytes, e: Entry)
    requires !e.Text?
    ensures MarksOf([Text(text), e], 0) == [Mark(|text|, e.alt)]
  {
    assert [Text(text), e][1..] == [e];
    assert [e][1..] == [];
    assert MarksOf([e], |text|) == [Mark(|text|, e.alt)] + [];
    assert MarksOf([Text(text), e], 0) == [] + MarksOf([e], |text|);
  }

  lemma NoMarks(text: Bytes)
    ensures MarksOf([Text(text)], 0) == [] && MarksOf([], 0) == []
  {
    assert [Text(text)][1..] == [];
  }

  /** Matching ends with the alternatives that `kills` names, and only with those. */
  ghost predicate Killing<H(!new)>(r: Rules<H>, kills: nat -> bool) {
    forall h, k: nat {:trigger KillsAt(r, kills, h, k)} :: KillsAt(r, kills, h, k)
  }

  ghost predicate KillsAt<H>(r: Rules<H>, kills: nat -> bool, h: H, k: nat) {
    k < |r.patterns| && r.live(h) ==> (r.live(r.act(h, k, r.patterns[k]).state) <==> !kills(k))
  }

  lemma MatchLives<H(!new)>(r: Rules<H>, kills: nat -> bool, h: H, buf: Bytes, at: nat, k: nat, len: nat)
    requires Lawful(r) && Killing(r, kills) && r.live(h)
    requires at + len <= |buf| && k < |r.patterns| && buf[at..at + len] == r.patterns[k]
    ensures r.live(AfterMatch(r, h, buf, at, k, len)) <==> !kills(k)
  {
    var h1 := if at > 0 then r.ship(h, buf[..at]) else h;
    var m := buf[at..at + len];
    assert WritesQuietly(r, h, buf[..at]);
    assert KillsAt(r, kills, h1, k);
    assert WritesQuietly(r, r.act(h1, k, m).state, m);
  }

  /** What has been found in one buffer, and where the search has stopped in it. */
  ghost predicate ReadOnce(ps: seq<Bytes>, kills: nat -> bool, buf: Bytes, found: seq<Mark>, held: Bytes, live: bool) {
    && found == Heeded(kills, Parse(ps, buf, 0))
    && (live <==> !Deadly(kills, Parse(ps, buf, 0)))
    && (live ==> |held| <= |buf| && held == buf[|buf| - |held|..] && |buf| - |held| == Stop(ps, buf, 0))
  }

  lemma OnceIsRead(ps: seq<Bytes>, kills: nat -> bool, buf: Bytes, found: seq<Mark>, held: Bytes, live: bool)
    requires NonEmpty(ps) && ReadOnce(ps, kills, buf, found, held, live)
    ensures Read(ps, kills, buf, found, held, live)
  {
    StopResumes(ps, buf);
  }

  lemma ReadRest(ps: seq<Bytes>, kills: nat -> bool, buf: Bytes, at: nat, k: nat, len: nat,
                 found: seq<Mark>, held: Bytes, live: bool)
    requires NonEmpty(ps) && Scan(ps, buf, 0) == Match(at, k, len) && at + len <= |buf| && len > 0
    requires !kills(k) && ReadOnce(ps, kills, buf[at + len..], found, held, live)
    ensures ReadOnce(ps, kills, buf, [Mark(at, k)] + Moved(found, at + len), held, live)
  {
    hide Scan, Deadly, Moved;
    var rest := buf[at + len..];
    assert buf == buf[..at + len] + rest;
    ParseShift(ps, buf[..at + len], rest, 0);
    var marks := Parse(ps, rest, 0);
    assert Parse(ps, buf, 0) == [Mark(at, k)] + Moved(marks, at + len);
    HeededMoved(kills, marks, at + len);
    DeadlyFirst(kills, Parse(ps, buf, 0));
    assert Parse(ps, buf, 0)[1..] == Moved(marks, at + len);
    if live {
      assert rest[|rest| - |held|..] == buf[|buf| - |held|..];
    }
  }

  lemma ReadDead(ps: seq<Bytes>, kills: nat -> bool, buf: Bytes, at: nat, k: nat, len: nat, held: Bytes)
    requires NonEmpty(ps) && Scan(ps, buf, 0) == Match(at, k, len) && at + len <= |buf| && len > 0
    requires kills(k)
    ensures ReadOnce(ps, kills, buf, [Mark(at, k)], held, false)
  {
    hide Scan;
    DeadlyFirst(kills, Parse(ps, buf, 0));
  }

  lemma DeadDrain<H(!new)>(r: Rules<H>, h: H, buf: Bytes)
    requires Lawful(r) && !r.live(h)
    ensures Drain(r, h, buf) == (r.ship(h, buf), []) && Journal(r, h, buf) == [Text(buf)] && !r.live(r.ship(h, buf))
  {
    assert WritesQuietly(r, h, buf);
  }

  /** A reader deals with every match in its buffer, up to the first that ends matching. */
  lemma {:induction false} JournalReads<H(!new)>(r: Rules<H>, kills: nat -> bool, h: H, buf: Bytes)
    requires Lawful(r) && Killing(r, kills) && r.live(h)
    ensures var (q, held) := Drain(r, h, buf);
      ReadOnce(r.patterns, kills, buf, MarksOf(Journal(r, h, buf), 0), held, r.live(q))
    decreases |buf|
  {
    hide AfterMatch, MatchEntry, Scan, Lawful, Killing, MarksOf;
    LawfulNonEmpty(r);
    match Search(r, h, buf)
    case NoMatch =>
      NoMarks(buf);
      ShipLives(r, h, buf);
    case Partial(_) => NoMarks(buf);
    case Match(at, k, len) =>
      var rest := buf[at + len..];
      var h2 := AfterMatch(r, h, buf, at, k, len);
      var e := MatchEntry(r, h, buf, at, k, len);
      var here := [Text(buf[..at]), e];
      MatchLives(r, kills, h, buf, at, k, len);
      MatchEntryText(r, h, buf, at, k, len);
      MarksTwo(buf[..at], e);
      if kills(k) {
        ReadDead(r.patterns, kills, buf, at, k, len, Drain(r, h, buf).1);
        if |rest| > 0 {
          DeadDrain(r, h2, rest);
          MarksAppend(here, [Text(rest)], 0);
          NoMarksAt(rest, |Consumed(here)|);
        }
      } else {
        var more := if |rest| > 0 then Journal(r, h2, rest) else [];
        if |rest| > 0 {
          JournalReads(r, kills, h2, rest);
        } else {
          NoMarks([]);
          NothingOnce(r.patterns, kills);
        }
        ReadRest(r.patterns, kills, buf, at, k, len, MarksOf(more, 0), Drain(r, h, buf).1, r.live(Drain(r, h, buf).0));
        ConsumedTwo(Text(buf[..at]), e);
        MarksAppend(here, more, 0);
        MarksMoved(more, 0, at + len);
        assert here + [] == here;
      }
  }

  lemma NothingOnce(ps: seq<Bytes>, kills: nat -> bool)
    ensures ReadOnce(ps, kills, [], [], [], true)
  {
  }

  lemma NoMarksAt(text: Bytes, off: nat)
    ensures MarksOf([Text(text)], off) == []
  {
    assert [Text(text)][1..] == [];
  }

  lemma LawfulNonEmpty<H(!new)>(r: Rules<H>)
    requires Lawful(r)
    ensures NonEmpty(r.patterns)
  {
  }

  lemma ShipLives<H(!new)>(r: Rules<H>, h: H, buf: Bytes)
    requires Lawful(r)
    ensures r.live(r.ship(h, buf)) == r.live(h)
  {
    assert WritesQuietly(r, h, buf);
  }

  // ---- Buffer after buffer ----

  /** The log of a side, and what it holds, against its stream. */
  ghost predicate Heard(ps: seq<Bytes>, kills: nat -> bool, stream: Bytes, log: seq<Entry>, held: Bytes, live: bool) {
    stream == Consumed(log) + held && Read(ps, kills, stream, MarksOf(log, 0), held, live)
  }

  lemma HeardMore<H(!new)>(r: Rules<H>, kills: nat -> bool, h: H, s: Bytes, log: seq<Entry>, held: Bytes, text: Bytes)
    requires Lawful(r) && Killing(r, kills)
    requires Heard(r.patterns, kills, s, log, held, r.live(h))
    requires !r.live(h) ==> held == []
    ensures var buf := held + text;
      var (q, held') := Drain(r, h, buf);
      && Heard(r.patterns, kills, s + text, log + Journal(r, h, buf), held', r.live(q))
      && (!r.live(q) ==> held' == [] || r.live(h))
  {
    hide Killing, Lawful, Read, Drain, Journal, Consumed;
    LawfulNonEmpty(r);
    var buf := held + text;
    var (q, held') := Drain(r, h, buf);
    var j := Journal(r, h, buf);
    Conservation(r, h, buf);
    PassedAppend(log, j);
    assert s + text == Consumed(log) + buf;
    assert Consumed(log) + (Consumed(j) + held') == Consumed(log) + Consumed(j) + held';
    MarksAppend(log, j, 0);
    MarksMoved(j, 0, |Consumed(log)|);
    if r.live(h) {
      JournalReads(r, kills, h, buf);
      OnceIsRead(r.patterns, kills, buf, MarksOf(j, 0), held', r.live(q));
      ReadMore(r.patterns, kills, s, MarksOf(log, 0), held, text, MarksOf(j, 0), held', r.live(q));
    } else {
      DeadDrain(r, h, buf);
      NoMarksAt(buf, |Consumed(log)|);
      assert MarksOf(log, 0) + [] == MarksOf(log, 0);
      ReadOff(r.patterns, kills, s, MarksOf(log, 0), held, text, held');
    }
  }

  lemma {:induction false} DeadHoldsNothing<H(!new)>(r: Rules<H>, h: H, buf: Bytes)
    requires Lawful(r) && !r.live(Drain(r, h, buf).0)
    ensures r.live(h) ==> Drain(r, h, buf).1 == []
    decreases |buf|
  {
    hide AfterMatch, Scan, Lawful;
    LawfulNonEmpty(r);
    match Search(r, h, buf)
    case NoMatch =>
    case Partial(_) =>
    case Match(at, k, len) =>
      var h2 := AfterMatch(r, h, buf, at, k, len);
      if |buf[at + len..]| > 0 {
        if r.live(h2) {
          DeadHoldsNothing(r, h2, buf[at + len..]);
        } else {
          DeadDrain(r, h2, buf[at + len..]);
        }
      }
  }
}
