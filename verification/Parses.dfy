/** All the matches in a text, found one behind the other as the search goes on after
    each of them; and how they are found however the text arrives. */
module Parses {
  import opened Telnet
  import opened Matcher

  /** Alternative `alt` has matched at offset `at`. */
  datatype Mark = Mark(at: nat, alt: nat)

  /** The matches from position `i` on. */
  function Parse(ps: seq<Bytes>, s: Bytes, i: nat): seq<Mark>
    requires i <= |s|
    decreases |s| - i
  {
    match Scan(ps, s, i)
    case NoMatch => []
    case Partial(_) => []
    case Match(at, k, len) => if i < at + len <= |s| then [Mark(at, k)] + Parse(ps, s, at + len) else []
  }

  /** Where the text from position `i` on stops being settled: behind the last match if a
      match may begin after it that the text has not completed, and at the end if not. */
  function Stop(ps: seq<Bytes>, s: Bytes, i: nat): (n: nat)
    requires i <= |s|
    ensures i <= n <= |s|
    decreases |s| - i
  {
    match Scan(ps, s, i)
    case NoMatch => |s|
    case Partial(_) => i
    case Match(at, k, len) => if i < at + len <= |s| then Stop(ps, s, at + len) else i
  }

  /** The matches found, moved by `d`. */
  function Moved(marks: seq<Mark>, d: nat): (r: seq<Mark>)
    ensures |r| == |marks|
  {
    seq(|marks|, i requires 0 <= i < |marks| => Mark(marks[i].at + d, marks[i].alt))
  }

  lemma MatchEnds(ps: seq<Bytes>, s: Bytes, i: nat)
    requires NonEmpty(ps) && i <= |s| && Scan(ps, s, i).Match?
    ensures var Match(at, k, len) := Scan(ps, s, i);
      i <= at && i < at + len <= |s| && k < |ps| && len == |ps[k]| && Fits(ps[k], s, at) && RuledOut(ps, s, at, k)
  {
    ScanMeaning(ps, s, i);
  }

  /** More text keeps the matches, and the search goes on where it stopped. */
  lemma {:induction false} ParseExtend(ps: seq<Bytes>, s: Bytes, t: Bytes, i: nat)
    requires NonEmpty(ps) && i <= |s|
    ensures Parse(ps, s + t, i) == Parse(ps, s, i) + Parse(ps, s + t, Stop(ps, s, i))
    decreases |s| - i
  {
    hide Scan;
    ScanExtend(ps, s, t, i);
    match Scan(ps, s, i)
    case NoMatch =>
      SameScan(ps, s + t, i, |s|);
      assert [] + Parse(ps, s + t, |s|) == Parse(ps, s + t, |s|);
    case Partial(_) =>
      assert [] + Parse(ps, s + t, i) == Parse(ps, s + t, i);
    case Match(at, k, len) =>
      MatchEnds(ps, s, i);
      ParseExtend(ps, s, t, at + len);
      var later := Parse(ps, s + t, Stop(ps, s, i));
      assert [Mark(at, k)] + (Parse(ps, s, at + len) + later) == [Mark(at, k)] + Parse(ps, s, at + len) + later;
  }

  lemma SameScan(ps: seq<Bytes>, s: Bytes, i: nat, n: nat)
    requires NonEmpty(ps) && i <= n <= |s| && Scan(ps, s, i) == Scan(ps, s, n)
    ensures Parse(ps, s, i) == Parse(ps, s, n)
  {
    hide Scan;
    if Scan(ps, s, n).Match? {
      MatchEnds(ps, s, n);
      MatchEnds(ps, s, i);
    }
  }

  /** The matches behind a prefix are those of the rest, moved. */
  lemma {:induction false} ParseShift(ps: seq<Bytes>, a: Bytes, s: Bytes, i: nat)
    requires NonEmpty(ps) && i <= |s|
    ensures Parse(ps, a + s, |a| + i) == Moved(Parse(ps, s, i), |a|)
    ensures Stop(ps, a + s, |a| + i) == |a| + Stop(ps, s, i)
    decreases |s| - i
  {
    hide Scan;
    ScanShift(ps, a, s, i);
    if Scan(ps, s, i).Match? {
      var Match(at, k, len) := Scan(ps, s, i);
      MatchEnds(ps, s, i);
      ParseShift(ps, a, s, at + len);
    }
  }

  // ---- Which occurrences are matches ----

  /** Patterns that begin with IAC, and in which any other IAC is part of IAC SE, which no
      pattern begins with. */
  ghost predicate Bracketed(ps: seq<Bytes>) {
    forall k :: 0 <= k < |ps| ==> BracketedOne(ps[k])
  }

  ghost predicate BracketedOne(p: Bytes) {
    && |p| >= 2 && p[0] == IAC && p[1] != SE
    && forall d :: 0 < d < |p| && p[d] == IAC ==> d + 1 < |p| && p[d + 1] == SE
  }

  /** Alternative `k` stands at `n`: it is there in full, and none before it is there or
      could still come to be. */
  ghost predicate Stands(ps: seq<Bytes>, s: Bytes, n: nat, k: nat) {
    k < |ps| && Fits(ps[k], s, n) && RuledOut(ps, s, n, k)
  }

  /** Nothing stands inside an occurrence of a pattern, or of the beginning of one. */
  lemma NothingInside(p: Bytes, q: Bytes, s: Bytes, at: nat, n: nat)
    requires BracketedOne(p) && BracketedOne(q) && at < n
    requires (Fits(p, s, at) && n < at + |p|) || RunsOff(p, s, at)
    ensures !Fits(q, s, n)
  {
    if n < |s| {
      var d := n - at;
      assert p[d] == s[at + d];
      if p[d] != IAC {
        assert s[n + 0] != q[0];
      } else if n + 1 < |s| {
        assert p[d + 1] == s[at + (d + 1)];
        assert s[n + 1] != q[1];
      }
    }
  }

  /** The matches are exactly the alternatives that stand in the text: no occurrence is
      passed over, wherever it is and whatever precedes it. */
  lemma {:induction false} MarkIffStands(ps: seq<Bytes>, s: Bytes, i: nat, n: nat, k: nat)
    requires Bracketed(ps) && i <= |s|
    ensures Mark(n, k) in Parse(ps, s, i) <==> i <= n && Stands(ps, s, n, k)
    decreases |s| - i
  {
    hide Scan, Fits, RunsOff;
    assert NonEmpty(ps) by { BracketedNonEmpty(ps); }
    ScanMeaning(ps, s, i);
    match Scan(ps, s, i)
    case NoMatch =>
      if i <= n && k < |ps| {
        NoneStands(ps, s, n, k);
      }
    case Partial(at) =>
      if i <= n && k < |ps| {
        PartialStands(ps, s, at, n, k);
      }
    case Match(at, m, len) =>
      MatchEnds(ps, s, i);
      MarkIffStands(ps, s, at + len, n, k);
      if i <= n && k < |ps| {
        MatchStands(ps, s, at, m, n, k);
      }
  }

  lemma BracketedNonEmpty(ps: seq<Bytes>)
    requires Bracketed(ps)
    ensures NonEmpty(ps)
  {
    forall k | 0 <= k < |ps| ensures ps[k] != [] {
      assert BracketedOne(ps[k]);
    }
  }

  lemma NoneStands(ps: seq<Bytes>, s: Bytes, n: nat, k: nat)
    requires Bracketed(ps) && k < |ps|
    requires n < |s| ==> RuledOut(ps, s, n, |ps|)
    ensures !Stands(ps, s, n, k)
  {
    assert BracketedOne(ps[k]);
  }

  lemma PartialStands(ps: seq<Bytes>, s: Bytes, at: nat, n: nat, k: nat)
    requires Bracketed(ps) && k < |ps| && at < |s|
    requires n < at ==> RuledOut(ps, s, n, |ps|)
    requires exists j :: 0 <= j < |ps| && RunsOff(ps[j], s, at) && RuledOut(ps, s, at, j)
    ensures !Stands(ps, s, n, k)
  {
    hide Fits, RunsOff;
    var j :| 0 <= j < |ps| && RunsOff(ps[j], s, at) && RuledOut(ps, s, at, j);
    assert BracketedOne(ps[j]) && BracketedOne(ps[k]);
    if n > at {
      NothingInside(ps[j], ps[k], s, at, n);
    } else if n == at {
      NotBoth(ps[j], s, at);
    }
  }

  lemma NotBoth(p: Bytes, s: Bytes, n: nat)
    ensures !(Fits(p, s, n) && RunsOff(p, s, n))
  {
  }

  lemma MatchStands(ps: seq<Bytes>, s: Bytes, at: nat, m: nat, n: nat, k: nat)
    requires Bracketed(ps) && k < |ps| && Stands(ps, s, at, m)
    requires n < at ==> RuledOut(ps, s, n, |ps|)
    ensures n < at + |ps[m]| ==> (Stands(ps, s, n, k) <==> n == at && k == m)
  {
    hide Fits, RunsOff;
    assert BracketedOne(ps[m]) && BracketedOne(ps[k]);
    if at < n < at + |ps[m]| {
      NothingInside(ps[m], ps[k], s, at, n);
    }
  }

  // ---- Matches that are heeded ----

  /** The matches up to the first that ends the search for good. */
  function Heeded(kills: nat -> bool, marks: seq<Mark>): seq<Mark> {
    if marks == [] then []
    else if kills(marks[0].alt) then [marks[0]]
    else [marks[0]] + Heeded(kills, marks[1..])
  }

  predicate Deadly(kills: nat -> bool, marks: seq<Mark>) {
    exists i :: 0 <= i < |marks| && kills(marks[i].alt)
  }

  lemma {:induction false} HeededAppend(kills: nat -> bool, a: seq<Mark>, b: seq<Mark>)
    ensures Heeded(kills, a + b) == if Deadly(kills, a) then Heeded(kills, a) else a + Heeded(kills, b)
    ensures Deadly(kills, a + b) <==> Deadly(kills, a) || Deadly(kills, b)
  {
    if a == [] {
      assert a + b == b;
      assert [] + Heeded(kills, b) == Heeded(kills, b);
    } else {
      assert (a + b)[0] == a[0] && (a + b)[1..] == a[1..] + b;
      HeededAppend(kills, a[1..], b);
      DeadlyFirst(kills, a);
      DeadlyFirst(kills, a + b);
      assert [a[0]] + (a[1..] + Heeded(kills, b)) == a + Heeded(kills, b);
    }
  }

  lemma DeadlyFirst(kills: nat -> bool, marks: seq<Mark>)
    requires marks != []
    ensures Deadly(kills, marks) <==> kills(marks[0].alt) || Deadly(kills, marks[1..])
  {
    if i :| 0 <= i < |marks| && kills(marks[i].alt) {
      assert i > 0 ==> marks[1..][i - 1] == marks[i];
    }
    if i :| 0 <= i < |marks[1..]| && kills(marks[1..][i].alt) {
      assert marks[i + 1] == marks[1..][i];
    }
  }

  lemma {:induction false} HeededMoved(kills: nat -> bool, marks: seq<Mark>, d: nat)
    ensures Heeded(kills, Moved(marks, d)) == Moved(Heeded(kills, marks), d)
    ensures Deadly(kills, Moved(marks, d)) <==> Deadly(kills, marks)
  {
    hide Moved, Deadly;
    NothingMoved(d);
    if marks == [] {
      NothingDeadly(kills);
    } else {
      var m, more := marks[0], marks[1..];
      var m' := Mark(m.at + d, m.alt);
      MovedFirst(m, more, d);
      assert [m] + more == marks;
      assert ([m'] + Moved(more, d))[1..] == Moved(more, d);
      HeededMoved(kills, more, d);
      DeadlyFirst(kills, marks);
      DeadlyFirst(kills, [m'] + Moved(more, d));
      MovedFirst(m, [], d);
      assert [m] + [] == [m] && [m'] + [] == [m'];
      MovedFirst(m, Heeded(kills, more), d);
    }
  }

  lemma NothingMoved(d: nat)
    ensures Moved([], d) == []
  {
  }

  lemma NothingDeadly(kills: nat -> bool)
    ensures !Deadly(kills, [])
  {
  }

  lemma MovedFirst(m: Mark, more: seq<Mark>, d: nat)
    ensures Moved([m] + more, d) == [Mark(m.at + d, m.alt)] + Moved(more, d)
  {
  }

  /** Where nothing ends the search, every match is heeded. */
  lemma {:induction false} HeededAll(kills: nat -> bool, marks: seq<Mark>)
    ensures !Deadly(kills, marks) ==> Heeded(kills, marks) == marks
  {
    if marks != [] {
      DeadlyFirst(kills, marks);
      HeededAll(kills, marks[1..]);
    }
  }

  // ---- The order of matches ----

  /** Matches do not overlap, and are in order. */
  lemma {:induction false} ParseSorted(ps: seq<Bytes>, s: Bytes, i: nat)
    requires NonEmpty(ps) && i <= |s|
    ensures forall a :: 0 <= a < |Parse(ps, s, i)| ==> i <= Parse(ps, s, i)[a].at && Parse(ps, s, i)[a].alt < |ps|
    ensures forall a, b :: 0 <= a < b < |Parse(ps, s, i)| ==>
      Parse(ps, s, i)[a].at + |ps[Parse(ps, s, i)[a].alt]| <= Parse(ps, s, i)[b].at
    decreases |s| - i
  {
    hide Scan;
    if Scan(ps, s, i).Match? {
      var Match(at, k, len) := Scan(ps, s, i);
      MatchEnds(ps, s, i);
      ParseSorted(ps, s, at + len);
    }
  }

  ghost predicate Increasing(marks: seq<Mark>) {
    forall a, b :: 0 <= a < b < |marks| ==> marks[a].at < marks[b].at
  }

  lemma {:induction false} HeededSorted(kills: nat -> bool, marks: seq<Mark>, m: Mark)
    requires Increasing(marks)
    ensures m in Heeded(kills, marks) <==>
      m in marks && forall d :: d in marks && kills(d.alt) ==> m.at <= d.at
  {
    if marks != [] {
      HeededSorted(kills, marks[1..], m);
      assert forall d :: d in marks <==> d == marks[0] || d in marks[1..];
    }
  }

  lemma {:induction false} HeededWithin(kills: nat -> bool, marks: seq<Mark>, m: Mark)
    requires m in Heeded(kills, marks)
    ensures m in marks
  {
    if m != marks[0] {
      HeededWithin(kills, marks[1..], m);
    }
  }

  lemma {:induction false} HeededIncreasing(kills: nat -> bool, ps: seq<Bytes>, marks: seq<Mark>)
    requires NonEmpty(ps) && forall a :: 0 <= a < |marks| ==> marks[a].alt < |ps|
    requires forall a, b :: 0 <= a < b < |marks| ==> marks[a].at + |ps[marks[a].alt]| <= marks[b].at
    ensures |Heeded(kills, marks)| <= |marks| && Heeded(kills, marks) == marks[..|Heeded(kills, marks)|]
    ensures Increasing(Heeded(kills, marks))
  {
    if marks != [] {
      HeededIncreasing(kills, ps, marks[1..]);
      var h := Heeded(kills, marks);
      assert h == marks[..|h|];
      forall a, b | 0 <= a < b < |h| ensures h[a].at < h[b].at {
        assert ps[marks[a].alt] != [];
      }
    }
  }

  // ---- Reading in pieces ----

  /** The search of `s`, whatever it is continued with, can be resumed at `c`. */
  ghost predicate Resumes(ps: seq<Bytes>, s: Bytes, c: nat)
    requires c <= |s|
  {
    forall t :: ResumesWith(ps, s, c, t)
  }

  ghost predicate ResumesWith(ps: seq<Bytes>, s: Bytes, c: nat, t: Bytes)
    requires c <= |s|
  {
    Parse(ps, s + t, 0) == Parse(ps, s, 0) + Parse(ps, s + t, c)
  }

  lemma StopResumes(ps: seq<Bytes>, s: Bytes)
    requires NonEmpty(ps)
    ensures Resumes(ps, s, Stop(ps, s, 0))
  {
    forall t ensures ResumesWith(ps, s, Stop(ps, s, 0), t) {
      ParseExtend(ps, s, t, 0);
    }
  }

  /** What a reader has found in `s`, of which it holds the last bytes back: all that is to
      be heeded; and as long as it searches, the search can be resumed at what is held. */
  ghost predicate Read(ps: seq<Bytes>, kills: nat -> bool, s: Bytes, found: seq<Mark>, held: Bytes, live: bool) {
    && found == Heeded(kills, Parse(ps, s, 0))
    && (live <==> !Deadly(kills, Parse(ps, s, 0)))
    && (live ==> |held| <= |s| && held == s[|s| - |held|..] && Resumes(ps, s, |s| - |held|))
  }

  lemma NothingRead(ps: seq<Bytes>, kills: nat -> bool)
    requires NonEmpty(ps)
    ensures Read(ps, kills, [], [], [], true)
  {
    StopResumes(ps, []);
  }

  /** If the search of `s` can be resumed at `c`, and that of the text from there on at `m`,
      then the search of both together can be resumed there. */
  lemma ResumesLater(ps: seq<Bytes>, s: Bytes, text: Bytes, c: nat, m: nat)
    requires NonEmpty(ps) && c <= |s| && Resumes(ps, s, c)
    requires m <= |s[c..] + text| && Resumes(ps, s[c..] + text, m)
    ensures c + m <= |s + text| && Resumes(ps, s + text, c + m)
    ensures Parse(ps, s + text, 0) == Parse(ps, s, 0) + Moved(Parse(ps, s[c..] + text, 0), c)
  {
    hide Parse, Moved, Resumes;
    FoundMore(ps, s, text, c);
    var whole, at := s + text, c + m;
    forall t ensures ResumesWith(ps, whole, at, t) {
      ResumesLaterWith(ps, s, text, c, m, t);
    }
    ResumesAll(ps, whole, at);
  }

  lemma ResumesAll(ps: seq<Bytes>, s: Bytes, c: nat)
    requires c <= |s| && forall t :: ResumesWith(ps, s, c, t)
    ensures Resumes(ps, s, c)
  {
  }

  lemma FoundMore(ps: seq<Bytes>, s: Bytes, text: Bytes, c: nat)
    requires NonEmpty(ps) && c <= |s| && Resumes(ps, s, c)
    ensures Parse(ps, s + text, 0) == Parse(ps, s, 0) + Moved(Parse(ps, s[c..] + text, 0), c)
  {
    hide Parse, Moved;
    assert ResumesWith(ps, s, c, text);
    assert s + text == s[..c] + (s[c..] + text);
    ParseShift(ps, s[..c], s[c..] + text, 0);
  }

  lemma ResumesLaterWith(ps: seq<Bytes>, s: Bytes, text: Bytes, c: nat, m: nat, t: Bytes)
    requires NonEmpty(ps) && c <= |s| && Resumes(ps, s, c)
    requires m <= |s[c..] + text| && Resumes(ps, s[c..] + text, m)
    ensures ResumesWith(ps, s + text, c + m, t)
  {
    hide Parse, Moved, Resumes;
    var buf := s[c..] + text;
    FoundMore(ps, s, text, c);
    FoundMore(ps, s, text + t, c);
    assert s[c..] + (text + t) == buf + t && s + (text + t) == s + text + t;
    assert ResumesWith(ps, buf, m, t) by { ResumesOne(ps, buf, m, t); }
    MovedAppend(Parse(ps, buf, 0), Parse(ps, buf + t, m), c);
    assert s + text + t == s[..c] + (buf + t);
    ParseShift(ps, s[..c], buf + t, m);
    Assoc(Parse(ps, s, 0), Moved(Parse(ps, buf, 0), c), Moved(Parse(ps, buf + t, m), c));
  }

  lemma ResumesOne(ps: seq<Bytes>, s: Bytes, c: nat, t: Bytes)
    requires c <= |s| && Resumes(ps, s, c)
    ensures ResumesWith(ps, s, c, t)
  {
  }

  lemma Assoc(a: seq<Mark>, b: seq<Mark>, c: seq<Mark>)
    ensures a + b + c == a + (b + c)
  {
  }

  lemma MovedAppend(a: seq<Mark>, b: seq<Mark>, d: nat)
    ensures Moved(a + b, d) == Moved(a, d) + Moved(b, d)
  {
  }

  /** A reader that finds in its next buffer what there is, has found what there is in
      the whole. */
  lemma ReadMore(ps: seq<Bytes>, kills: nat -> bool, s: Bytes, found: seq<Mark>, held: Bytes,
                 text: Bytes, more: seq<Mark>, held': Bytes, live: bool)
    requires NonEmpty(ps) && Read(ps, kills, s, found, held, true)
    requires Read(ps, kills, held + text, more, held', live)
    ensures |held| <= |s| && Read(ps, kills, s + text, found + Moved(more, |s| - |held|), held', live)
  {
    hide Parse, Heeded, Deadly, Moved, Resumes;
    var c := |s| - |held|;
    var buf := held + text;
    FoundMore(ps, s, text, c);
    HeededAll(kills, Parse(ps, s, 0));
    HeededAppend(kills, Parse(ps, s, 0), Moved(Parse(ps, buf, 0), c));
    HeededMoved(kills, Parse(ps, buf, 0), c);
    if live {
      assert s + text == s[..c] + buf;
      assert (s + text)[|s + text| - |held'|..] == buf[|buf| - |held'|..];
      ResumesLater(ps, s, text, c, |buf| - |held'|);
    }
  }

  /** A reader that has stopped searching misses nothing that is to be heeded. */
  lemma ReadOff(ps: seq<Bytes>, kills: nat -> bool, s: Bytes, found: seq<Mark>, held: Bytes, text: Bytes, held': Bytes)
    requires NonEmpty(ps) && Read(ps, kills, s, found, held, false)
    ensures Read(ps, kills, s + text, found, held', false)
  {
    hide Parse, Stop, Heeded, Deadly;
    ParseExtend(ps, s, text, 0);
    HeededAppend(kills, Parse(ps, s, 0), Parse(ps, s + text, Stop(ps, s, 0)));
  }
}
