/** The leftmost, first-alternative search for literal patterns, with the rule
    that a match which runs off the end of the subject is reported as partial. */
module Matcher {
  import opened Telnet

  /** What a whole search decides. */
  datatype Verdict =
    | NoMatch
    | Partial(at: nat)
    | Match(at: nat, alt: nat, len: nat)

  /** What the alternatives decide at one start position. */
  datatype Local = Fail | Short | Hit(alt: nat)

  /** Return codes of pcre2_match. */
  const PCRE2_ERROR_NOMATCH: int := -1
  const PCRE2_ERROR_PARTIAL: int := -2

  predicate Fits(p: Bytes, s: Bytes, i: nat) {
    i + |p| <= |s| && forall j :: 0 <= j < |p| ==> p[j] == s[i + j]
  }

  /** All of `s` from `i` on, at least one byte, is a proper prefix of `p`. */
  predicate RunsOff(p: Bytes, s: Bytes, i: nat) {
    i < |s| < i + |p| && forall j :: 0 <= j < |s| - i ==> p[j] == s[i + j]
  }

  /** The alternatives from number `k` on, tried in order at position `i`. */
  function Decide(ps: seq<Bytes>, s: Bytes, i: nat, k: nat): Local
    requires k <= |ps|
    decreases |ps| - k
  {
    if k == |ps| then Fail
    else if Fits(ps[k], s, i) then Hit(k)
    else if RunsOff(ps[k], s, i) then Short
    else Decide(ps, s, i, k + 1)
  }

  /** The search from position `i` on. */
  function Scan(ps: seq<Bytes>, s: Bytes, i: nat): Verdict
    requires i <= |s|
    decreases |s| - i
  {
    if i == |s| then NoMatch
    else match Decide(ps, s, i, 0)
      case Hit(k) => if k < |ps| then Match(i, k, |ps[k]|) else NoMatch
      case Short => Partial(i)
      case Fail => Scan(ps, s, i + 1)
  }

  ghost predicate NonEmpty(ps: seq<Bytes>) {
    forall k :: 0 <= k < |ps| ==> ps[k] != []
  }

  /** No alternative below `k` can match at `i`, whatever bytes follow `s`. */
  ghost predicate RuledOut(ps: seq<Bytes>, s: Bytes, i: nat, k: nat)
    requires k <= |ps|
  {
    forall j :: 0 <= j < k ==> !Fits(ps[j], s, i) && !RunsOff(ps[j], s, i)
  }

  lemma {:induction false} DecideMeaning(ps: seq<Bytes>, s: Bytes, i: nat, k: nat)
    requires k <= |ps| && RuledOut(ps, s, i, k)
    ensures Decide(ps, s, i, k) == Fail ==> RuledOut(ps, s, i, |ps|)
    ensures forall j: nat :: Decide(ps, s, i, k) == Hit(j) ==>
      j < |ps| && Fits(ps[j], s, i) && RuledOut(ps, s, i, j)
    ensures Decide(ps, s, i, k) == Short ==>
      exists j :: 0 <= j < |ps| && RunsOff(ps[j], s, i) && RuledOut(ps, s, i, j)
    decreases |ps| - k
  {
    if k < |ps| && !Fits(ps[k], s, i) && !RunsOff(ps[k], s, i) {
      DecideMeaning(ps, s, i, k + 1);
    }
  }

  /** What a verdict says of the subject, without mentioning the search: nothing
      can match before the reported position however the subject is continued,
      and at that position the reported alternative is the first that can. */
  ghost predicate Describes(v: Verdict, ps: seq<Bytes>, s: Bytes, i: nat) {
    match v
    case NoMatch => forall x :: i <= x < |s| ==> RuledOut(ps, s, x, |ps|)
    case Partial(at) =>
      && i <= at < |s|
      && (forall x :: i <= x < at ==> RuledOut(ps, s, x, |ps|))
      && exists j :: 0 <= j < |ps| && RunsOff(ps[j], s, at) && RuledOut(ps, s, at, j)
    case Match(at, alt, len) =>
      && i <= at < |s| && alt < |ps| && len == |ps[alt]|
      && (forall x :: i <= x < at ==> RuledOut(ps, s, x, |ps|))
      && Fits(ps[alt], s, at) && RuledOut(ps, s, at, alt)
  }

  lemma {:induction false} ScanMeaning(ps: seq<Bytes>, s: Bytes, i: nat)
    requires i <= |s|
    ensures Describes(Scan(ps, s, i), ps, s, i)
    decreases |s| - i
  {
    if i < |s| {
      DecideMeaning(ps, s, i, 0);
      if Decide(ps, s, i, 0) == Fail {
        ScanMeaning(ps, s, i + 1);
      }
    }
  }

  /** The description determines the verdict: there is only one right answer. */
  lemma {:induction false} VerdictUnique(ps: seq<Bytes>, s: Bytes, i: nat, v: Verdict)
    requires i <= |s| && Describes(v, ps, s, i)
    ensures v == Scan(ps, s, i)
    decreases |s| - i
  {
    if i < |s| {
      DecideMeaning(ps, s, i, 0);
      if Decide(ps, s, i, 0) == Fail {
        VerdictUnique(ps, s, i + 1, v);
      } else {
        assert !RuledOut(ps, s, i, |ps|);
      }
    }
  }

  /** Positions where nothing can match are passed over. */
  lemma {:induction false} SkipRuledOut(ps: seq<Bytes>, s: Bytes, i: nat, n: nat)
    requires i <= n <= |s|
    requires forall x :: i <= x < n ==> RuledOut(ps, s, x, |ps|)
    ensures Scan(ps, s, i) == Scan(ps, s, n)
    decreases n - i
  {
    if i < n {
      DecideMeaning(ps, s, i, 0);
      assert RuledOut(ps, s, i, |ps|);
      SkipRuledOut(ps, s, i + 1, n);
    }
  }

  // ---- Continuing the subject ----

  lemma {:induction false} DecideExtend(ps: seq<Bytes>, s: Bytes, t: Bytes, i: nat, k: nat)
    requires k <= |ps| && i < |s|
    ensures Decide(ps, s, i, k) != Short ==> Decide(ps, s + t, i, k) == Decide(ps, s, i, k)
    decreases |ps| - k
  {
    if k < |ps| {
      var p := ps[k];
      if !Fits(p, s, i) && !RunsOff(p, s, i) {
        NeverFits(p, s, t, i);
        DecideExtend(ps, s, t, i, k + 1);
      }
    }
  }

  lemma NeverFits(p: Bytes, s: Bytes, t: Bytes, i: nat)
    requires i < |s| && !Fits(p, s, i) && !RunsOff(p, s, i)
    ensures !Fits(p, s + t, i) && !RunsOff(p, s + t, i)
  {
    var d :| 0 <= d < |p| && i + d < |s| && p[d] != s[i + d];
    assert (s + t)[i + d] == s[i + d];
  }

  /** A match found is kept; everything before a partial match or the end stays unmatched. */
  lemma {:induction false} ScanExtend(ps: seq<Bytes>, s: Bytes, t: Bytes, i: nat)
    requires i <= |s|
    ensures var v := Scan(ps, s, i);
      && (v.Match? ==> Scan(ps, s + t, i) == v)
      && (v.NoMatch? ==> Scan(ps, s + t, i) == Scan(ps, s + t, |s|))
      && (v.Partial? ==> v.at <= |s| && Scan(ps, s + t, i) == Scan(ps, s + t, v.at))
    decreases |s| - i
  {
    if i < |s| {
      DecideExtend(ps, s, t, i, 0);
      DecideMeaning(ps, s, i, 0);
      if Decide(ps, s, i, 0) == Fail {
        ScanExtend(ps, s, t, i + 1);
        ScanMeaning(ps, s, i + 1);
      }
    }
  }

  function Shift(v: Verdict, d: nat): Verdict {
    match v
    case NoMatch => NoMatch
    case Partial(at) => Partial(at + d)
    case Match(at, alt, len) => Match(at + d, alt, len)
  }

  lemma {:induction false} DecideShift(ps: seq<Bytes>, a: Bytes, s: Bytes, i: nat, k: nat)
    requires k <= |ps| && i <= |s|
    ensures Decide(ps, a + s, |a| + i, k) == Decide(ps, s, i, k)
    decreases |ps| - k
  {
    if k < |ps| {
      var p := ps[k];
      assert forall x :: 0 <= x < |s| ==> s[x] == (a + s)[|a| + x];
      assert Fits(p, a + s, |a| + i) == Fits(p, s, i);
      assert RunsOff(p, a + s, |a| + i) == RunsOff(p, s, i);
      DecideShift(ps, a, s, i, k + 1);
    }
  }

  /** Searching after a prefix is searching the rest. */
  lemma {:induction false} ScanShift(ps: seq<Bytes>, a: Bytes, s: Bytes, i: nat)
    requires i <= |s|
    ensures Scan(ps, a + s, |a| + i) == Shift(Scan(ps, s, i), |a|)
    decreases |s| - i
  {
    if i < |s| {
      DecideShift(ps, a, s, i, 0);
      ScanShift(ps, a, s, i + 1);
    }
  }

  /** The search as pcre2_match reports it: the number of the highest group set
      plus one, or an error code, and the offsets of the match. */
  method Pcre2Match(re: seq<Bytes>, subject: Bytes) returns (ret: int, start: nat, end: nat)
    requires NonEmpty(re)
    ensures match Scan(re, subject, 0)
      case NoMatch => ret == PCRE2_ERROR_NOMATCH
      case Partial(at) => ret == PCRE2_ERROR_PARTIAL
      case Match(at, alt, len) =>
        ret == alt + 2 && start == at && end == at + len
    ensures ret >= 2 ==> start < end <= |subject| && ret - 2 < |re| && subject[start..end] == re[ret - 2]
    ensures ret >= 2 || ret == PCRE2_ERROR_NOMATCH || ret == PCRE2_ERROR_PARTIAL
  {
    start, end := 0, 0;
    while start < |subject|
      invariant start <= |subject|
      invariant Scan(re, subject, 0) == Scan(re, subject, start)
    {
      var k := 0;
      while k < |re|
        invariant k <= |re|
        invariant Decide(re, subject, start, 0) == Decide(re, subject, start, k)
      {
        var n := CommonLength(re[k], subject, start);
        if n == |re[k]| {
          end := start + n;
          return k + 2, start, end;
        }
        if start + n == |subject| {
          return PCRE2_ERROR_PARTIAL, start, end;
        }
        k := k + 1;
      }
      start := start + 1;
    }
    ret := PCRE2_ERROR_NOMATCH;
  }

  /** How many bytes of `p` agree with `s` from `i` on. */
  method CommonLength(p: Bytes, s: Bytes, i: nat) returns (n: nat)
    requires i < |s| && p != []
    ensures n <= |p| && i + n <= |s|
    ensures n == |p| <==> Fits(p, s, i)
    ensures n < |p| && i + n == |s| <==> RunsOff(p, s, i)
  {
    n := 0;
    while n < |p| && i + n < |s| && s[i + n] == p[n]
      invariant n <= |p| && i + n <= |s|
      invariant forall j :: 0 <= j < n ==> p[j] == s[i + j]
    {
      n := n + 1;
    }
  }
}
