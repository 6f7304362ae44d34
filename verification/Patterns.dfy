/** The pattern tables, and their compilation into one regular expression with a
    group for each pattern. */
module Patterns {
  import opened Telnet
  import opened Matcher

  // ---- The tables ----

  function GamePatterns(mode: Mode): seq<Pattern> {
    [ Pattern([IAC, SB, NEW_ENVIRON, QUAL_SEND, IAC, SE], MnesRequest),
      Pattern([IAC, SB, NEW_ENVIRON, QUAL_SEND, VAR, IAC, SE], MnesRequest),
      Pattern([IAC, DO, NEW_ENVIRON], MnesDoes) ] +
    match mode
    case Ignore =>
      [ Pattern([IAC, SB, MCCP, IAC, SE], MccpIgnore),
        Pattern([IAC, SB, MCCP2, IAC, SE], MccpIgnore),
        Pattern([IAC, SB, MCCP3, IAC, SE], MccpIgnore) ]
    case Disable =>
      [ Pattern([IAC, WILL, MCCP], RespondDont),
        Pattern([IAC, WILL, MCCP2], RespondDont),
        Pattern([IAC, WILL, MCCP3], RespondDont) ]
    case Enable =>
      [ Pattern([IAC, WILL, MCCP2], RespondDo),
        Pattern([IAC, SB, MCCP2, IAC, SE], Mccp2SbStart) ]
  }

  function ClientPatterns(mode: Mode): seq<Pattern> {
    [ Pattern([IAC, WONT, NEW_ENVIRON], MnesClientWont),
      Pattern([IAC, WILL, NEW_ENVIRON], MnesClientWill) ] +
    match mode
    case Ignore => []
    case Disable =>
      [ Pattern([IAC, DO, MCCP], RespondWont),
        Pattern([IAC, DO, MCCP2], RespondWont),
        Pattern([IAC, DO, MCCP3], RespondWont) ]
    case Enable =>
      [ Pattern([IAC, DO, MCCP2], Mccp2Do),
        Pattern([IAC, DONT, MCCP2], Mccp2Dont) ]
  }

  // ---- Compilation ----

  /** What "%.*s" prints of a byte string: it stops at a NUL. */
  function CStr(text: Bytes): (r: Bytes)
    ensures r <= text && 0 !in r && (r != text ==> text[|r|] == 0)
  {
    if text == [] || text[0] == 0 then [] else [text[0]] + CStr(text[1..])
  }

  /** The literals that are really searched for. */
  function Compiled(table: seq<Pattern>): (r: seq<Bytes>)
    ensures |r| == |table|
  {
    seq(|table|, i requires 0 <= i < |table| => CStr(table[i].text))
  }

  const OPEN: byte := 40
  const CLOSE: byte := 41
  const PIPE: byte := 124

  /** Bytes with a meaning of their own in a regular expression. */
  predicate Meta(b: byte) {
    b == 92 || b == 94 || b == 36 || b == 46 || b == 91 || b == 123 || b == 124 || b == 63 || 40 <= b <= 43
  }

  function Group(p: Pattern): Bytes {
    [OPEN] + CStr(p.text) + [CLOSE]
  }

  function RegexText(table: seq<Pattern>): Bytes {
    if table == [] then []
    else if |table| == 1 then Group(table[0])
    else Group(table[0]) + [PIPE] + RegexText(table[1..])
  }

  /** The characters of a literal group up to its closing parenthesis. */
  function ReadLiteral(s: Bytes): (r: Bytes)
    ensures |r| <= |s|
  {
    if s == [] || Meta(s[0]) then [] else [s[0]] + ReadLiteral(s[1..])
  }

  /** The alternatives of an expression that consists of literal groups. */
  function ReadAlternatives(s: Bytes): Option<seq<Bytes>>
    decreases |s|
  {
    if s == [] || s[0] != OPEN then None
    else
      var lit := ReadLiteral(s[1..]);
      var rest := s[1 + |lit|..];
      if rest == [] || rest[0] != CLOSE then None
      else if |rest| == 1 then Some([lit])
      else if rest[1] != PIPE then None
      else match ReadAlternatives(rest[2..])
        case None => None
        case Some(more) => Some([lit] + more)
  }

  ghost predicate Literal(text: Bytes) {
    forall i :: 0 <= i < |text| ==> !Meta(text[i])
  }

  lemma {:induction false} ReadLiteralStops(lit: Bytes, rest: Bytes)
    requires Literal(lit) && rest != [] && Meta(rest[0])
    ensures ReadLiteral(lit + rest) == lit
  {
    if lit == [] {
      assert lit + rest == rest;
    } else {
      assert (lit + rest)[1..] == lit[1..] + rest;
      assert (lit + rest)[0] == lit[0];
      ReadLiteralStops(lit[1..], rest);
    }
  }

  lemma {:induction false} RegexTextSnoc(table: seq<Pattern>, p: Pattern)
    requires table != []
    ensures RegexText(table + [p]) == RegexText(table) + [PIPE] + Group(p)
  {
    var both := table + [p];
    assert both[0] == table[0];
    if |table| == 1 {
      assert both[1..] == [p];
    } else {
      assert both[1..] == table[1..] + [p];
      RegexTextSnoc(table[1..], p);
      var g, r := Group(table[0]), RegexText(table[1..]);
      assert g + [PIPE] + (r + [PIPE] + Group(p)) == (g + [PIPE] + r) + [PIPE] + Group(p);
    }
  }

  /** The printed expression has the patterns, up to their first NUL, as its
      alternatives, so group number k+1 stands for pattern number k. */
  lemma {:induction false} AlternativesAreThePatterns(table: seq<Pattern>)
    requires table != [] && forall i :: 0 <= i < |table| ==> Literal(CStr(table[i].text))
    ensures ReadAlternatives(RegexText(table)) == Some(Compiled(table))
    decreases |table|
  {
    hide CStr, ReadAlternatives, Literal;
    var lit := CStr(table[0].text);
    if |table| == 1 {
      LastAlternative(lit);
      assert Compiled(table) == [lit];
    } else {
      AlternativesAreThePatterns(table[1..]);
      FirstAlternative(lit, RegexText(table[1..]));
      assert Compiled(table) == [lit] + Compiled(table[1..]);
    }
  }

  lemma LastAlternative(lit: Bytes)
    requires Literal(lit)
    ensures ReadAlternatives([OPEN] + lit + [CLOSE]) == Some([lit])
  {
    var s := [OPEN] + lit + [CLOSE];
    assert s[1..] == lit + [CLOSE];
    ReadLiteralStops(lit, [CLOSE]);
    assert s[1 + |lit|..] == [CLOSE];
  }

  lemma FirstAlternative(lit: Bytes, more: Bytes)
    requires Literal(lit) && ReadAlternatives(more).Some?
    ensures ReadAlternatives([OPEN] + lit + [CLOSE] + [PIPE] + more) == Some([lit] + ReadAlternatives(more).value)
  {
    hide ReadAlternatives, ReadLiteral, Literal;
    var s := [OPEN] + lit + [CLOSE] + [PIPE] + more;
    var rest := [CLOSE, PIPE] + more;
    assert s[1..] == lit + rest;
    ReadLiteralStops(lit, rest);
    assert s[1 + |lit|..] == rest;
    AlternativeStep(s, lit, rest, more);
  }

  lemma AlternativeStep(s: Bytes, lit: Bytes, rest: Bytes, more: Bytes)
    requires s != [] && s[0] == OPEN && ReadLiteral(s[1..]) == lit && s[1 + |lit|..] == rest
    requires |rest| >= 2 && rest[0] == CLOSE && rest[1] == PIPE && rest[2..] == more
    requires ReadAlternatives(more).Some?
    ensures ReadAlternatives(s) == Some([lit] + ReadAlternatives(more).value)
  {
    hide ReadLiteral;
  }

  /** Prints the expression group by group and has it read back by the matcher;
      an expression that is not accepted ends the program. */
  method CompilePatterns(table: seq<Pattern>) returns (re: Option<seq<Bytes>>)
    requires |RegexText(table)| < EP_BUFSIZE
    ensures re == ReadAlternatives(RegexText(table))
    ensures table != [] && (forall i :: 0 <= i < |table| ==> Literal(CStr(table[i].text)))
      ==> re == Some(Compiled(table))
  {
    var buf: Bytes := [];
    for l := 0 to |table|
      invariant buf == RegexText(table[..l])
      invariant buf == [] <==> l == 0
    {
      assert table[..l + 1] == table[..l] + [table[l]];
      if l > 0 {
        RegexTextSnoc(table[..l], table[l]);
      }
      if buf != [] {
        buf := buf + [PIPE];
      }
      buf := buf + Group(table[l]);
    }
    assert table[..|table|] == table;
    re := ReadAlternatives(buf);
    if table != [] && forall i :: 0 <= i < |table| ==> Literal(CStr(table[i].text)) {
      AlternativesAreThePatterns(table);
    }
  }

  // ---- The installed tables once compiled ----

  /** Every pattern is searched for as declared, except that the request for all
      variables of type VAR is cut to its first four bytes. */
  function GameLiterals(mode: Mode): seq<Bytes> {
    [ [IAC, SB, NEW_ENVIRON, QUAL_SEND, IAC, SE],
      [IAC, SB, NEW_ENVIRON, QUAL_SEND],
      [IAC, DO, NEW_ENVIRON] ] +
    match mode
    case Ignore =>
      [ [IAC, SB, MCCP, IAC, SE], [IAC, SB, MCCP2, IAC, SE], [IAC, SB, MCCP3, IAC, SE] ]
    case Disable => [ [IAC, WILL, MCCP], [IAC, WILL, MCCP2], [IAC, WILL, MCCP3] ]
    case Enable => [ [IAC, WILL, MCCP2], [IAC, SB, MCCP2, IAC, SE] ]
  }

  function ClientLiterals(mode: Mode): seq<Bytes> {
    [ [IAC, WONT, NEW_ENVIRON], [IAC, WILL, NEW_ENVIRON] ] +
    match mode
    case Ignore => []
    case Disable => [ [IAC, DO, MCCP], [IAC, DO, MCCP2], [IAC, DO, MCCP3] ]
    case Enable => [ [IAC, DO, MCCP2], [IAC, DONT, MCCP2] ]
  }

  lemma {:induction false} CStrWhole(text: Bytes)
    requires 0 !in text
    ensures CStr(text) == text
  {
    if text != [] {
      assert text[0] in text;
      CStrWhole(text[1..]);
    }
  }

  lemma {:induction false} CStrCut(text: Bytes, rest: Bytes)
    requires 0 !in text
    ensures CStr(text + [0] + rest) == text
  {
    var s := text + [0] + rest;
    if text != [] {
      assert text[0] in text;
      assert s[1..] == text[1..] + [0] + rest;
      CStrCut(text[1..], rest);
    }
  }

  /** A literal without NUL and without metacharacters. */
  ghost predicate Ordinary(text: Bytes) {
    forall i :: 0 <= i < |text| ==> text[i] != 0 && !Meta(text[i])
  }

  /** A table whose patterns are cut to the given ordinary literals is searched for as those. */
  lemma TableCompiles(table: seq<Pattern>, literals: seq<Bytes>)
    requires table != [] && |table| == |literals|
    requires forall i :: 0 <= i < |table| ==> Ordinary(literals[i])
    requires forall i :: 0 <= i < |table| ==>
      table[i].text == literals[i] || table[i].text == literals[i] + [0] + [IAC, SE]
    ensures Compiled(table) == literals
    ensures ReadAlternatives(RegexText(table)) == Some(literals)
  {
    hide CStr, ReadAlternatives, RegexText;
    forall i | 0 <= i < |table|
      ensures CStr(table[i].text) == literals[i] && Literal(literals[i])
    {
      assert Ordinary(literals[i]);
      if table[i].text == literals[i] {
        CStrWhole(literals[i]);
      } else {
        CStrCut(literals[i], [IAC, SE]);
      }
    }
    AlternativesAreThePatterns(table);
  }

  lemma GameTableCompiles(mode: Mode)
    ensures Compiled(GamePatterns(mode)) == GameLiterals(mode)
    ensures NonEmpty(GameLiterals(mode))
    ensures ReadAlternatives(RegexText(GamePatterns(mode))) == Some(GameLiterals(mode))
  {
    hide CStr, ReadAlternatives, RegexText;
    TableCompiles(GamePatterns(mode), GameLiterals(mode));
  }

  lemma ClientTableCompiles(mode: Mode)
    ensures Compiled(ClientPatterns(mode)) == ClientLiterals(mode)
    ensures NonEmpty(ClientLiterals(mode))
    ensures ReadAlternatives(RegexText(ClientPatterns(mode))) == Some(ClientLiterals(mode))
  {
    hide CStr, ReadAlternatives, RegexText;
    TableCompiles(ClientPatterns(mode), ClientLiterals(mode));
  }

  /** The expressions are far from filling the buffer they are printed to. */
  lemma {:induction false} RegexTextSize(table: seq<Pattern>)
    requires forall i :: 0 <= i < |table| ==> |table[i].text| <= 7
    ensures |RegexText(table)| <= 10 * |table|
    decreases |table|
  {
    if table != [] {
      RegexTextSize(table[1..]);
    }
  }
}
