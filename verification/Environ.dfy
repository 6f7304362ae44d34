/** The commands the proxy injects, and the reading of them by a telnet receiver:
    option verbs, and subnegotiations whose NEW-ENVIRON IS form carries variables
    (section 2 of RFC 1572). */
module Environ {
  import opened Telnet

  /** A variable as a receiver understands it; without VALUE it is undefined. */
  datatype Setting = Setting(name: Bytes, value: Option<Bytes>)

  datatype Command =
    | Verb(verb: byte, opt: byte)
    | Env(settings: seq<Setting>)
    | Sub(body: Bytes)

  const PROXY_NAME: Bytes := [80, 82, 79, 88, 89, 95, 78, 65, 77, 69]
  const COMPRESSION: Bytes := [67, 79, 77, 80, 82, 69, 83, 83, 73, 79, 78]
  const IPADDRESS: Bytes := [73, 80, 65, 68, 68, 82, 69, 83, 83]
  const TEXT_MCCP2: Bytes := [77, 67, 67, 80, 50]
  const TEXT_NONE: Bytes := [110, 111, 110, 101]

  /** The bytes of a string of characters below 256. */
  function Ascii(text: string): Bytes
    requires forall i :: 0 <= i < |text| ==> text[i] < 256 as char
  {
    seq(|text|, i requires 0 <= i < |text| => text[i] as int as byte)
  }

  /** The five texts as they are written in the source. */
  lemma Texts()
    ensures PROXY_NAME == Ascii("PROXY_NAME") && COMPRESSION == Ascii("COMPRESSION")
    ensures IPADDRESS == Ascii("IPADDRESS") && TEXT_MCCP2 == Ascii("MCCP2") && TEXT_NONE == Ascii("none")
  {
  }

  /** The text snprintf_mnes_pair produces, given room for it. */
  function MnesPair(name: Bytes, value: Bytes): Bytes {
    [IAC, SB, NEW_ENVIRON, QUAL_IS, VAR] + name + [VALUE] + value + [IAC, SE]
  }

  /** Free of the bytes that have a meaning inside NEW-ENVIRON, and of IAC. */
  predicate Clean(text: Bytes) {
    forall i :: 0 <= i < |text| ==> text[i] > USERVAR && text[i] != IAC
  }

  // ---- Reading ----

  /** The characters up to the next VAR, VALUE or USERVAR, ESC taking the
      following byte literally; and how many bytes of `v` they take up. */
  function ReadText(v: Bytes): (r: (Bytes, nat))
    ensures r.1 <= |v|
  {
    if v == [] || v[0] == VAR || v[0] == VALUE || v[0] == USERVAR then ([], 0)
    else if v[0] == ESC && |v| > 1 then
      var (text, n) := ReadText(v[2..]);
      ([v[1]] + text, n + 2)
    else
      var (text, n) := ReadText(v[1..]);
      ([v[0]] + text, n + 1)
  }

  /** One variable: a type, a name and possibly a value; and its length. */
  function ReadSetting(v: Bytes): (r: Option<(Setting, nat)>)
    ensures r.Some? ==> 0 < r.value.1 <= |v|
  {
    if v == [] || (v[0] != VAR && v[0] != USERVAR) then None
    else
      var (name, n) := ReadText(v[1..]);
      if 1 + n < |v| && v[1 + n] == VALUE then
        var (value, m) := ReadText(v[2 + n..]);
        Some((Setting(name, Some(value)), 2 + n + m))
      else Some((Setting(name, None), 1 + n))
  }

  function ReadSettings(v: Bytes): Option<seq<Setting>>
    decreases |v|
  {
    if v == [] then Some([])
    else match ReadSetting(v)
      case None => None
      case Some((one, n)) =>
        match ReadSettings(v[n..])
        case None => None
        case Some(more) => Some([one] + more)
  }

  function ReadBody(body: Bytes): Option<Command> {
    if |body| >= 2 && body[0] == NEW_ENVIRON && body[1] == QUAL_IS then
      match ReadSettings(body[2..])
      case None => None
      case Some(settings) => Some(Env(settings))
    else Some(Sub(body))
  }

  /** Position of the first IAC in `s`, or its length. */
  function FirstIac(s: Bytes): (n: nat)
    ensures n <= |s| && IAC !in s[..n] && (n < |s| ==> s[n] == IAC)
  {
    if s == [] || s[0] == IAC then 0 else 1 + FirstIac(s[1..])
  }

  /** One command at the head of `s`, and its length. */
  function ReadCommand(s: Bytes): (r: Option<(Command, nat)>)
    ensures r.Some? ==> 0 < r.value.1 <= |s|
  {
    if |s| < 3 || s[0] != IAC then None
    else if WILL <= s[1] <= DONT then Some((Verb(s[1], s[2]), 3))
    else if s[1] == SB then
      var n := FirstIac(s[2..]);
      if n + 4 <= |s| && s[n + 3] == SE then
        match ReadBody(s[2..n + 2])
        case None => None
        case Some(c) => Some((c, n + 4))
      else None
    else None
  }

  /** A stream that consists of commands only. */
  function Receive(s: Bytes): Option<seq<Command>>
    decreases |s|
  {
    if s == [] then Some([])
    else match ReadCommand(s)
      case None => None
      case Some((c, n)) =>
        match Receive(s[n..])
        case None => None
        case Some(more) => Some([c] + more)
  }

  // ---- What is read back ----

  lemma {:induction false} FirstIacExtend(s: Bytes, t: Bytes)
    requires FirstIac(s) < |s|
    ensures FirstIac(s + t) == FirstIac(s)
  {
    if s[0] != IAC {
      assert (s + t)[1..] == s[1..] + t;
      FirstIacExtend(s[1..], t);
    }
  }

  lemma ReadCommandExtend(s: Bytes, t: Bytes)
    requires ReadCommand(s).Some?
    ensures ReadCommand(s + t) == ReadCommand(s)
  {
    if s[1] == SB {
      var n := FirstIac(s[2..]);
      assert (s + t)[2..] == s[2..] + t;
      FirstIacExtend(s[2..], t);
      assert (s + t)[2..n + 2] == s[2..n + 2];
    }
  }

  /** Streams of commands are read one after the other. */
  lemma {:induction false} ReceiveAppend(s: Bytes, t: Bytes)
    requires Receive(s).Some? && Receive(t).Some?
    ensures Receive(s + t) == Some(Receive(s).value + Receive(t).value)
    decreases |s|
  {
    hide ReadCommand;
    if s == [] {
      assert s + t == t;
      assert [] + Receive(t).value == Receive(t).value;
    } else {
      var (c, n) := ReadCommand(s).value;
      ReadCommandExtend(s, t);
      assert (s + t)[n..] == s[n..] + t;
      ReceiveAppend(s[n..], t);
      assert [c] + (Receive(s[n..]).value + Receive(t).value)
          == [c] + Receive(s[n..]).value + Receive(t).value;
    }
  }

  lemma {:induction false} ReadCleanText(text: Bytes, rest: Bytes)
    requires Clean(text)
    requires rest == [] || rest[0] == VAR || rest[0] == VALUE
    ensures ReadText(text + rest) == (text, |text|)
  {
    if text == [] {
      assert text + rest == rest;
    } else {
      assert (text + rest)[1..] == text[1..] + rest;
      assert (text + rest)[0] == text[0];
      assert [text[0]] + text[1..] == text;
      ReadCleanText(text[1..], rest);
    }
  }

  lemma {:induction false} FirstIacClean(text: Bytes, rest: Bytes)
    requires IAC !in text && rest != [] && rest[0] == IAC
    ensures FirstIac(text + rest) == |text|
  {
    if text == [] {
      assert text + rest == rest;
    } else {
      assert (text + rest)[1..] == text[1..] + rest;
      assert (text + rest)[0] == text[0];
      FirstIacClean(text[1..], rest);
    }
  }

  lemma ReadOneSetting(v: Bytes, name: Bytes, value: Bytes)
    requires Clean(name) && Clean(value)
    requires v == [VAR] + name + [VALUE] + value
    ensures ReadSettings(v) == Some([Setting(name, Some(value))])
  {
    var one := Setting(name, Some(value));
    assert ReadSetting(v) == Some((one, |v|)) by {
      assert v[1..] == name + ([VALUE] + value);
      ReadCleanText(name, [VALUE] + value);
      assert v[2 + |name|..] == value + [];
      ReadCleanText(value, []);
    }
    SingleSetting(v, one);
  }

  lemma SingleSetting(v: Bytes, one: Setting)
    requires v != [] && ReadSetting(v) == Some((one, |v|))
    ensures ReadSettings(v) == Some([one])
  {
    hide ReadSetting;
    assert v[|v|..] == [];
    assert [one] + [] == [one];
  }

  lemma SingleCommand(s: Bytes, c: Command)
    requires s != [] && ReadCommand(s) == Some((c, |s|))
    ensures Receive(s) == Some([c])
  {
    hide ReadCommand;
    assert s[|s|..] == [];
    assert [c] + [] == [c];
  }

  lemma SubIsRead(body: Bytes, c: Command)
    requires IAC !in body && ReadBody(body) == Some(c)
    ensures Receive([IAC, SB] + body + [IAC, SE]) == Some([c])
  {
    hide ReadBody;
    var s := [IAC, SB] + body + [IAC, SE];
    assert s[2..] == body + [IAC, SE];
    FirstIacClean(body, [IAC, SE]);
    assert s[2..|body| + 2] == body;
    SingleCommand(s, c);
  }

  /** A receiver reads from the formatted pair exactly the variable and its value. */
  lemma PairIsRead(name: Bytes, value: Bytes)
    requires Clean(name) && Clean(value)
    ensures Receive(MnesPair(name, value)) == Some([Env([Setting(name, Some(value))])])
  {
    var vars := [VAR] + name + [VALUE] + value;
    var body := [NEW_ENVIRON, QUAL_IS] + vars;
    assert MnesPair(name, value) == [IAC, SB] + body + [IAC, SE];
    assert body[2..] == vars;
    ReadOneSetting(vars, name, value);
    SubIsRead(body, Env([Setting(name, Some(value))]));
  }

  lemma VerbIsRead(verb: byte, opt: byte)
    requires WILL <= verb <= DONT
    ensures Receive([IAC, verb, opt]) == Some([Verb(verb, opt)])
  {
    SingleCommand([IAC, verb, opt], Verb(verb, opt));
  }

  // ---- The reply to a request for the environment ----

  /** A variable and the value to report for it. */
  datatype Report = Report(name: Bytes, value: Bytes)

  function Encode(reports: seq<Report>): Bytes {
    if reports == [] then []
    else MnesPair(reports[0].name, reports[0].value) + Encode(reports[1..])
  }

  function Understood(reports: seq<Report>): seq<Command> {
    if reports == [] then []
    else [Env([Setting(reports[0].name, Some(reports[0].value))])] + Understood(reports[1..])
  }

  ghost predicate AllClean(reports: seq<Report>) {
    forall i :: 0 <= i < |reports| ==> Clean(reports[i].name) && Clean(reports[i].value)
  }

  /** Each report is read back as its own IS message, in order. */
  lemma {:induction false} ReportsAreRead(reports: seq<Report>)
    requires AllClean(reports)
    ensures Receive(Encode(reports)) == Some(Understood(reports))
  {
    if reports != [] {
      PairIsRead(reports[0].name, reports[0].value);
      ReportsAreRead(reports[1..]);
      ReceiveAppend(MnesPair(reports[0].name, reports[0].value), Encode(reports[1..]));
    }
  }
}
