// The WWW-Authenticate header of MPP: formatWWWAuthenticate and
// parseWWWAuthenticate (packages/types/src/mpp/encoding.ts). The two regular
// expressions are scans here. Each part of them that repeats is followed by a
// character it cannot take, or by nothing that can fail, so that no second try
// of a backtracking matcher ever finds another match.
module WwwAuthenticate {
  import opened Text
  import opened ChallengeParams

  // ----- quoting -----

  function QuoteParam(v: string): string {
    "\"" + ReplaceEach(ReplaceEach(v, "\\", "\\\\"), "\"", "\\\"") + "\""
  }

  function UnquoteParam(v: string): string {
    if v != "" && v[0] == '"' && v[|v| - 1] == '"' then
      ReplaceEach(ReplaceEach(if |v| == 1 then "" else v[1..|v| - 1], "\\\"", "\""), "\\\\", "\\")
    else v
  }

  // Every backslash and, if quotes is set, every quote behind a backslash.
  function Escaped(v: string, quotes: bool): string {
    if v == "" then ""
    else (if v[0] == '\\' || (quotes && v[0] == '"') then ['\\', v[0]] else [v[0]]) + Escaped(v[1..], quotes)
  }

  lemma {:induction false} BackslashesDoubled(v: string)
    ensures ReplaceEach(v, "\\", "\\\\") == Escaped(v, false)
  {
    if v != "" { BackslashesDoubled(v[1..]); }
  }

  lemma {:induction false} QuotesEscaped(v: string)
    ensures ReplaceEach(Escaped(v, false), "\"", "\\\"") == Escaped(v, true)
  {
    hide ReplaceEach;
    if v == "" {
      ReplaceNothing("\"", "\\\"");
    } else {
      var e := Escaped(v[1..], false);
      QuotesEscaped(v[1..]);
      if v[0] == '\\' {
        assert Escaped(v, false) == ['\\'] + (['\\'] + e);
        Passes('\\', ['\\'] + e, "\"", "\\\"");
        Passes('\\', e, "\"", "\\\"");
      } else if v[0] == '"' {
        assert Escaped(v, false) == "\"" + e;
        Hits(e, "\"", "\\\"");
      } else {
        Passes(v[0], e, "\"", "\\\"");
      }
    }
  }

  lemma {:induction false} QuotesUnescaped(v: string)
    ensures ReplaceEach(Escaped(v, true), "\\\"", "\"") == Escaped(v, false)
  {
    hide ReplaceEach;
    if v == "" {
      ReplaceNothing("\\\"", "\"");
    } else {
      var e := Escaped(v[1..], true);
      QuotesUnescaped(v[1..]);
      if v[0] == '\\' {
        assert Escaped(v, true) == ['\\'] + (['\\'] + e);
        assert e != "" ==> e[0] != '"';
        assert "\\\""[1] == '"';
        Passes('\\', ['\\'] + e, "\\\"", "\"");
        Passes('\\', e, "\\\"", "\"");
      } else if v[0] == '"' {
        assert Escaped(v, true) == "\\\"" + e;
        Hits(e, "\\\"", "\"");
      } else {
        Passes(v[0], e, "\\\"", "\"");
      }
    }
  }

  lemma {:induction false} BackslashesHalved(v: string)
    ensures ReplaceEach(Escaped(v, false), "\\\\", "\\") == v
  {
    hide ReplaceEach;
    if v == "" {
      ReplaceNothing("\\\\", "\\");
    } else {
      var e := Escaped(v[1..], false);
      BackslashesHalved(v[1..]);
      if v[0] == '\\' {
        assert Escaped(v, false) == "\\\\" + e;
        Hits(e, "\\\\", "\\");
      } else {
        Passes(v[0], e, "\\\\", "\\");
      }
    }
  }

  lemma QuotedIs(v: string)
    ensures QuoteParam(v) == "\"" + Escaped(v, true) + "\""
  {
    hide ReplaceEach, Escaped;
    BackslashesDoubled(v);
    QuotesEscaped(v);
  }

  // The two successive replacements undo the quoting of every string.
  lemma UnquoteQuote(v: string)
    ensures UnquoteParam(QuoteParam(v)) == v
  {
    hide ReplaceEach, Escaped, QuoteParam;
    QuotedIs(v);
    var q := QuoteParam(v);
    assert q[0] == '"' && q[|q| - 1] == '"' && |q| >= 2 && q[1..|q| - 1] == Escaped(v, true);
    QuotesUnescaped(v);
    BackslashesHalved(v);
  }

  // ----- writing -----

  function Join(parts: seq<string>, sep: string): string {
    if parts == [] then "" else if |parts| == 1 then parts[0] else parts[0] + sep + Join(parts[1..], sep)
  }

  function Present(fs: seq<Field>): seq<Field> {
    if fs == [] then [] else (if fs[0].value.Some? then [fs[0]] else []) + Present(fs[1..])
  }

  // bare: the parameters whose values are written without quotes. The server here
  // has none, but a client meets them.
  function ValueText(f: Field, bare: set<string>): string
    requires f.value.Some?
  {
    if f.name in bare then f.value.value else QuoteParam(f.value.value)
  }

  function Part(f: Field, bare: set<string>): string
    requires f.value.Some?
  {
    f.name + "=" + ValueText(f, bare)
  }

  // A value that can stand without quotes.
  predicate IsToken(v: string) { v != "" && v[0] != '"' && forall c <- v :: !IsSpace(c) && c != ',' }

  predicate CanBeBare(fs: seq<Field>, bare: set<string>) {
    forall f <- fs :: f.value.Some? && f.name in bare ==> IsToken(f.value.value)
  }

  predicate AllPresent(fs: seq<Field>) { forall f <- fs :: f.value.Some? }

  function Parts(fs: seq<Field>, bare: set<string>): seq<string>
    requires AllPresent(fs)
  {
    seq(|fs|, i requires 0 <= i < |fs| => Part(fs[i], bare))
  }

  lemma {:induction false} PresentAll(fs: seq<Field>)
    ensures AllPresent(Present(fs)) && Params(Present(fs)) == Params(fs)
    ensures forall f <- Present(fs) :: f in fs
  {
    if fs != [] {
      PresentAll(fs[1..]);
      var rest := Present(fs[1..]);
      if fs[0].value.Some? {
        assert Present(fs) == [fs[0]] + rest;
        assert ([fs[0]] + rest)[1..] == rest;
        assert Params([fs[0]] + rest) == Params(rest)[fs[0].name := fs[0].value.value];
      } else {
        assert Present(fs) == rest;
      }
    }
  }

  lemma {:induction false} PresentDistinct(fs: seq<Field>)
    requires DistinctNames(fs)
    ensures DistinctNames(Present(fs))
  {
    hide IsName, Params;
    PresentAll(fs);
    if fs != [] {
      var rest, all := Present(fs[1..]), Present(fs);
      assert DistinctNames(fs[1..]);
      PresentDistinct(fs[1..]);
      PresentAll(fs[1..]);
      if fs[0].value.Some? {
        assert all == [fs[0]] + rest;
        forall i, j | 0 <= i < j < |all|
          ensures all[i].name != all[j].name
        {
          assert rest[j - 1] in rest && rest[j - 1] in fs[1..];
          if i > 0 { assert all[i] == rest[i - 1]; }
        }
      } else {
        assert all == rest;
      }
    }
  }

  function ChallengeText(c: Challenge, bare: set<string>): string {
    PresentAll(Fields(c));
    "Payment " + Join(Parts(Present(Fields(c)), bare), ", ")
  }

  function Written(cs: seq<Challenge>, bare: set<string>): string {
    Join(seq(|cs|, i requires 0 <= i < |cs| => ChallengeText(cs[i], bare)), ", ")
  }

  function FormatWWWAuthenticate(cs: seq<Challenge>): string { Written(cs, {}) }

  // ----- the regular expressions -----

  // [a-zA-Z0-9]*
  function WordEnd(s: string, i: nat): (j: nat)
    requires i <= |s|
    ensures i <= j <= |s|
    decreases |s| - i
  {
    if i < |s| && (IsLetter(s[i]) || IsDigit(s[i])) then WordEnd(s, i + 1) else i
  }

  // [a-zA-Z][a-zA-Z0-9]*, or i if there is none.
  function KeyEnd(s: string, i: nat): (j: nat)
    requires i <= |s|
    ensures i <= j <= |s|
  {
    if i < |s| && IsLetter(s[i]) then WordEnd(s, i + 1) else i
  }

  predicate EndsLine(c: char) { c == '\n' || c == '\r' || c as int == 0x2028 || c as int == 0x2029 }

  // (?:[^"\\]|\\.)*" after the opening quote.
  function QuotedEnd(s: string, i: nat): (r: Option<nat>)
    requires i <= |s|
    ensures r.Some? ==> i < r.value <= |s|
    decreases |s| - i
  {
    if i == |s| then None
    else if s[i] == '"' then Some(i + 1)
    else if s[i] != '\\' then QuotedEnd(s, i + 1)
    else if i + 1 < |s| && !EndsLine(s[i + 1]) then QuotedEnd(s, i + 2) else None
  }

  // [^\s,]*
  function TokenEnd(s: string, i: nat): (j: nat)
    requires i <= |s|
    ensures i <= j <= |s|
    decreases |s| - i
  {
    if i < |s| && !IsSpace(s[i]) && s[i] != ',' then TokenEnd(s, i + 1) else i
  }

  // "(?:[^"\\]|\\.)*"|[^\s,]+, or i if there is none.
  function ValueEnd(s: string, i: nat): (j: nat)
    requires i <= |s|
    ensures i <= j <= |s|
  {
    var q := if Is(s, i, '"') then QuotedEnd(s, i + 1) else None;
    if q.Some? then q.value else TokenEnd(s, i)
  }

  datatype Param = Param(keyEnd: nat, valueStart: nat, end: nat)

  ghost predicate Within(s: string, i: nat, p: Param) {
    i < p.keyEnd < p.valueStart < p.end <= |s|
  }

  // key \s*=\s* value at i.
  function ParamAt(s: string, i: nat): (r: Option<Param>)
    requires i <= |s|
    ensures r.Some? ==> Within(s, i, r.value)
  {
    var k := KeyEnd(s, i);
    var e := SkipSpace(s, k);
    if k == i || !Is(s, e, '=') then None
    else
      var v := SkipSpace(s, e + 1);
      var end := ValueEnd(s, v);
      if end == v then None else Some(Param(k, v, end))
  }

  // (?:\s*,\s*(?=key\s*=))?
  function SeparatorEnd(s: string, i: nat): (j: nat)
    requires i <= |s|
    ensures i <= j <= |s|
  {
    var c := SkipSpace(s, i);
    if !Is(s, c, ',') then i
    else
      var k := SkipSpace(s, c + 1);
      var e := KeyEnd(s, k);
      if e > k && Is(s, SkipSpace(s, e), '=') then k else i
  }

  // (?:param separator?)*
  function ParamsEnd(s: string, i: nat): (j: nat)
    requires i <= |s|
    ensures i <= j <= |s|
    decreases |s| - i
  {
    var p := ParamAt(s, i);
    if p.None? then i else ParamsEnd(s, SeparatorEnd(s, p.value.end))
  }

  const PAYMENT := "payment"

  predicate PaymentAt(s: string, i: nat) {
    i + 7 <= |s| && forall k :: 0 <= k < 7 ==> Lowered(s[i + k]) == PAYMENT[k]
  }

  function Lowered(c: char): char { if 'A' <= c <= 'Z' then (c as int + 32) as char else c }

  // Where the parameters of a challenge at i begin and end.
  function ChallengeAt(s: string, i: nat): (r: Option<(nat, nat)>)
    requires i <= |s|
    ensures r.Some? ==> i < r.value.0 < r.value.1 <= |s|
  {
    if !PaymentAt(s, i) then None
    else
      var j := SkipSpace(s, i + 7);
      var e := ParamsEnd(s, j);
      if j == i + 7 || e == j then None else Some((j, e))
  }

  // exec from position i: the first match.
  function NextChallenge(s: string, i: nat): (r: Option<(nat, nat)>)
    requires i <= |s|
    ensures r.Some? ==> i < r.value.0 < r.value.1 <= |s|
    decreases |s| - i
  {
    if ChallengeAt(s, i).Some? then ChallengeAt(s, i) else if i == |s| then None else NextChallenge(s, i + 1)
  }

  function NextParam(s: string, i: nat): (r: Option<(nat, Param)>)
    requires i <= |s|
    ensures r.Some? ==> i <= r.value.0 && Within(s, r.value.0, r.value.1)
    decreases |s| - i
  {
    if ParamAt(s, i).Some? then Some((i, ParamAt(s, i).value)) else if i == |s| then None else NextParam(s, i + 1)
  }

  // ----- reading -----

  // The parameters of t from position i on, put into m.
  function ParamsFrom(t: string, i: nat, m: map<string, string>): map<string, string>
    requires i <= |t|
    decreases |t| - i
  {
    var n := NextParam(t, i);
    if n.None? then m
    else
      var (k, p) := n.value;
      ParamsFrom(t, p.end, m[t[k..p.keyEnd] := UnquoteParam(t[p.valueStart..p.end])])
  }

  const NAMES := {"id", "realm", "method", "intent", "request", "expires", "description", "opaque", "digest"}

  // A validated challenge, with the parameters that are not declared.
  datatype Received = Received(challenge: Challenge, others: map<string, string>)

  function Validate(params: map<string, string>): Option<Received> {
    var c := FromParams(params);
    if c.None? then None else Some(Received(c.value, params - NAMES))
  }

  function ChallengesFrom(s: string, i: nat): seq<Received>
    requires i <= |s|
    decreases |s| - i
  {
    var n := NextChallenge(s, i);
    if n.None? then []
    else
      var (j, e) := n.value;
      var c := Validate(ParamsFrom(s[j..e], 0, map[]));
      (if c.Some? then [c.value] else []) + ChallengesFrom(s, e)
  }

  method ParseWWWAuthenticate(header: string) returns (challenges: seq<Received>)
    ensures challenges == ChallengesFrom(header, 0)
  {
    hide Validate, NextChallenge, NextParam, UnquoteParam;
    challenges := [];
    var lastIndex := 0;
    var m := NextChallenge(header, lastIndex);
    while m.Some?
      invariant lastIndex <= |header| && m == NextChallenge(header, lastIndex)
      invariant challenges + ChallengesFrom(header, lastIndex) == ChallengesFrom(header, 0)
      decreases |header| - lastIndex
    {
      var (j, e) := m.value;
      var paramsStr := header[j..e];
      var params: map<string, string> := map[];
      var paramIndex := 0;
      var n := NextParam(paramsStr, paramIndex);
      while n.Some?
        invariant paramIndex <= |paramsStr| && n == NextParam(paramsStr, paramIndex)
        invariant ParamsFrom(paramsStr, paramIndex, params) == ParamsFrom(paramsStr, 0, map[])
        decreases |paramsStr| - paramIndex
      {
        var (k, p) := n.value;
        params := params[paramsStr[k..p.keyEnd] := UnquoteParam(paramsStr[p.valueStart..p.end])];
        paramIndex := p.end;
        n := NextParam(paramsStr, paramIndex);
      }
      var validated := Validate(params);
      if validated.Some? { challenges := challenges + [validated.value]; }
      lastIndex := e;
      m := NextChallenge(header, lastIndex);
    }
  }

  // ----- reading what was written -----

  lemma {:induction false} WordEndAt(s: string, i: nat, name: string, k: nat)
    requires At(s, i, name) && (forall c <- name :: IsLetter(c)) && k <= |name|
    requires Is(s, i + |name|, '=') || Is(s, i + |name|, ' ')
    ensures WordEnd(s, i + k) == i + |name|
    decreases |name| - k
  {
    if k < |name| {
      AtIndex(s, i, name, k);
      WordEndAt(s, i, name, k + 1);
    }
  }

  lemma NameReads(s: string, i: nat, name: string)
    requires At(s, i, name) && IsName(name) && (Is(s, i + |name|, '=') || Is(s, i + |name|, ' '))
    ensures i < |s| && IsLetter(s[i]) && KeyEnd(s, i) == i + |name| && s[i..i + |name|] == name
  {
    AtIndex(s, i, name, 0);
    WordEndAt(s, i, name, 1);
  }

  lemma {:induction false} QuotedReads(s: string, i: nat, v: string)
    requires At(s, i, Escaped(v, true) + "\"")
    ensures i + |Escaped(v, true)| + 1 <= |s|
    ensures QuotedEnd(s, i) == Some(i + |Escaped(v, true)| + 1)
    decreases |v|
  {
    if v == "" {
      AtIndex(s, i, "\"", 0);
    } else {
      var e := if v[0] == '\\' || v[0] == '"' then ['\\', v[0]] else [v[0]];
      var rest := Escaped(v[1..], true) + "\"";
      assert Escaped(v, true) + "\"" == e + rest;
      AtConcat(s, i, e, rest);
      AtChars(s, i, e);
      hide At;
      assert s[i] == e[0];
      if |e| == 2 { assert s[i + 1] == e[1]; }
      QuotedReads(s, i + |e|, v[1..]);
    }
  }

  lemma NotSpace(s: string, i: nat, c: char)
    requires Is(s, i, c) && !IsSpace(c)
    ensures SkipSpace(s, i) == i
  {}

  lemma OneSpace(s: string, i: nat, c: char)
    requires Is(s, i, ' ') && Is(s, i + 1, c) && !IsSpace(c)
    ensures SkipSpace(s, i) == i + 1
  {
    hide IsSpace;
    assert IsSpace(' ') by { SpaceIsSpace(); }
    NotSpace(s, i + 1, c);
  }

  lemma SpaceIsSpace()
    ensures IsSpace(' ') && !IsSpace('=') && !IsSpace('"') && !IsSpace(',')
    ensures forall c :: IsLetter(c) ==> !IsSpace(c)
  {}

  // The parameter that was written is the one that is read.
  lemma PartReads(s: string, i: nat, f: Field, bare: set<string>)
    requires f.value.Some? && IsName(f.name) && At(s, i, Part(f, bare)) && CanBeBare([f], bare)
    requires Follows(s, i + |Part(f, bare)|)
    ensures i + |Part(f, bare)| <= |s|
    ensures var k := i + |f.name|;
      && ParamAt(s, i) == Some(Param(k, k + 1, i + |Part(f, bare)|)) && s[i..k] == f.name && Is(s, k, '=')
      && UnquoteParam(s[k + 1..i + |Part(f, bare)|]) == f.value.value
      && IsLetter(s[i]) && KeyEnd(s, i) == k
  {
    hide At, IsSpace, ValueText, UnquoteParam, ValueEnd, IsName, IsLetter, KeyEnd, CanBeBare, Follows;
    var q := ValueText(f, bare);
    var k := i + |f.name|;
    assert Part(f, bare) == f.name + ("=" + q);
    AtConcat(s, i, f.name, "=" + q);
    AtConcat(s, k, "=", q);
    AtIndex(s, k, "=", 0);
    NameReads(s, i, f.name);
    SpaceIsSpace();
    NotSpace(s, k, '=');
    assert f in [f];
    ValueReads(s, k + 1, f, bare);
    NotSpace(s, k + 1, s[k + 1]);
  }

  // Where a value may end.
  predicate Follows(s: string, e: nat) { e == |s| || Is(s, e, ',') }

  lemma ValueReads(s: string, i: nat, f: Field, bare: set<string>)
    requires f.value.Some? && CanBeBare([f], bare) && At(s, i, ValueText(f, bare)) && Follows(s, i + |ValueText(f, bare)|)
    ensures var e := i + |ValueText(f, bare)|;
      i < e <= |s| && ValueEnd(s, i) == e && !IsSpace(s[i]) && UnquoteParam(s[i..e]) == f.value.value
  {
    hide At, IsSpace, QuotedEnd, TokenEnd, QuoteParam, Escaped, UnquoteParam;
    var v := f.value.value;
    AtIs(s, i, ValueText(f, bare));
    SpaceIsSpace();
    if f.name in bare {
      assert f in [f];
      AtIndex(s, i, v, 0);
      assert s[i] in v;
      TokenReads(s, i, v, 0);
      TokenIsItself(v);
    } else {
      QuotedIs(v);
      assert QuoteParam(v) == "\"" + (Escaped(v, true) + "\"");
      AtConcat(s, i, "\"", Escaped(v, true) + "\"");
      AtIndex(s, i, "\"", 0);
      QuotedReads(s, i + 1, v);
      UnquoteQuote(v);
    }
  }

  lemma TokenIsItself(v: string)
    requires IsToken(v)
    ensures UnquoteParam(v) == v
  {}

  lemma {:induction false} TokenReads(s: string, i: nat, v: string, k: nat)
    requires At(s, i, v) && IsToken(v) && k <= |v| && Follows(s, i + |v|)
    ensures i + |v| <= |s| && TokenEnd(s, i + k) == i + |v|
    decreases |v| - k
  {
    hide IsSpace;
    if k < |v| {
      AtIndex(s, i, v, k);
      assert v[k] in v;
      TokenReads(s, i, v, k + 1);
    }
  }

  // The end of the header, or the next challenge.
  predicate Ends(s: string, i: nat) {
    i == |s| || (Is(s, i, ',') && Is(s, i + 1, ' ') && At(s, i + 2, "Payment ") && Is(s, i + 10, 'i'))
  }

  lemma PaymentIsName()
    ensures IsName("Payment") && "Payment" + " " == "Payment "
  {}

  // Nothing of the next challenge is taken for a parameter of this one.
  lemma StopsAtEnd(s: string, i: nat)
    requires i <= |s| && Ends(s, i)
    ensures SeparatorEnd(s, i) == i && ParamAt(s, i) == None
  {
    hide At, IsSpace;
    SpaceIsSpace();
    assert !IsLetter(',');
    if i < |s| {
      NotSpace(s, i, ',');
      PaymentIsName();
      AtConcat(s, i + 2, "Payment", " ");
      AtIndex(s, i + 9, " ", 0);
      NameReads(s, i + 2, "Payment");
      OneSpace(s, i + 1, s[i + 2]);
      assert IsLetter('i');
      OneSpace(s, i + 9, 'i');
    }
  }

  predicate Readable(fs: seq<Field>, bare: set<string>) {
    fs != [] && AllPresent(fs) && CanBeBare(fs, bare) && forall f <- fs :: IsName(f.name)
  }

  lemma OneReadable(fs: seq<Field>, bare: set<string>)
    requires Readable(fs, bare)
    ensures CanBeBare([fs[0]], bare) && IsName(fs[0].name) && fs[0].value.Some?
  {
    hide IsToken, IsName;
  }

  lemma PartsTail(fs: seq<Field>, bare: set<string>)
    requires Readable(fs, bare)
    ensures |fs| == 1 ==> Join(Parts(fs, bare), ", ") == Part(fs[0], bare)
    ensures |fs| > 1 ==> Readable(fs[1..], bare)
    ensures |fs| > 1 ==> Join(Parts(fs, bare), ", ") == Part(fs[0], bare) + (", " + Join(Parts(fs[1..], bare), ", "))
  {
    hide Part, IsName, IsToken;
    if |fs| > 1 { assert Parts(fs, bare)[1..] == Parts(fs[1..], bare); }
  }

  lemma {:induction false} ParamsEndAt(s: string, i: nat, fs: seq<Field>, bare: set<string>)
    requires Readable(fs, bare) && At(s, i, Join(Parts(fs, bare), ", ")) && Ends(s, i + |Join(Parts(fs, bare), ", ")|)
    ensures i + |Join(Parts(fs, bare), ", ")| <= |s|
    ensures ParamsEnd(s, i) == i + |Join(Parts(fs, bare), ", ")|
    ensures ParamAt(s, i).Some?
    decreases |fs|
  {
    hide At, Part, ParamAt, SeparatorEnd, Join, Parts, Ends, IsName, CanBeBare, UnquoteParam;
    PartsTail(fs, bare);
    OneReadable(fs, bare);
    if |fs| == 1 {
      EndFollows(s, i + |Part(fs[0], bare)|);
      PartReads(s, i, fs[0], bare);
      StopsAtEnd(s, i + |Part(fs[0], bare)|);
    } else {
      var rest := Join(Parts(fs[1..], bare), ", ");
      var j := i + |Part(fs[0], bare)|;
      AtConcat(s, i, Part(fs[0], bare), ", " + rest);
      AtConcat(s, j, ", ", rest);
      AtIndex(s, j, ", ", 0);
      PartReads(s, i, fs[0], bare);
      EndFollows(s, i + |Join(Parts(fs, bare), ", ")|);
      ParamsEndAt(s, j + 2, fs[1..], bare);
      NextPart(s, j, fs[1..], bare);
    }
  }

  // The first of the parameters that stand at i.
  lemma FirstPart(s: string, i: nat, fs: seq<Field>, bare: set<string>)
    requires Readable(fs, bare) && At(s, i, Join(Parts(fs, bare), ", ")) && Follows(s, i + |Join(Parts(fs, bare), ", ")|)
    ensures var f := fs[0]; var k := i + |f.name|;
      && f.value.Some? && i < k < |s| && IsLetter(s[i]) && KeyEnd(s, i) == k && s[i..k] == f.name && Is(s, k, '=')
      && Join(Parts(fs, bare), ", ") != ""
  {
    hide At, Part, Join, Parts, IsName, CanBeBare, UnquoteParam, ParamAt, IsLetter, KeyEnd;
    PartsTail(fs, bare);
    OneReadable(fs, bare);
    var j := i + |Part(fs[0], bare)|;
    if |fs| > 1 {
      var rest := Join(Parts(fs[1..], bare), ", ");
      AtConcat(s, i, Part(fs[0], bare), ", " + rest);
      AtConcat(s, j, ", ", rest);
      AtIndex(s, j, ", ", 0);
    }
    PartReads(s, i, fs[0], bare);
    PartNotEmpty(fs[0], bare);
  }

  lemma PartNotEmpty(f: Field, bare: set<string>)
    requires f.value.Some? && IsName(f.name)
    ensures Part(f, bare) != "" && f.name != ""
  {}

  lemma EndFollows(s: string, i: nat)
    requires Ends(s, i)
    ensures Follows(s, i)
  {}

  lemma NextPart(s: string, i: nat, fs: seq<Field>, bare: set<string>)
    requires Readable(fs, bare) && At(s, i, ", ") && At(s, i + 2, Join(Parts(fs, bare), ", "))
    requires Follows(s, i + 2 + |Join(Parts(fs, bare), ", ")|)
    ensures i + 2 < |s| && SeparatorEnd(s, i) == i + 2 && ParamAt(s, i) == None && ParamAt(s, i + 1) == None
  {
    hide At, Part, Join, Parts, IsSpace, IsName, CanBeBare;
    AtIndex(s, i, ", ", 0);
    AtIndex(s, i, ", ", 1);
    FirstPart(s, i + 2, fs, bare);
    SpaceIsSpace();
    NotSpace(s, i, ',');
    OneSpace(s, i + 1, s[i + 2]);
    NotSpace(s, i + 2 + |fs[0].name|, '=');
    assert !IsLetter(',') && !IsLetter(' ');
  }

  // The parameters of a challenge, read in turn.
  lemma {:induction false} ParamsRead(s: string, i: nat, fs: seq<Field>, m: map<string, string>, bare: set<string>)
    requires Readable(fs, bare) && DistinctNames(fs) && At(s, i, Join(Parts(fs, bare), ", "))
    requires i + |Join(Parts(fs, bare), ", ")| == |s|
    requires forall f <- fs :: f.name !in m
    ensures ParamsFrom(s, i, m) == m + Params(fs)
    decreases |fs|
  {
    hide At, Part, ParamAt, Join, Parts, IsName, CanBeBare, UnquoteParam, Params, DistinctNames, ParamsFrom;
    var f := fs[0];
    var m' := m[f.name := f.value.value];
    PartsTail(fs, bare);
    OneReadable(fs, bare);
    PutFirst(fs, m);
    if |fs| == 1 {
      PartReads(s, i, f, bare);
      FirstParam(s, i, m);
      NothingAtEnd(s, m');
    } else {
      var rest := Join(Parts(fs[1..], bare), ", ");
      var j := i + |Part(f, bare)|;
      AtConcat(s, i, Part(f, bare), ", " + rest);
      AtConcat(s, j, ", ", rest);
      AtIndex(s, j, ", ", 0);
      PartReads(s, i, f, bare);
      FirstParam(s, i, m);
      NextPart(s, j, fs[1..], bare);
      SkipTwo(s, j, m');
      ParamsRead(s, j + 2, fs[1..], m', bare);
    }
  }

  lemma PutFirst(fs: seq<Field>, m: map<string, string>)
    requires fs != [] && AllPresent(fs) && DistinctNames(fs) && forall f <- fs :: f.name !in m
    ensures var m' := m[fs[0].name := fs[0].value.value];
      && m' + Params(fs[1..]) == m + Params(fs) && (forall f <- fs[1..] :: f.name !in m')
    ensures DistinctNames(fs[1..]) && (|fs| == 1 ==> Params(fs[1..]) == map[])
  {
    hide IsName;
    var n, v, p := fs[0].name, fs[0].value.value, Params(fs[1..]);
    forall i | 0 <= i < |fs[1..]|
      ensures fs[1..][i].name != n && fs[1..][i].name !in m
    {
      assert fs[1..][i] == fs[i + 1];
    }
    OnlyNames(fs[1..], n);
    assert Params(fs) == p[n := v];
    PutEarlier(m, p, n, v);
  }

  lemma PutEarlier(m: map<string, string>, p: map<string, string>, n: string, v: string)
    requires n !in p
    ensures m[n := v] + p == m + p[n := v]
  {}

  lemma FirstParam(s: string, i: nat, m: map<string, string>)
    requires i <= |s| && ParamAt(s, i).Some?
    ensures var p := ParamAt(s, i).value;
      ParamsFrom(s, i, m) == ParamsFrom(s, p.end, m[s[i..p.keyEnd] := UnquoteParam(s[p.valueStart..p.end])])
  {
    hide ParamAt, UnquoteParam;
  }

  lemma NothingAtEnd(s: string, m: map<string, string>)
    ensures ParamsFrom(s, |s|, m) == m
  {}

  lemma SkipTwo(s: string, i: nat, m: map<string, string>)
    requires i + 2 <= |s| && ParamAt(s, i) == None && ParamAt(s, i + 1) == None
    ensures ParamsFrom(s, i, m) == ParamsFrom(s, i + 2, m)
  {
    hide ParamAt;
    assert NextParam(s, i) == NextParam(s, i + 1) == NextParam(s, i + 2);
  }

  // The values of the challenge that are to be written bare can be.
  predicate BareIn(c: Challenge, bare: set<string>) { CanBeBare(Fields(c), bare) }

  lemma ReadableFields(c: Challenge, bare: set<string>)
    requires BareIn(c, bare)
    ensures var fs := Present(Fields(c));
      AllPresent(fs) && Readable(fs, bare) && DistinctNames(fs) && Validate(Params(fs)) == Some(Received(c, map[])) && fs[0].name == "id"
  {
    hide FromParams, Params, IsName, NAMES, IsToken;
    FieldsDistinct(c);
    PresentAll(Fields(c));
    PresentDistinct(Fields(c));
    FromParamsOf(c);
    assert Present(Fields(c))[0] == Fields(c)[0];
    var fs := Present(Fields(c));
    assert forall f <- fs :: IsName(f.name);
    FieldNames(c);
    NoOthers(fs);
  }

  lemma FieldNames(c: Challenge)
    ensures forall f <- Present(Fields(c)) :: f.name in NAMES
  {
    hide Present;
    PresentAll(Fields(c));
    assert forall f <- Fields(c) :: f.name in NAMES;
  }

  lemma NoOthers(fs: seq<Field>)
    requires forall f <- fs :: f.name in NAMES
    ensures Params(fs) - NAMES == map[]
  {
    forall k | k in Params(fs) ensures k in NAMES {
      if k !in NAMES { OnlyNames(fs, k); }
    }
  }

  lemma PaymentReads(s: string, i: nat)
    requires At(s, i, "Payment ")
    ensures PaymentAt(s, i) && Is(s, i + 7, ' ') && Is(s, i, 'P')
  {
    AtChars(s, i, "Payment ");
    var p := "Payment ";
    hide At;
    assert s[i] == p[0] && s[i + 1] == p[1] && s[i + 2] == p[2] && s[i + 3] == p[3];
    assert s[i + 4] == p[4] && s[i + 5] == p[5] && s[i + 6] == p[6] && s[i + 7] == p[7];
  }

  // One challenge is found where it was written and read as it was.
  lemma ChallengeReads(s: string, i: nat, c: Challenge, bare: set<string>)
    requires BareIn(c, bare) && At(s, i, ChallengeText(c, bare)) && Ends(s, i + |ChallengeText(c, bare)|)
    ensures var e := i + |ChallengeText(c, bare)|;
      && e <= |s| && ChallengeAt(s, i) == Some((i + 8, e))
      && Validate(ParamsFrom(s[i + 8..e], 0, map[])) == Some(Received(c, map[]))
  {
    hide At, Fields, Present, Join, Parts, PaymentAt, Ends, IsSpace, Readable, ParamsEnd, ParamsFrom;
    var fs := Present(Fields(c));
    ReadableFields(c, bare);
    var t := Join(Parts(fs, bare), ", ");
    AtConcat(s, i, "Payment ", t);
    PaymentReads(s, i);
    EndFollows(s, i + 8 + |t|);
    ParamsEndAt(s, i + 8, fs, bare);
    FirstLetter(s, i + 8, fs, bare);
    OneSpace(s, i + 7, s[i + 8]);
    AtIs(s, i + 8, t);
    var u := s[i + 8..i + 8 + |t|];
    AtWhole(t);
    ParamsRead(u, 0, fs, map[], bare);
    assert map[] + Params(fs) == Params(fs);
  }

  lemma FirstLetter(s: string, i: nat, fs: seq<Field>, bare: set<string>)
    requires Readable(fs, bare) && At(s, i, Join(Parts(fs, bare), ", ")) && Follows(s, i + |Join(Parts(fs, bare), ", ")|)
    ensures i < |s| && Join(Parts(fs, bare), ", ") != "" && !IsSpace(s[i]) && (fs[0].name == "id" ==> s[i] == 'i')
  {
    hide At, Join, Parts, IsSpace, IsName, CanBeBare;
    FirstPart(s, i, fs, bare);
    SpaceIsSpace();
    assert fs[0].name == "id" ==> s[i] == s[i..i + |fs[0].name|][0] == "id"[0];
  }

  lemma FormatTail(cs: seq<Challenge>, bare: set<string>)
    requires cs != []
    ensures |cs| == 1 ==> Written(cs, bare) == ChallengeText(cs[0], bare)
    ensures |cs| > 1 ==> Written(cs, bare) == ChallengeText(cs[0], bare) + (", " + Written(cs[1..], bare))
  {
    hide ChallengeText;
    var all := seq(|cs|, i requires 0 <= i < |cs| => ChallengeText(cs[i], bare));
    if |cs| > 1 { assert all[1..] == seq(|cs| - 1, i requires 0 <= i < |cs| - 1 => ChallengeText(cs[1..][i], bare)); }
  }

  lemma NextEnds(s: string, i: nat, cs: seq<Challenge>, bare: set<string>)
    requires cs != [] && At(s, i, ", ") && At(s, i + 2, Written(cs, bare)) && i + 2 + |Written(cs, bare)| == |s|
    requires BareIn(cs[0], bare)
    ensures Ends(s, i) && i + 2 <= |s| && ChallengeAt(s, i) == None && ChallengeAt(s, i + 1) == None
  {
    hide At, Written, Fields, Present, Join, Parts, IsSpace, Readable;
    FormatTail(cs, bare);
    var fs := Present(Fields(cs[0]));
    ReadableFields(cs[0], bare);
    var t := Join(Parts(fs, bare), ", ");
    if |cs| > 1 {
      AtConcat(s, i + 2, ChallengeText(cs[0], bare), ", " + Written(cs[1..], bare));
      AtConcat(s, i + 2 + |ChallengeText(cs[0], bare)|, ", ", Written(cs[1..], bare));
      AtIndex(s, i + 2 + |ChallengeText(cs[0], bare)|, ", ", 0);
    }
    AtConcat(s, i + 2, "Payment ", t);
    FirstLetter(s, i + 10, fs, bare);
    AtIndex(s, i, ", ", 0);
    AtIndex(s, i, ", ", 1);
    PaymentReads(s, i + 2);
    NotPayment(s, i);
    NotPayment(s, i + 1);
  }

  lemma NotPayment(s: string, i: nat)
    requires Is(s, i, ',') || Is(s, i, ' ')
    ensures ChallengeAt(s, i) == None
  {
    assert i + 7 <= |s| ==> Lowered(s[i + 0]) != PAYMENT[0];
  }

  // The challenges, without other parameters.
  function AsSent(cs: seq<Challenge>): seq<Received> {
    seq(|cs|, i requires 0 <= i < |cs| => Received(cs[i], map[]))
  }

  lemma {:induction false} ChallengesRead(s: string, i: nat, cs: seq<Challenge>, bare: set<string>)
    requires At(s, i, Written(cs, bare)) && i + |Written(cs, bare)| == |s| && forall c <- cs :: BareIn(c, bare)
    ensures ChallengesFrom(s, i) == AsSent(cs)
    decreases |cs|
  {
    hide At, Written, ChallengeText, ChallengeAt, Validate, ParamsFrom, BareIn;
    if cs == [] {
      FormatNothing(bare);
      NoneAtEnd(s);
    } else {
      FormatTail(cs, bare);
      var e := i + |ChallengeText(cs[0], bare)|;
      if |cs| == 1 {
        ChallengeReads(s, i, cs[0], bare);
        NoneAtEnd(s);
        assert ChallengesFrom(s, e) == [];
      } else {
        var rest := Written(cs[1..], bare);
        AtConcat(s, i, ChallengeText(cs[0], bare), ", " + rest);
        AtConcat(s, e, ", ", rest);
        NextEnds(s, e, cs[1..], bare);
        ChallengeReads(s, i, cs[0], bare);
        assert NextChallenge(s, e) == NextChallenge(s, e + 1) == NextChallenge(s, e + 2);
        ChallengesRead(s, e + 2, cs[1..], bare);
        assert ChallengesFrom(s, e) == ChallengesFrom(s, e + 2);
      }
      assert [Received(cs[0], map[])] + AsSent(cs[1..]) == AsSent(cs);
    }
  }

  lemma FormatNothing(bare: set<string>)
    ensures Written([], bare) == ""
  {}

  lemma NoneAtEnd(s: string)
    ensures NextChallenge(s, |s|) == None
  {}

  // Values that can stand without quotes are read the same with and without them,
  // for every choice of those that do.
  lemma WrittenReads(cs: seq<Challenge>, bare: set<string>)
    requires forall c <- cs :: BareIn(c, bare)
    ensures ChallengesFrom(Written(cs, bare), 0) == AsSent(cs)
  {
    hide Written, ChallengesFrom, BareIn;
    AtWhole(Written(cs, bare));
    ChallengesRead(Written(cs, bare), 0, cs, bare);
  }

  // A client reads from the header exactly the challenges that the server put
  // into it, whatever the texts in them.
  lemma HeaderRoundTrip(cs: seq<Challenge>)
    ensures ChallengesFrom(FormatWWWAuthenticate(cs), 0) == AsSent(cs)
  {
    hide Written, ChallengesFrom;
    WrittenReads(cs, {});
  }

  // ----- white space and case -----

  // White space around the equals sign belongs to no parameter.
  lemma SpacedParam(s: string, i: nat, name: string, a: string, b: string, f: Field, bare: set<string>)
    requires f == Field(name, f.value) && f.value.Some? && IsName(name) && CanBeBare([f], bare)
    requires Blank(a) && Blank(b) && At(s, i, name + (a + ("=" + (b + ValueText(f, bare)))))
    requires Follows(s, i + |name| + |a| + 1 + |b| + |ValueText(f, bare)|)
    ensures var v := i + |name| + |a| + 1 + |b|;
      var e := v + |ValueText(f, bare)|;
      && i + |name| <= |s| && v <= e <= |s| && ParamAt(s, i) == Some(Param(i + |name|, v, e))
      && s[i..i + |name|] == name && UnquoteParam(s[v..e]) == f.value.value
  {
    hide At, IsSpace, ValueText, UnquoteParam, ValueEnd, IsName, CanBeBare, Follows, KeyEnd, SkipSpace;
    var k := i + |name|;
    var q := k + |a|;
    var v := q + 1 + |b|;
    AtConcat(s, i, name, a + ("=" + (b + ValueText(f, bare))));
    AtConcat(s, k, a, "=" + (b + ValueText(f, bare)));
    AtConcat(s, q, "=", b + ValueText(f, bare));
    AtConcat(s, q + 1, b, ValueText(f, bare));
    AtIndex(s, q, "=", 0);
    SpaceIsSpace();
    ValueReads(s, v, f, bare);
    BlankSkips(s, k, a);
    BlankSkips(s, q + 1, b);
    if a != "" {
      AtIndex(s, k, a, 0);
      assert a[0] in a;
    }
    NameReadsAlone(s, i, name);
    AtIs(s, i, name);
  }

  // A name ends where no letter or digit follows it.
  lemma NameReadsAlone(s: string, i: nat, name: string)
    requires At(s, i, name) && IsName(name) && i + |name| < |s|
    requires IsSpace(s[i + |name|]) || s[i + |name|] == '='
    ensures i < |s| && name != "" && KeyEnd(s, i) == i + |name|
  {
    AtIndex(s, i, name, 0);
    assert name[0] in name;
    WordEndsAt(s, i, name, 1);
  }

  lemma {:induction false} WordEndsAt(s: string, i: nat, name: string, k: nat)
    requires At(s, i, name) && (forall c <- name :: IsLetter(c)) && k <= |name| && i + |name| < |s|
    requires IsSpace(s[i + |name|]) || s[i + |name|] == '='
    ensures WordEnd(s, i + k) == i + |name|
    decreases |name| - k
  {
    if k < |name| {
      AtIndex(s, i, name, k);
      WordEndsAt(s, i, name, k + 1);
    }
  }

  // The scheme is read in any case.
  lemma AnyCase(s: string, i: nat)
    requires i + 7 <= |s|
    ensures PaymentAt(s, i) <==> forall k :: 0 <= k < 7 ==> s[i + k] == PAYMENT[k] || s[i + k] as int == PAYMENT[k] as int - 32
  {
    assert forall k :: 0 <= k < 7 ==> 'a' <= PAYMENT[k] <= 'z';
  }

  // And white space around a comma before a parameter belongs to the separator.
  lemma SpacedSeparator(s: string, i: nat, a: string, b: string, name: string, c: string)
    requires Blank(a) && Blank(b) && Blank(c) && IsName(name)
    requires At(s, i, a + ("," + (b + (name + (c + "=")))))
    ensures i <= |s| && SeparatorEnd(s, i) == i + |a| + 1 + |b|
  {
    hide At, IsSpace, IsName, KeyEnd, SkipSpace;
    var q := i + |a|;
    var k := q + 1 + |b|;
    var e := k + |name|;
    AtConcat(s, i, a, "," + (b + (name + (c + "="))));
    AtConcat(s, q, ",", b + (name + (c + "=")));
    AtConcat(s, q + 1, b, name + (c + "="));
    AtConcat(s, k, name, c + "=");
    AtConcat(s, e, c, "=");
    AtIndex(s, q, ",", 0);
    AtIndex(s, e + |c|, "=", 0);
    SpaceIsSpace();
    if c != "" {
      AtIndex(s, e, c, 0);
      assert c[0] in c;
    }
    NameReadsAlone(s, k, name);
    FirstIsLetter(s, k, name);
    BlankSkips(s, i, a);
    BlankSkips(s, q + 1, b);
    BlankSkips(s, e, c);
  }

  lemma FirstIsLetter(s: string, i: nat, name: string)
    requires At(s, i, name) && IsName(name)
    ensures i < |s| && IsLetter(s[i]) && !IsSpace(s[i])
  {
    AtIndex(s, i, name, 0);
    assert name[0] in name;
  }

  // A challenge is valid when the required parameters are there; what no challenge
  // declares is kept beside it.
  lemma ValidatedIs(params: map<string, string>)
    ensures var r := Validate(params);
      && (r.Some? <==> {"id", "realm", "method", "intent", "request"} <= params.Keys)
      && (r.Some? ==>
            && (forall k :: k in r.value.others <==> k in params && k !in NAMES)
            && (forall k <- r.value.others :: r.value.others[k] == params[k])
            && r.value.challenge.id == params["id"] && r.value.challenge.realm == params["realm"]
            && r.value.challenge.methodName == params["method"] && r.value.challenge.intent == params["intent"]
            && r.value.challenge.request == params["request"]
            && r.value.challenge.expires == Lookup(params, "expires")
            && r.value.challenge.description == Lookup(params, "description")
            && r.value.challenge.opaqueData == Lookup(params, "opaque") && r.value.challenge.digest == Lookup(params, "digest"))
  {}
}
