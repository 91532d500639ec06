// The nginx locations of OpenAPI path templates (packages/gateway-nginx/src/path.ts).
module NginxPath {
  import opened Text

  // ----- templates -----

  datatype Token = Lit(c: char) | Param(name: string)

  predicate IsBrace(c: char) { c == '{' || c == '}' }

  predicate IsToken(t: Token) {
    match t
    case Lit(c) => !IsBrace(c)
    case Param(name) => name != "" && forall c <- name :: !IsBrace(c)
  }

  predicate AreTokens(ts: seq<Token>) { forall t <- ts :: IsToken(t) }

  function RenderToken(t: Token): string {
    match t
    case Lit(c) => [c]
    case Param(name) => "{" + name + "}"
  }

  function Render(ts: seq<Token>): string {
    if ts == [] then "" else RenderToken(ts[0]) + Render(ts[1..])
  }

  // Length of the text before the first brace.
  function NameLength(s: string): (n: nat)
    ensures n <= |s| && (n < |s| ==> IsBrace(s[n])) && forall k :: 0 <= k < n ==> !IsBrace(s[k])
  {
    if s == "" || IsBrace(s[0]) then 0 else 1 + NameLength(s[1..])
  }

  // The tokens of a template; None if its braces are not those of parameters.
  function Tokens(s: string): (r: Option<seq<Token>>)
    decreases |s|
  {
    if s == "" then Some([])
    else if !IsBrace(s[0]) then Then(Lit(s[0]), Tokens(s[1..]))
    else
      var n := NameLength(s[1..]);
      if s[0] == '}' || n == 0 || n + 1 == |s| || s[n + 1] == '{' then None
      else Then(Param(s[1..n + 1]), Tokens(s[n + 2..]))
  }

  function Then(t: Token, ts: Option<seq<Token>>): Option<seq<Token>> {
    if ts.None? then None else Some([t] + ts.value)
  }

  lemma {:induction false} NameLengthOf(name: string, rest: string)
    requires (forall k :: 0 <= k < |name| ==> !IsBrace(name[k])) && (rest == "" || IsBrace(rest[0]))
    ensures NameLength(name + rest) == |name|
  {
    if name == "" {
      assert name + rest == rest;
    } else {
      assert (name + rest)[1..] == name[1..] + rest && (name + rest)[0] == name[0];
      NameLengthOf(name[1..], rest);
    }
  }

  lemma LitFirst(c: char, rest: string)
    requires !IsBrace(c)
    ensures Tokens([c] + rest) == Then(Lit(c), Tokens(rest))
  {
    assert ([c] + rest)[1..] == rest;
  }

  lemma ParamFirst(name: string, rest: string)
    requires IsToken(Param(name))
    ensures Tokens("{" + name + "}" + rest) == Then(Param(name), Tokens(rest))
  {
    var s := "{" + name + "}" + rest;
    assert s[1..] == name + ("}" + rest);
    assert forall k :: 0 <= k < |name| ==> name[k] in name;
    NameLengthOf(name, "}" + rest);
    hide NameLength;
    assert s[1..|name| + 1] == name && s[|name| + 1] == '}' && s[|name| + 2..] == rest;
  }

  // Templates and their tokens are the same thing.
  lemma {:induction false} TokensOfRender(ts: seq<Token>)
    requires AreTokens(ts)
    ensures Tokens(Render(ts)) == Some(ts)
  {
    hide Tokens;
    if ts == [] {
      NoTokens();
    } else {
      var rest := Render(ts[1..]);
      assert IsToken(ts[0]);
      TokensOfRender(ts[1..]);
      assert [ts[0]] + ts[1..] == ts;
      match ts[0]
      case Lit(c) => LitFirst(c, rest);
      case Param(name) => ParamFirst(name, rest);
    }
  }

  lemma NoTokens()
    ensures Tokens("") == Some([])
  {}

  lemma {:induction false} RenderOfTokens(s: string)
    requires Tokens(s).Some?
    ensures AreTokens(Tokens(s).value) && Render(Tokens(s).value) == s
    decreases |s|
  {
    hide NameLength, RenderToken, IsToken;
    if s != "" {
      if !IsBrace(s[0]) {
        RenderOfTokens(s[1..]);
        assert s == [s[0]] + s[1..];
        LitIs(s[0]);
        RenderFirst(Lit(s[0]), Tokens(s[1..]).value);
      } else {
        var name, rest := ParamRead(s);
        RenderOfTokens(rest);
        assert RenderToken(Param(name)) == "{" + name + "}" by { ParamIs(name); }
        RenderFirst(Param(name), Tokens(rest).value);
      }
    }
  }

  lemma LitIs(c: char)
    ensures RenderToken(Lit(c)) == [c] && (IsToken(Lit(c)) <==> !IsBrace(c))
  {}

  lemma ParamIs(name: string)
    ensures RenderToken(Param(name)) == "{" + name + "}"
  {}

  lemma ParamRead(s: string) returns (name: string, rest: string)
    requires s != "" && IsBrace(s[0]) && Tokens(s).Some?
    ensures |rest| < |s| && s == "{" + name + "}" + rest && IsToken(Param(name))
    ensures Tokens(s) == Then(Param(name), Tokens(rest))
  {
    var n := NameLength(s[1..]);
    name, rest := s[1..n + 1], s[n + 2..];
    assert forall k :: 0 <= k < n ==> name[k] == s[1..][k];
    assert s[1..][n] == s[n + 1];
  }

  lemma RenderFirst(t: Token, ts: seq<Token>)
    ensures Render([t] + ts) == RenderToken(t) + Render(ts)
    ensures IsToken(t) && AreTokens(ts) ==> AreTokens([t] + ts)
  {
    hide RenderToken, IsToken;
    assert ([t] + ts)[1..] == ts;
  }

  // ----- validatePath -----

  predicate IsAllowed(c: char) { IsLetter(c) || IsDigit(c) || c in "/-._~!$&'()*+,=:@{}" }

  predicate Valid(path: string) {
    path != "" && path[0] == '/' && (forall c <- path :: IsAllowed(c)) && Tokens(path).Some?
  }

  // false: it throws.
  method ValidatePath(path: string) returns (ok: bool)
    ensures ok <==> Valid(path)
  {
    hide IsAllowed;
    if path == "" || path[0] != '/' { return false; }
    if !forall c <- path :: IsAllowed(c) { return false; }
    var depth := 0;
    ghost var open := 0;
    assert path[0..] == path;
    for i := 0 to |path|
      invariant 0 <= depth <= 1
      invariant depth == 0 ==> (Tokens(path).Some? <==> Tokens(path[i..]).Some?)
      invariant depth == 1 ==> open < i && path[open] == '{' && Bare(path, open + 1, i)
      invariant depth == 1 ==> (i < |path| && path[i] == '}' ==> i > open + 1)
      invariant depth == 1 ==> (Tokens(path).Some? <==> Tokens(path[open..]).Some?)
    {
      var ch := path[i];
      assert path[i..][1..] == path[i + 1..];
      if ch == '{' {
        if depth != 0 {
          Unclosed(path, open, i);
          return false;
        }
        if i + 1 < |path| && path[i + 1] == '}' {
          Unclosed(path, i, i + 1);
          return false;
        }
        depth := depth + 1;
        open := i;
      } else if ch == '}' {
        if depth != 1 { return false; }
        depth := depth - 1;
        Closed(path, open, i);
      }
    }
    if depth != 0 {
      Unclosed(path, open, |path|);
      return false;
    }
    return true;
  }

  // No brace in path[i..j].
  predicate Bare(path: string, i: nat, j: nat) {
    i <= j <= |path| && forall k :: i <= k < j ==> !IsBrace(path[k])
  }

  lemma NameLengthAt(path: string, open: nat, i: nat)
    requires open < |path| && Bare(path, open + 1, i) && (i < |path| ==> IsBrace(path[i]))
    ensures NameLength(path[open..][1..]) == i - open - 1
  {
    assert path[open..][1..] == path[open + 1..i] + path[i..];
    NameLengthOf(path[open + 1..i], path[i..]);
  }

  lemma Unclosed(path: string, open: nat, i: nat)
    requires open < |path| && path[open] == '{' && Bare(path, open + 1, i)
    requires i == |path| || path[i] == '{' || (path[i] == '}' && i == open + 1)
    ensures Tokens(path[open..]).None?
  {
    NameLengthAt(path, open, i);
    assert i < |path| ==> path[open..][i - open] == path[i];
  }

  lemma Closed(path: string, open: nat, i: nat)
    requires open < i < |path| && path[open] == '{' && Bare(path, open + 1, i) && path[i] == '}' && i > open + 1
    ensures Tokens(path[open..]).Some? <==> Tokens(path[i + 1..]).Some?
  {
    NameLengthAt(path, open, i);
    assert path[open..][i - open] == path[i] && path[open..][i - open + 1..] == path[i + 1..];
  }

  // ----- /\{[^}]+\}/ -----

  // Length of the text before the first closing brace.
  function CloseLength(s: string): (n: nat)
    ensures n <= |s|
  {
    if s == "" || s[0] == '}' then 0 else 1 + CloseLength(s[1..])
  }

  // Length of the match at the start of s; 0 if there is none.
  function MatchLength(s: string): (n: nat)
    ensures n <= |s|
  {
    if s == "" || s[0] != '{' then 0
    else
      var n := CloseLength(s[1..]);
      if n == 0 || n + 1 == |s| then 0 else n + 2
  }

  predicate HasParams(s: string) { s != "" && (MatchLength(s) > 0 || HasParams(s[1..])) }

  datatype Pieces = Pieces(segments: seq<string>, params: seq<string>)

  // split and match with the global pattern.
  function SplitParams(s: string): (p: Pieces)
    ensures |p.segments| == |p.params| + 1
    decreases |s|
  {
    if s == "" then Pieces([""], [])
    else
      var n := MatchLength(s);
      if n > 0 then
        var rest := SplitParams(s[n..]);
        Pieces([""] + rest.segments, [s[..n]] + rest.params)
      else
        var rest := SplitParams(s[1..]);
        Pieces([[s[0]] + rest.segments[0]] + rest.segments[1..], rest.params)
  }

  // ----- toRegexLocation -----

  const REPLACEMENT := "([^/]+)"

  predicate IsMeta(c: char) { c in ".+*?^${}()|[]\\" }

  function EscapeChar(c: char): string { if IsMeta(c) then ['\\', c] else [c] }

  function Escape(s: string): string { if s == "" then "" else EscapeChar(s[0]) + Escape(s[1..]) }

  function Weave(segments: seq<string>, i: nat): string
    requires i < |segments|
    decreases |segments| - i
  {
    Escape(segments[i]) + (if i + 1 < |segments| then REPLACEMENT + Weave(segments, i + 1) else "")
  }

  method ToRegexLocation(path: string) returns (directive: string)
    ensures directive == "~ ^" + Weave(SplitParams(path).segments, 0) + "$"
  {
    hide SplitParams, Escape;
    var pieces := SplitParams(path);
    var segments, params := pieces.segments, pieces.params;
    var regex := "";
    for i := 0 to |segments|
      invariant i < |segments| ==> regex + Weave(segments, i) == Weave(segments, 0)
      invariant i == |segments| ==> regex == Weave(segments, 0)
    {
      ghost var before := regex;
      regex := regex + Escape(segments[i]);
      if i < |params| {
        regex := regex + REPLACEMENT;
        assert before + Weave(segments, i) == regex + Weave(segments, i + 1);
      }
    }
    return "~ ^" + regex + "$";
  }

  // None: it throws.
  method ConvertPath(path: string) returns (directive: Option<string>)
    ensures directive == Location(path)
  {
    hide HasParams, Weave, SplitParams;
    var ok := ValidatePath(path);
    if !ok { return None; }
    if HasParams(path) {
      var d := ToRegexLocation(path);
      return Some(d);
    }
    return Some("= " + path);
  }

  function Location(path: string): Option<string> {
    if !Valid(path) then None
    else if HasParams(path) then Some("~ ^" + Weave(SplitParams(path).segments, 0) + "$")
    else Some("= " + path)
  }

  // ----- what nginx makes of a location -----

  datatype Atom = Char(c: char) | Segment

  // A character that is not special stands for itself, a backslash makes the
  // next one stand for itself unless it is a letter or a digit, and ([^/]+)
  // stands for some characters other than slashes.
  function ReadRegex(t: string): Option<seq<Atom>>
    decreases |t|
  {
    if t == "" then Some([])
    else if REPLACEMENT <= t then Also(Segment, ReadRegex(t[|REPLACEMENT|..]))
    else if t[0] == '\\' then
      if |t| == 1 || IsLetter(t[1]) || IsDigit(t[1]) then None else Also(Char(t[1]), ReadRegex(t[2..]))
    else if IsMeta(t[0]) then None
    else Also(Char(t[0]), ReadRegex(t[1..]))
  }

  function Also(a: Atom, rest: Option<seq<Atom>>): Option<seq<Atom>> {
    if rest.None? then None else Some([a] + rest.value)
  }

  predicate SlashFree(s: string) { forall k :: 0 <= k < |s| ==> s[k] != '/' }

  ghost predicate Matches(atoms: seq<Atom>, url: string) {
    if atoms == [] then url == ""
    else
      match atoms[0]
      case Char(c) => url != "" && url[0] == c && Matches(atoms[1..], url[1..])
      case Segment => exists k :: 0 < k <= |url| && SlashFree(url[..k]) && Matches(atoms[1..], url[k..])
  }

  // The location takes the URL. The dollar of a regular expression also matches
  // before a newline that ends the subject.
  ghost predicate Takes(directive: string, url: string) {
    if "= " <= directive then url == directive[2..]
    else if "~ ^" <= directive && |directive| > 3 && directive[|directive| - 1] == '$' then
      var atoms := ReadRegex(directive[3..|directive| - 1]);
      atoms.Some? && (Matches(atoms.value, url) || (EndsLine(url) && Matches(atoms.value, url[..|url| - 1])))
    else false
  }

  predicate EndsLine(url: string) { url != "" && url[|url| - 1] == '\n' }

  // ----- what a template stands for -----

  function ParamCount(ts: seq<Token>): nat {
    if ts == [] then 0 else (if ts[0].Param? then 1 else 0) + ParamCount(ts[1..])
  }

  function Fill(ts: seq<Token>, values: seq<string>): string
    requires |values| == ParamCount(ts)
  {
    if ts == [] then ""
    else
      match ts[0]
      case Lit(c) => [c] + Fill(ts[1..], values)
      case Param(_) => values[0] + Fill(ts[1..], values[1..])
  }

  predicate Fills(ts: seq<Token>, values: seq<string>, url: string) {
    |values| == ParamCount(ts) && Fill(ts, values) == url && forall v <- values :: v != "" && SlashFree(v)
  }

  // The URL is the template with each parameter replaced by a non-empty text without slashes.
  ghost predicate IsFilling(ts: seq<Token>, url: string) { exists values :: Fills(ts, values, url) }

  // ----- the emitted text -----

  function Emitted(ts: seq<Token>): string {
    if ts == [] then ""
    else (match ts[0] case Lit(c) => EscapeChar(c) case Param(_) => REPLACEMENT) + Emitted(ts[1..])
  }

  function Atoms(ts: seq<Token>): seq<Atom> {
    if ts == [] then []
    else [match ts[0] case Lit(c) => Char(c) case Param(_) => Segment] + Atoms(ts[1..])
  }

  lemma {:induction false} CloseLengthOf(name: string, rest: string)
    requires forall k :: 0 <= k < |name| ==> name[k] != '}'
    ensures CloseLength(name + "}" + rest) == |name|
  {
    if name != "" {
      assert (name + "}" + rest)[1..] == name[1..] + "}" + rest;
      CloseLengthOf(name[1..], rest);
    }
  }

  lemma ParamMatches(name: string, rest: string)
    requires IsToken(Param(name))
    ensures MatchLength("{" + name + "}" + rest) == |name| + 2
  {
    assert ("{" + name + "}" + rest)[1..] == name + "}" + rest;
    assert forall k :: 0 <= k < |name| ==> name[k] in name;
    CloseLengthOf(name, rest);
  }

  // Splitting, escaping and joining gives each token its own regular expression.
  lemma {:induction false} WeaveIsEmitted(ts: seq<Token>)
    requires AreTokens(ts)
    ensures Weave(SplitParams(Render(ts)).segments, 0) == Emitted(ts)
    ensures HasParams(Render(ts)) <==> ParamCount(ts) > 0
  {
    hide MatchLength, EscapeChar;
    if ts == [] {
      assert Weave([""], 0) == "";
    } else {
      assert IsToken(ts[0]);
      WeaveIsEmitted(ts[1..]);
      var s, rest := Render(ts), Render(ts[1..]);
      var r := SplitParams(rest).segments;
      match ts[0]
      case Lit(c) =>
        assert s[1..] == rest;
        NoMatch(s);
        assert SplitParams(s).segments == [[c] + r[0]] + r[1..];
        WeaveChar(c, r);
      case Param(name) =>
        ParamMatches(name, rest);
        assert s == "{" + name + "}" + rest;
        assert s[|name| + 2..] == rest;
        assert SplitParams(s).segments == [""] + r;
        WeaveShift("", r, 0);
    }
  }

  lemma NoMatch(s: string)
    requires s != "" && s[0] != '{'
    ensures MatchLength(s) == 0
  {}

  lemma {:induction false} WeaveShift(first: string, r: seq<string>, i: nat)
    requires i < |r|
    ensures Weave([first] + r, i + 1) == Weave(r, i)
    ensures i == 0 ==> Weave([first] + r, 0) == Escape(first) + REPLACEMENT + Weave(r, 0)
    decreases |r| - i
  {
    hide Escape;
    if i + 1 < |r| { WeaveShift(first, r, i + 1); }
  }

  lemma WeaveHead(r: seq<string>)
    requires r != []
    ensures Weave(r, 0) == Escape(r[0]) + (if |r| > 1 then REPLACEMENT + Weave(r[1..], 0) else "")
  {
    hide Escape;
    if |r| > 1 {
      assert [r[0]] + r[1..] == r;
      WeaveShift(r[0], r[1..], 0);
    }
  }

  lemma WeaveChar(c: char, r: seq<string>)
    requires r != []
    ensures Weave([[c] + r[0]] + r[1..], 0) == EscapeChar(c) + Weave(r, 0)
  {
    hide EscapeChar, Escape, Weave;
    var r' := [[c] + r[0]] + r[1..];
    EscapeFirst(c, r[0]);
    WeaveHead(r);
    assert r'[1..] == r[1..];
    WeaveHead(r');
  }

  lemma EscapeFirst(c: char, s: string)
    ensures Escape([c] + s) == EscapeChar(c) + Escape(s)
  {
    hide EscapeChar;
    assert ([c] + s)[1..] == s;
  }

  lemma EscapedReads(c: char, rest: string)
    requires IsAllowed(c)
    ensures ReadRegex(EscapeChar(c) + rest) == Also(Char(c), ReadRegex(rest))
  {
    var t := EscapeChar(c) + rest;
    assert REPLACEMENT[0] == '(' && IsMeta('(');
    if IsMeta(c) {
      assert t[2..] == rest;
      assert !IsLetter(c) && !IsDigit(c);
    } else {
      assert t[1..] == rest;
      assert IsMeta('\\');
    }
  }

  // The text is read back as one atom a token.
  lemma {:induction false} ReadEmitted(ts: seq<Token>)
    requires forall t <- ts :: t.Lit? ==> IsAllowed(t.c)
    ensures ReadRegex(Emitted(ts)) == Some(Atoms(ts))
  {
    hide IsAllowed, EscapeChar;
    if ts != [] {
      ReadEmitted(ts[1..]);
      var rest := Emitted(ts[1..]);
      assert ts[0] in ts;
      match ts[0]
      case Lit(c) => EscapedReads(c, rest);
      case Param(_) => assert (REPLACEMENT + rest)[|REPLACEMENT|..] == rest;
    }
  }

  lemma FillsRest(ts: seq<Token>, values: seq<string>, url: string)
    requires ts != [] && Fills(ts, values, url)
    ensures ts[0].Lit? ==> url != "" && url == [ts[0].c] + url[1..] && Fills(ts[1..], values, url[1..])
    ensures ts[0].Param? ==>
      && values != [] && values[0] != "" && SlashFree(values[0]) && |values[0]| <= |url|
      && url == values[0] + url[|values[0]|..] && Fills(ts[1..], values[1..], url[|values[0]|..])
  {
    hide SlashFree;
    if ts[0].Param? {
      assert values[0] in values;
      forall v | v in values[1..] ensures v != "" && SlashFree(v) { assert v in values; }
      assert url[|values[0]|..] == Fill(ts[1..], values[1..]);
    } else {
      assert url[1..] == Fill(ts[1..], values);
    }
  }

  lemma {:induction false} MatchesFilling(ts: seq<Token>, values: seq<string>, url: string)
    requires Fills(ts, values, url)
    ensures Matches(Atoms(ts), url)
    decreases |ts|
  {
    hide Fills;
    if ts == [] {
      FillsNothing(values, url);
    } else {
      assert Atoms(ts)[1..] == Atoms(ts[1..]);
      FillsRest(ts, values, url);
      match ts[0]
      case Lit(c) => MatchesFilling(ts[1..], values, url[1..]);
      case Param(_) =>
        var k := |values[0]|;
        assert url[..k] == values[0];
        MatchesFilling(ts[1..], values[1..], url[k..]);
    }
  }

  lemma FillsNothing(values: seq<string>, url: string)
    requires Fills([], values, url)
    ensures url == ""
  {}

  lemma {:induction false} FillingOfMatch(ts: seq<Token>, url: string) returns (values: seq<string>)
    requires Matches(Atoms(ts), url)
    ensures Fills(ts, values, url)
  {
    values := [];
    if ts != [] {
      assert Atoms(ts)[1..] == Atoms(ts[1..]);
      match ts[0]
      case Lit(c) => values := FillingOfMatch(ts[1..], url[1..]);
      case Param(_) =>
        var k: nat :| 0 < k <= |url| && SlashFree(url[..k]) && Matches(Atoms(ts[1..]), url[k..]);
        var rest := FillingOfMatch(ts[1..], url[k..]);
        values := [url[..k]] + rest;
        assert values[1..] == rest && url == url[..k] + url[k..];
    }
  }

  lemma MatchesIffFilling(ts: seq<Token>, url: string)
    ensures Matches(Atoms(ts), url) <==> IsFilling(ts, url)
  {
    hide Matches, Atoms, Fill;
    if Matches(Atoms(ts), url) { var values := FillingOfMatch(ts, url); }
    if IsFilling(ts, url) {
      var values :| Fills(ts, values, url);
      MatchesFilling(ts, values, url);
    }
  }

  lemma {:induction false} FillNothing(ts: seq<Token>)
    requires ParamCount(ts) == 0
    ensures Fill(ts, []) == Render(ts)
  {
    if ts != [] { FillNothing(ts[1..]); }
  }

  // The location of a valid template takes exactly the URLs that fill it and, if
  // it has parameters, those followed by one newline.
  lemma LocationTakesFillings(path: string, url: string)
    requires Valid(path)
    ensures Location(path).Some?
    ensures var ts := Tokens(path).value;
      Takes(Location(path).value, url) <==>
        IsFilling(ts, url) || (HasParams(path) && EndsLine(url) && IsFilling(ts, url[..|url| - 1]))
  {
    hide HasParams, Weave, SplitParams, Matches, Tokens, Render, IsAllowed, Fills, ParamCount;
    var ts := Tokens(path).value;
    RenderOfTokens(path);
    WeaveIsEmitted(ts);
    var d := Location(path).value;
    if HasParams(path) {
      LiteralsAllowed(path, ts);
      ReadEmitted(ts);
      assert d[0] == '~' && d[..3] == "~ ^" && d[3..|d| - 1] == Emitted(ts);
      MatchesIffFilling(ts, url);
      if EndsLine(url) { MatchesIffFilling(ts, url[..|url| - 1]); }
    } else {
      assert d[2..] == path;
      OnlyFilling(ts, url);
    }
  }

  lemma OnlyFilling(ts: seq<Token>, url: string)
    requires ParamCount(ts) == 0
    ensures IsFilling(ts, url) <==> url == Render(ts)
  {
    FillNothing(ts);
    assert url == Render(ts) ==> Fills(ts, [], url);
  }

  lemma {:induction false} LiteralsAllowed(path: string, ts: seq<Token>)
    requires path == Render(ts) && forall c <- path :: IsAllowed(c)
    ensures forall t <- ts :: t.Lit? ==> IsAllowed(t.c)
    decreases |ts|
  {
    hide IsAllowed;
    if ts != [] {
      var first, rest := RenderToken(ts[0]), Render(ts[1..]);
      forall c | c in rest ensures IsAllowed(c) { assert c in path; }
      LiteralsAllowed(rest, ts[1..]);
      assert path[0] in path;
      assert ts == [ts[0]] + ts[1..];
    }
  }

  // ----- overlaps -----

  // split("/")
  function Split(s: string): (r: seq<string>)
    ensures |r| > 0
  {
    if s == "" then [""]
    else if s[0] == '/' then [""] + Split(s[1..])
    else [[s[0]] + Split(s[1..])[0]] + Split(s[1..])[1..]
  }

  predicate MayOverlap(a: string, b: string) {
    var aParts, bParts := Split(a), Split(b);
    && |aParts| == |bParts|
    && forall i :: 0 <= i < |aParts| ==> HasParams(aParts[i]) || HasParams(bParts[i]) || aParts[i] == bParts[i]
  }

  method CouldOverlap(a: string, b: string) returns (r: bool)
    ensures r <==> MayOverlap(a, b)
  {
    hide HasParams, Split;
    var aParts, bParts := Split(a), Split(b);
    if |aParts| != |bParts| { return false; }
    for i := 0 to |aParts|
      invariant forall k :: 0 <= k < i ==> HasParams(aParts[k]) || HasParams(bParts[k]) || aParts[k] == bParts[k]
    {
      if !HasParams(aParts[i]) && !HasParams(bParts[i]) && aParts[i] != bParts[i] { return false; }
    }
    return true;
  }

  function WithParams(paths: seq<string>): (r: seq<string>)
    ensures forall p <- r :: p in paths && HasParams(p)
  {
    if paths == [] then [] else (if HasParams(paths[0]) then [paths[0]] else []) + WithParams(paths[1..])
  }

  // The overlapping pairs of ps[i] and those from j on; then of all from i on.
  function PairsOf(ps: seq<string>, i: nat, j: nat): seq<(string, string)>
    requires i < |ps|
    decreases |ps| - j
  {
    if j >= |ps| then [] else (if MayOverlap(ps[i], ps[j]) then [(ps[i], ps[j])] else []) + PairsOf(ps, i, j + 1)
  }

  function Pairs(ps: seq<string>, i: nat): seq<(string, string)>
    decreases |ps| - i
  {
    if i >= |ps| then [] else PairsOf(ps, i, i + 1) + Pairs(ps, i + 1)
  }

  // A warning is the pair that it names.
  method DetectOverlaps(paths: seq<string>) returns (warnings: seq<(string, string)>)
    ensures warnings == Pairs(WithParams(paths), 0)
  {
    hide MayOverlap, PairsOf, Pairs, WithParams;
    warnings := [];
    var regexPaths := WithParams(paths);
    for i := 0 to |regexPaths|
      invariant warnings + Pairs(regexPaths, i) == Pairs(regexPaths, 0)
    {
      PairsStep(regexPaths, i);
      assert warnings + PairsOf(regexPaths, i, i + 1) + Pairs(regexPaths, i + 1)
          == warnings + (PairsOf(regexPaths, i, i + 1) + Pairs(regexPaths, i + 1));
      for j := i + 1 to |regexPaths|
        invariant warnings + PairsOf(regexPaths, i, j) + Pairs(regexPaths, i + 1) == Pairs(regexPaths, 0)
      {
        PairsOfStep(regexPaths, i, j);
        var overlap := CouldOverlap(regexPaths[i], regexPaths[j]);
        ghost var before := warnings;
        if overlap { warnings := warnings + [(regexPaths[i], regexPaths[j])]; }
        assert before + PairsOf(regexPaths, i, j) == warnings + PairsOf(regexPaths, i, j + 1);
      }
      PairsOfStep(regexPaths, i, |regexPaths|);
    }
    PairsEnd(regexPaths);
  }

  lemma PairsStep(ps: seq<string>, i: nat)
    requires i < |ps|
    ensures Pairs(ps, i) == PairsOf(ps, i, i + 1) + Pairs(ps, i + 1)
  {
    hide PairsOf;
  }

  lemma PairsEnd(ps: seq<string>)
    ensures Pairs(ps, |ps|) == []
  {}

  lemma PairsOfStep(ps: seq<string>, i: nat, j: nat)
    requires i < |ps|
    ensures PairsOf(ps, i, j) ==
      if j >= |ps| then [] else (if MayOverlap(ps[i], ps[j]) then [(ps[i], ps[j])] else []) + PairsOf(ps, i, j + 1)
  {
    hide MayOverlap;
  }

  lemma {:induction false} PairOf(ps: seq<string>, i: nat, j: nat, k: nat)
    requires i < |ps| && j <= k < |ps| && MayOverlap(ps[i], ps[k])
    ensures (ps[i], ps[k]) in PairsOf(ps, i, j)
    decreases k - j
  {
    hide MayOverlap;
    if j < k { PairOf(ps, i, j + 1, k); }
  }

  lemma {:induction false} PairIn(ps: seq<string>, from: nat, i: nat, k: nat)
    requires from <= i < k < |ps| && MayOverlap(ps[i], ps[k])
    ensures (ps[i], ps[k]) in Pairs(ps, from)
    decreases i - from
  {
    hide MayOverlap, PairsOf;
    if from < i { PairIn(ps, from + 1, i, k); } else { PairOf(ps, i, i + 1, k); }
  }

  // No parameter has a slash in its name.
  predicate PlainNames(path: string) {
    Tokens(path).Some? && forall t <- Tokens(path).value :: t.Param? ==> SlashFree(t.name)
  }

  lemma {:induction false} SplitPrefix(t: string, s: string)
    requires SlashFree(t)
    ensures Split(t + s) == [t + Split(s)[0]] + Split(s)[1..]
  {
    var r := Split(s);
    if t == "" {
      assert t + s == s && "" + r[0] == r[0] && r == [r[0]] + r[1..];
    } else {
      assert (t + s)[1..] == t[1..] + s && (t + s)[0] == t[0];
      SplitPrefix(t[1..], s);
      assert [t[0]] + (t[1..] + r[0]) == t + r[0];
    }
  }

  // Part by part, a template has a parameter or is what it is filled with.
  lemma {:induction false} PartsOfFilling(ts: seq<Token>, values: seq<string>, url: string)
    requires AreTokens(ts) && (forall t <- ts :: t.Param? ==> SlashFree(t.name)) && Fills(ts, values, url)
    ensures PartsAgree(Split(Render(ts)), Split(url))
    decreases |ts|
  {
    hide HasParams, IsToken, PartsAgree, SlashFree, Fills;
    if ts == [] {
      FillsNothing(values, url);
      NothingAgrees();
    } else {
      FillsRest(ts, values, url);
      assert ts[0] in ts;
      var p := Render(ts[1..]);
      match ts[0]
      case Lit(c) =>
        var u := url[1..];
        PartsOfFilling(ts[1..], values, u);
        AgreeAfterChar(c, p, u);
      case Param(name) =>
        var u := url[|values[0]|..];
        assert IsToken(ts[0]) && SlashFree(ts[0].name);
        PartsOfFilling(ts[1..], values[1..], u);
        AgreeAfterParam(name, values[0], p, u);
    }
  }

  lemma NothingAgrees()
    ensures PartsAgree(Split(""), Split(""))
  {}

  lemma AgreeAfterChar(c: char, p: string, u: string)
    requires PartsAgree(Split(p), Split(u))
    ensures PartsAgree(Split([c] + p), Split([c] + u))
  {
    hide HasParams, Split;
    SplitChar(c, p);
    SplitChar(c, u);
    KeepsParams(c, Split(p)[0]);
  }

  lemma SplitChar(c: char, s: string)
    ensures Split([c] + s) == if c == '/' then [""] + Split(s) else [[c] + Split(s)[0]] + Split(s)[1..]
  {
    assert ([c] + s)[1..] == s;
  }

  lemma AgreeAfterParam(name: string, value: string, p: string, u: string)
    requires PartsAgree(Split(p), Split(u)) && IsToken(Param(name)) && SlashFree(name) && SlashFree(value)
    ensures PartsAgree(Split("{" + name + "}" + p), Split(value + u))
  {
    hide HasParams, Split;
    var t := "{" + name + "}";
    SplitPrefix(t, p);
    SplitPrefix(value, u);
    TokenHasParams(name, Split(p)[0]);
  }

  lemma TokenHasParams(name: string, rest: string)
    requires IsToken(Param(name))
    ensures HasParams("{" + name + "}" + rest)
  {
    ParamMatches(name, rest);
  }

  predicate PartsAgree(ps: seq<string>, us: seq<string>) {
    |ps| == |us| && forall i :: 0 <= i < |ps| ==> HasParams(ps[i]) || ps[i] == us[i]
  }

  lemma KeepsParams(c: char, s: string)
    ensures HasParams(s) ==> HasParams([c] + s)
  {
    assert ([c] + s)[1..] == s;
  }

  // Two templates that are filled by one URL may overlap.
  lemma SharedUrlOverlaps(a: string, b: string, url: string)
    requires Valid(a) && Valid(b) && PlainNames(a) && PlainNames(b)
    requires Takes(Location(a).value, url) && Takes(Location(b).value, url)
    ensures MayOverlap(a, b)
  {
    hide Takes, HasParams, Split, Tokens, IsAllowed;
    LocationTakesFillings(a, url);
    LocationTakesFillings(b, url);
    var short := if EndsLine(url) then url[..|url| - 1] else url;
    assert EndsLine(url) ==> url == short + "\n";
    PartsOfShort(a, url, short);
    PartsOfShort(b, url, short);
  }

  lemma PartsOfShort(path: string, url: string, short: string)
    requires Valid(path) && PlainNames(path) && (url == short || url == short + "\n")
    requires IsFilling(Tokens(path).value, url) || IsFilling(Tokens(path).value, short)
    ensures PartsAgree(Split(path), Split(short))
  {
    hide HasParams, Split, Tokens, IsAllowed, IsFilling;
    if IsFilling(Tokens(path).value, short) {
      PartsOf(path, short);
    } else {
      PartsOf(path, url);
      NoNewline(path);
      SplitEnd(short);
    }
  }

  lemma PartsOf(path: string, url: string)
    requires Valid(path) && PlainNames(path) && IsFilling(Tokens(path).value, url)
    ensures PartsAgree(Split(path), Split(url))
  {
    hide Tokens, Render, Split, IsAllowed, PartsAgree;
    RenderOfTokens(path);
    var values :| Fills(Tokens(path).value, values, url);
    PartsOfFilling(Tokens(path).value, values, url);
  }

  lemma {:induction false} SplitEnd(s: string)
    ensures var r := Split(s);
      Split(s + "\n") == r[..|r| - 1] + [r[|r| - 1] + "\n"]
  {
    var r := Split(s);
    if s == "" {
      assert Split("") == [""] && "\n"[1..] == "" && ['\n'] + "" == "\n";
      assert s + "\n" == "\n" && r[0] + "\n" == "\n" && r[..0] + ["\n"] == ["\n"];
      assert Split("\n") == ["\n"];
    } else {
      assert (s + "\n")[1..] == s[1..] + "\n" && (s + "\n")[0] == s[0];
      var t := Split(s[1..]);
      SplitEnd(s[1..]);
      if s[0] == '/' {
        assert r[..|r| - 1] == [""] + t[..|t| - 1] && r[|r| - 1] == t[|t| - 1];
      } else if |t| > 1 {
        assert r[..|r| - 1] == [r[0]] + t[1..|t| - 1] && r[|r| - 1] == t[|t| - 1];
      } else {
        assert r == [[s[0]] + t[0]] && [s[0]] + (t[0] + "\n") == ([s[0]] + t[0]) + "\n";
      }
    }
  }

  lemma NoNewline(path: string)
    requires Valid(path)
    ensures forall i :: 0 <= i < |Split(path)| ==> !EndsLine(Split(path)[i])
  {
    hide Tokens;
    assert !IsAllowed('\n');
    assert forall k :: 0 <= k < |path| ==> path[k] in path;
    SplitNoNewline(path);
  }

  predicate NewlineFree(s: string) { forall k :: 0 <= k < |s| ==> s[k] != '\n' }

  lemma {:induction false} SplitNoNewline(s: string)
    requires NewlineFree(s)
    ensures forall i :: 0 <= i < |Split(s)| ==> NewlineFree(Split(s)[i])
  {
    if s != "" { SplitNoNewline(s[1..]); }
  }

  lemma FilterHead(paths: seq<string>)
    requires paths != []
    ensures WithParams(paths) == (if HasParams(paths[0]) then [paths[0]] else []) + WithParams(paths[1..])
  {
    hide HasParams;
  }

  // Filtering keeps the order.
  lemma {:induction false} Kept(paths: seq<string>, i: nat) returns (i': nat)
    requires i < |paths| && HasParams(paths[i])
    ensures i' < |WithParams(paths)| && WithParams(paths)[i'] == paths[i]
  {
    hide HasParams;
    var head: nat := if HasParams(paths[0]) then 1 else 0;
    if i == 0 {
      i' := 0;
    } else {
      i' := Kept(paths[1..], i - 1);
      i' := i' + head;
    }
  }

  lemma {:induction false} KeptInOrder(paths: seq<string>, i: nat, j: nat) returns (i': nat, j': nat)
    requires i < j < |paths| && HasParams(paths[i]) && HasParams(paths[j])
    ensures i' < j' < |WithParams(paths)|
    ensures WithParams(paths)[i'] == paths[i] && WithParams(paths)[j'] == paths[j]
  {
    hide HasParams;
    FilterHead(paths);
    hide WithParams;
    var head: nat := if HasParams(paths[0]) then 1 else 0;
    if i == 0 {
      j' := Kept(paths[1..], j - 1);
      i', j' := 0, j' + head;
    } else {
      i', j' := KeptInOrder(paths[1..], i - 1, j - 1);
      i', j' := i' + head, j' + head;
    }
  }

  // Any two parameterised templates that share a URL are reported, whatever the
  // list they are in.
  lemma OverlapsAreReported(paths: seq<string>, i: nat, j: nat, url: string)
    requires i < j < |paths| && HasParams(paths[i]) && HasParams(paths[j])
    requires Valid(paths[i]) && PlainNames(paths[i]) && Valid(paths[j]) && PlainNames(paths[j])
    requires Takes(Location(paths[i]).value, url) && Takes(Location(paths[j]).value, url)
    ensures (paths[i], paths[j]) in Pairs(WithParams(paths), 0)
  {
    hide Takes, Valid, MayOverlap, WithParams, Pairs, PlainNames, HasParams, Location;
    SharedUrlOverlaps(paths[i], paths[j], url);
    var i', j' := KeptInOrder(paths, i, j);
    PairIn(WithParams(paths), 0, i', j');
  }

  // ----- names with slashes -----

  function Slashes(s: string): nat {
    if s == "" then 0 else (if s[0] == '/' then 1 else 0) + Slashes(s[1..])
  }

  lemma {:induction false} SplitCount(s: string)
    ensures |Split(s)| == Slashes(s) + 1
  {
    if s != "" { SplitCount(s[1..]); }
  }

  lemma {:induction false} SlashesOf(a: string, b: string)
    ensures Slashes(a + b) == Slashes(a) + Slashes(b) && (Slashes(a) == 0 <==> SlashFree(a))
  {
    if a == "" {
      assert a + b == b;
    } else {
      assert (a + b)[1..] == a[1..] + b;
      SlashesOf(a[1..], b);
      assert SlashFree(a) <==> a[0] != '/' && SlashFree(a[1..]) by {
        if a[0] != '/' && SlashFree(a[1..]) { assert forall k :: 0 < k < |a| ==> a[k] == a[1..][k - 1]; }
      }
    }
  }

  // The template with every parameter called x.
  function Renamed(ts: seq<Token>): seq<Token> {
    if ts == [] then [] else [if ts[0].Param? then Param("x") else ts[0]] + Renamed(ts[1..])
  }

  predicate PlainTokens(ts: seq<Token>) { forall t <- ts :: t.Param? ==> SlashFree(t.name) }

  lemma SlashesOfParam(name: string)
    ensures Slashes(RenderToken(Param(name))) == Slashes(name)
  {
    hide Slashes;
    SlashesOf("{" + name, "}");
    SlashesOf("{", name);
    BraceSlashes();
  }

  lemma BraceSlashes()
    ensures Slashes("{") == 0 && Slashes("}") == 0 && Slashes("x") == 0
  {
    assert "{"[1..] == "" && "}"[1..] == "" && "x"[1..] == "";
  }

  // Renaming loses the slashes in the names and keeps all else.
  lemma {:induction false} RenamedKeeps(ts: seq<Token>, values: seq<string>)
    requires AreTokens(ts) && |values| == ParamCount(ts)
    ensures AreTokens(Renamed(ts)) && PlainTokens(Renamed(ts)) && ParamCount(Renamed(ts)) == ParamCount(ts)
    ensures Fill(Renamed(ts), values) == Fill(ts, values)
    ensures Slashes(Render(Renamed(ts))) <= Slashes(Render(ts))
    ensures Slashes(Render(Renamed(ts))) == Slashes(Render(ts)) <==> PlainTokens(ts)
    decreases |ts|
  {
    hide Slashes, SlashFree, RenderToken, IsToken;
    if ts != [] {
      var t, rest := ts[0], ts[1..];
      var t' := if t.Param? then Param("x") else t;
      var r' := Renamed(rest);
      assert ts == [t] + rest && Renamed(ts) == [t'] + r' && Renamed(ts)[1..] == r';
      assert IsToken(t);
      RenamedKeeps(rest, if t.Param? then values[1..] else values);
      RenderFirst(t, rest);
      RenderFirst(t', r');
      SlashesOf(RenderToken(t), Render(rest));
      SlashesOf(RenderToken(t'), Render(r'));
      assert IsToken(Param("x")) && SlashFree("x") by { XIsToken(); }
      PlainFirst(t, rest);
      PlainFirst(t', r');
      if t.Param? {
        SlashesOfParam(t.name);
        SlashesOfParam("x");
        SlashesOf(t.name, "");
        BraceSlashes();
      }
    }
  }

  lemma XIsToken()
    ensures IsToken(Param("x")) && SlashFree("x")
  {}

  lemma PlainFirst(t: Token, ts: seq<Token>)
    ensures PlainTokens([t] + ts) <==> (t.Param? ==> SlashFree(t.name)) && PlainTokens(ts)
  {
    hide SlashFree;
    var all := [t] + ts;
    assert t in all && forall u <- ts :: u in all;
  }

  lemma {:induction false} RenamedAllowed(ts: seq<Token>)
    requires forall t <- ts :: t.Lit? ==> IsAllowed(t.c)
    ensures forall c <- Render(Renamed(ts)) :: IsAllowed(c)
  {
    hide IsAllowed;
    if ts != [] {
      assert ts[0] in ts;
      RenamedAllowed(ts[1..]);
      assert IsAllowed('{') && IsAllowed('x') && IsAllowed('}') by { XIsAllowed(); }
    }
  }

  lemma XIsAllowed()
    ensures IsAllowed('{') && IsAllowed('x') && IsAllowed('}')
  {}

  // A filling for every template: each parameter is v.
  lemma SomeFilling(ts: seq<Token>) returns (values: seq<string>)
    ensures |values| == ParamCount(ts) && Fills(ts, values, Fill(ts, values))
  {
    values := seq(ParamCount(ts), _ => "v");
    assert forall v <- values :: v == "v" && SlashFree(v);
  }

  lemma RenamedIsValid(a: string) returns (b: string)
    requires Valid(a)
    ensures Valid(b) && Tokens(b) == Some(Renamed(Tokens(a).value)) && PlainNames(b)
    ensures b == Render(Renamed(Tokens(a).value))
  {
    hide Tokens, Render, IsAllowed, SlashFree;
    var ts := Tokens(a).value;
    RenderOfTokens(a);
    var values := SomeFilling(ts);
    RenamedKeeps(ts, values);
    b := Render(Renamed(ts));
    TokensOfRender(Renamed(ts));
    LiteralsAllowed(a, ts);
    RenamedAllowed(ts);
    FirstSlash(ts);
  }

  lemma FirstSlash(ts: seq<Token>)
    requires Render(ts) != "" && Render(ts)[0] == '/'
    ensures Render(Renamed(ts)) != "" && Render(Renamed(ts))[0] == '/'
  {}

  // A template with a slash in a name misses an overlap: there are a plain
  // template and a URL that both locations take, and neither order is reported.
  lemma SlashInName(a: string) returns (b: string, url: string)
    requires Valid(a) && HasParams(a) && !PlainNames(a)
    ensures Valid(b) && HasParams(b) && PlainNames(b)
    ensures Takes(Location(a).value, url) && Takes(Location(b).value, url)
    ensures !MayOverlap(a, b) && !MayOverlap(b, a)
  {
    hide Tokens, Render, HasParams, Split, Takes, Location, IsAllowed, Fills, Fill, Slashes, Renamed;
    var ts := Tokens(a).value;
    b := RenamedIsValid(a);
    RenderOfTokens(a);
    WeaveIsEmitted(ts);
    var values := SomeFilling(ts);
    url := Fill(ts, values);
    RenamedKeeps(ts, values);
    RenamedFills(ts, values);
    WeaveIsEmitted(Renamed(ts));
    LocationTakesFillings(a, url);
    LocationTakesFillings(b, url);
    SplitCount(a);
    SplitCount(b);
  }

  lemma RenamedFills(ts: seq<Token>, values: seq<string>)
    requires |values| == ParamCount(ts) == ParamCount(Renamed(ts)) && Fill(Renamed(ts), values) == Fill(ts, values)
    requires Fills(ts, values, Fill(ts, values))
    ensures IsFilling(ts, Fill(ts, values)) && IsFilling(Renamed(ts), Fill(ts, values))
  {
    assert Fills(Renamed(ts), values, Fill(ts, values));
  }

  // Every overlap of the template with a plain one is reported.
  ghost predicate AlwaysReported(a: string) {
    forall b, url :: Overlaps(a, b, url) ==> MayOverlap(a, b) && MayOverlap(b, a)
  }

  ghost predicate Overlaps(a: string, b: string, url: string) {
    && Valid(a) && Valid(b) && HasParams(b) && PlainNames(b)
    && Takes(Location(a).value, url) && Takes(Location(b).value, url)
  }

  // That is so exactly when no parameter of it has a slash in its name.
  lemma ReportedIffPlain(a: string)
    requires Valid(a) && HasParams(a)
    ensures AlwaysReported(a) <==> PlainNames(a)
  {
    hide Valid, PlainNames, MayOverlap, Takes, Location, HasParams;
    if PlainNames(a) {
      forall b, url | Overlaps(a, b, url)
        ensures MayOverlap(a, b) && MayOverlap(b, a)
      {
        SharedUrlOverlaps(a, b, url);
        SharedUrlOverlaps(b, a, url);
      }
    } else {
      var b, url := SlashInName(a);
      assert Overlaps(a, b, url);
    }
  }

  // ----- what is reported -----

  // The parts of the two at a place leave it open whether a URL can be there.
  predicate MeetAt(a: string, b: string, i: nat)
    requires i < |Split(a)| && i < |Split(b)|
  {
    Split(a)[i] == Split(b)[i] || HasParams(Split(a)[i]) || HasParams(Split(b)[i])
  }

  // Exactly the pairs of parameterised templates of the list, in its order, that
  // have the same number of parts and at no place two different literal ones.
  lemma ReportedIff(paths: seq<string>, a: string, b: string)
    ensures (a, b) in Pairs(WithParams(paths), 0) <==>
      && HasParams(a) && HasParams(b) && (exists i: nat, j: nat :: i < j < |paths| && paths[i] == a && paths[j] == b)
      && |Split(a)| == |Split(b)| && forall k: nat :: k < |Split(a)| ==> MeetAt(a, b, k)
  {
    hide HasParams, Split, Pairs, WithParams;
    MayOverlapIff(a, b);
    hide MayOverlap;
    if (a, b) in Pairs(WithParams(paths), 0) {
      var i, j := PairFrom(WithParams(paths), 0, a, b);
      var i', j' := StoodInOrder(paths, i, j);
      assert WithParams(paths)[i] in WithParams(paths) && WithParams(paths)[j] in WithParams(paths);
    }
    if i: nat, j: nat :| i < j < |paths| && paths[i] == a && paths[j] == b && HasParams(a) && HasParams(b) && MayOverlap(a, b) {
      var i', j' := KeptInOrder(paths, i, j);
      PairIn(WithParams(paths), 0, i', j');
    }
  }

  lemma MayOverlapIff(a: string, b: string)
    ensures MayOverlap(a, b) <==> |Split(a)| == |Split(b)| && forall k: nat :: k < |Split(a)| ==> MeetAt(a, b, k)
  {
    hide HasParams, Split;
    if |Split(a)| == |Split(b)| && forall k: nat :: k < |Split(a)| ==> MeetAt(a, b, k) {
      forall i | 0 <= i < |Split(a)|
        ensures HasParams(Split(a)[i]) || HasParams(Split(b)[i]) || Split(a)[i] == Split(b)[i]
      {
        assert MeetAt(a, b, i);
      }
    }
  }

  lemma {:induction false} PairFrom(ps: seq<string>, n: nat, a: string, b: string) returns (i: nat, j: nat)
    requires (a, b) in Pairs(ps, n)
    ensures i < j < |ps| && ps[i] == a && ps[j] == b && MayOverlap(a, b)
    decreases |ps| - n
  {
    hide MayOverlap;
    if (a, b) in PairsOf(ps, n, n + 1) {
      i := n;
      j := PairWith(ps, n, n + 1, a, b);
    } else {
      i, j := PairFrom(ps, n + 1, a, b);
    }
  }

  lemma {:induction false} PairWith(ps: seq<string>, i: nat, from: nat, a: string, b: string) returns (j: nat)
    requires i < |ps| && (a, b) in PairsOf(ps, i, from)
    ensures from <= j < |ps| && ps[i] == a && ps[j] == b && MayOverlap(a, b)
    decreases |ps| - from
  {
    hide MayOverlap;
    if MayOverlap(ps[i], ps[from]) && (a, b) == (ps[i], ps[from]) { j := from; }
    else { j := PairWith(ps, i, from + 1, a, b); }
  }

  lemma {:induction false} StoodInOrder(paths: seq<string>, i: nat, j: nat) returns (i': nat, j': nat)
    requires i < j < |WithParams(paths)|
    ensures i' < j' < |paths| && paths[i'] == WithParams(paths)[i] && paths[j'] == WithParams(paths)[j]
    decreases |paths|
  {
    hide HasParams;
    FilterHead(paths);
    var rest := WithParams(paths[1..]);
    if !HasParams(paths[0]) {
      i', j' := StoodInOrder(paths[1..], i, j);
      i', j' := i' + 1, j' + 1;
    } else if i > 0 {
      i', j' := StoodInOrder(paths[1..], i - 1, j - 1);
      i', j' := i' + 1, j' + 1;
    } else {
      assert rest[j - 1] in rest;
      var m :| 0 <= m < |paths[1..]| && paths[1..][m] == rest[j - 1];
      i', j' := 0, m + 1;
    }
  }
}
