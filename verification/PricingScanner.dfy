// The text scanner of pricing expressions (packages/middleware-openapi/src/expr.ts).
//
// Every scan is specified by a function of the text and a position in it, and
// written as the loop of the source, proved to compute that function.
module PricingScanner {
  import opened Text

  predicate IsIdentChar(c: char) { IsWord(c) || c == '$' }

  // ----- coalesce calls -----

  const COALESCE := "coalesce("
  const OPENING := 9  // its length

  // "coalesce(" stands at i, character by character.
  predicate OpensAt(s: string, i: nat) {
    && i + OPENING <= |s|
    && s[i] == 'c' && s[i + 1] == 'o' && s[i + 2] == 'a' && s[i + 3] == 'l' && s[i + 4] == 'e'
    && s[i + 5] == 's' && s[i + 6] == 'c' && s[i + 7] == 'e' && s[i + 8] == '('
  }

  lemma OpensAtIsAt(s: string, i: nat)
    ensures OpensAt(s, i) <==> At(s, i, COALESCE)
  {
    if i + OPENING <= |s| {
      assert s[i..i + OPENING] == COALESCE <==> OpensAt(s, i);
    }
  }

  // Position of the first "coalesce(" at or after i that is not the tail of a
  // longer identifier; glued: the character before i is an identifier character.
  function FirstCoalesce(s: string, i: nat, glued: bool): (r: Option<nat>)
    requires i <= |s|
    ensures r.Some? ==> i <= r.value && OpensAt(s, r.value)
    decreases |s| - i
  {
    if i == |s| then None
    else if OpensAt(s, i) && !glued then Some(i)
    else FirstCoalesce(s, i + 1, IsIdentChar(s[i]))
  }

  function Deeper(c: char, depth: nat): nat
    requires depth > 0
  {
    if c == '(' then depth + 1 else if c == ')' then depth - 1 else depth
  }

  // Position of the parenthesis that closes the outermost of depth open ones.
  function CloseParen(s: string, i: nat, depth: nat): (r: Option<nat>)
    requires i <= |s| && depth > 0
    ensures r.Some? ==> i <= r.value < |s|
    decreases |s| - i
  {
    if i == |s| then None
    else if Deeper(s[i], depth) == 0 then Some(i)
    else CloseParen(s, i + 1, Deeper(s[i], depth))
  }

  // Position of the first comma outside inner parentheses, before the call closes.
  function TopComma(s: string, i: nat, depth: nat): (r: Option<nat>)
    requires i <= |s| && depth > 0
    ensures r.Some? ==> i <= r.value < |s|
    ensures r.Some? && CloseParen(s, i, depth).Some? ==> r.value < CloseParen(s, i, depth).value
    decreases |s| - i
  {
    if i == |s| || Deeper(s[i], depth) == 0 then None
    else if s[i] == ',' && depth == 1 then Some(i)
    else TopComma(s, i + 1, Deeper(s[i], depth))
  }

  datatype Match = Match(arg: string, fallback: string, start: nat, end: nat)

  function Moved(o: Option<Match>, n: nat): Option<Match> {
    match o
    case None => None
    case Some(m) => Some(m.(start := m.start + n, end := m.end + n))
  }

  // The call whose opening token stands at i.
  function CallAt(s: string, i: nat): (r: Option<Match>)
    requires OpensAt(s, i)
    ensures r.Some? ==> r.value.start == i && i + OPENING < r.value.end <= |s|
  {
    var inner := i + OPENING;
    var close, comma := CloseParen(s, inner, 1), TopComma(s, inner, 1);
    if close.None? || comma.None? then None
    else Some(Match(Trim(s[inner..comma.value]), Trim(s[comma.value + 1..close.value]), i, close.value + 1))
  }

  // What extractCoalesce returns on the text from `from` on.
  function ExtractFrom(s: string, from: nat): (r: Option<Match>)
    requires from <= |s|
    ensures r.Some? ==> from <= r.value.start && r.value.start + OPENING < r.value.end <= |s|
  {
    var i := FirstCoalesce(s, from, false);
    if i.None? then None else CallAt(s, i.value)
  }

  function ExtractCoalesce(s: string): Option<Match> { ExtractFrom(s, 0) }

  predicate IsInnermost(m: Match) {
    ExtractCoalesce(m.arg).None? && ExtractCoalesce(m.fallback).None?
  }

  function InnermostFrom(s: string, cursor: nat): (r: Option<Match>)
    requires cursor <= |s|
    ensures r.Some? ==> cursor <= r.value.start && r.value.start + OPENING < r.value.end <= |s|
    decreases |s| - cursor
  {
    var m := ExtractFrom(s, cursor);
    if m.None? || IsInnermost(m.value) then m
    else InnermostFrom(s, m.value.start + OPENING)
  }

  function FindInnermost(s: string): (r: Option<Match>)
    ensures r.Some? ==> r.value.start + OPENING < r.value.end <= |s|
  {
    InnermostFrom(s, 0)
  }

  // indexOf("coalesce(", from)
  method IndexOfCoalesce(s: string, from: nat) returns (r: Option<nat>)
    ensures r.Some? ==> from <= r.value && OpensAt(s, r.value)
    ensures forall j :: from <= j < (if r.Some? then r.value else |s|) ==> !OpensAt(s, j)
  {
    var i := from;
    while i < |s|
      invariant from <= i
      invariant forall j :: from <= j < i && j < |s| ==> !OpensAt(s, j)
    {
      OpensAtIsAt(s, i);
      if At(s, i, COALESCE) { return Some(i); }
      i := i + 1;
    }
    return None;
  }

  // Every opening token in s[from..to] is the tail of a longer identifier: the
  // search may jump to `to`.
  lemma {:induction false} SkipPlain(s: string, from: nat, to: nat, glued: bool)
    requires from < to <= |s|
    requires forall j :: from < j < to && OpensAt(s, j) ==> IsIdentChar(s[j - 1])
    requires OpensAt(s, from) ==> glued
    ensures FirstCoalesce(s, from, glued) == FirstCoalesce(s, to, IsIdentChar(s[to - 1]))
    decreases |s| - from
  {
    if from + 1 < to { SkipPlain(s, from + 1, to, IsIdentChar(s[from])); }
  }

  method ScanExtractCoalesce(expr: string) returns (r: Option<Match>)
    ensures r == ExtractCoalesce(expr)
  {
    hide CallAt;
    var searchFrom := 0;
    while true
      invariant searchFrom <= |expr|
      invariant searchFrom > 0 ==> !IsIdentChar(expr[searchFrom - 1])
      invariant FirstCoalesce(expr, 0, false) == FirstCoalesce(expr, searchFrom, false)
      decreases |expr| - searchFrom
    {
      var idx := IndexOfCoalesce(expr, searchFrom);
      if idx.None? {
        if searchFrom < |expr| { SkipPlain(expr, searchFrom, |expr|, false); }
        return None;
      }
      var i := idx.value;
      if searchFrom < i { SkipPlain(expr, searchFrom, i, false); }
      if i > 0 && IsIdentChar(expr[i - 1]) {
        var next := i + OPENING;
        SkipPlain(expr, i, next, true);
        searchFrom := next;
        continue;
      }
      r := ScanCall(expr, i);
      return;
    }
  }

  // The scan from just after the opening token at idx to its closing parenthesis.
  method ScanCall(expr: string, idx: nat) returns (r: Option<Match>)
    requires OpensAt(expr, idx)
    ensures r == CallAt(expr, idx)
  {
    hide Trim;
    var innerStart := idx + OPENING;
    var depth: nat := 1;
    var commaPos: Option<nat> := None;
    var i := innerStart;
    while i < |expr|
      invariant innerStart <= i <= |expr| && depth > 0
      invariant CloseParen(expr, innerStart, 1) == CloseParen(expr, i, depth)
      invariant TopComma(expr, innerStart, 1) == if commaPos.Some? then commaPos else TopComma(expr, i, depth)
      invariant commaPos.Some? ==> innerStart <= commaPos.value < i
    {
      if expr[i] == '(' { depth := depth + 1; }
      if expr[i] == ')' { depth := depth - 1; }
      if depth == 1 && expr[i] == ',' && commaPos == None { commaPos := Some(i); }
      if depth == 0 {
        if commaPos == None { return None; }
        return Some(Match(Trim(expr[innerStart..commaPos.value]), Trim(expr[commaPos.value + 1..i]), idx, i + 1));
      }
      i := i + 1;
    }
    return None;
  }

  // The scans of a suffix are the scans of the whole text from there on.
  lemma {:induction false} SuffixFirst(s: string, c: nat, i: nat, glued: bool)
    requires c <= i <= |s|
    ensures FirstCoalesce(s, i, glued) ==
            Shift(FirstCoalesce(s[c..], i - c, glued), c)
    decreases |s| - i
  {
    if i < |s| {
      SuffixFirst(s, c, i + 1, IsIdentChar(s[i]));
    }
  }

  lemma {:induction false} SuffixParens(s: string, c: nat, i: nat, depth: nat)
    requires c <= i <= |s| && depth > 0
    ensures CloseParen(s, i, depth) == Shift(CloseParen(s[c..], i - c, depth), c)
    ensures TopComma(s, i, depth) == Shift(TopComma(s[c..], i - c, depth), c)
    decreases |s| - i
  {
    if i < |s| && Deeper(s[i], depth) != 0 { SuffixParens(s, c, i + 1, Deeper(s[i], depth)); }
  }

  lemma SuffixCall(s: string, c: nat, i: nat)
    requires c <= i && OpensAt(s, i)
    ensures CallAt(s, i) == Moved(CallAt(s[c..], i - c), c)
  {
    hide Trim, CloseParen, TopComma;
    var inner := i + OPENING;
    SuffixParens(s, c, inner, 1);
    var close, comma := CloseParen(s, inner, 1), TopComma(s, inner, 1);
    if close.Some? && comma.Some? {
      SuffixSlice(s, c, inner, comma.value);
      SuffixSlice(s, c, comma.value + 1, close.value);
    }
  }

  lemma SuffixSlice(s: string, c: nat, i: nat, j: nat)
    requires c <= i <= j <= |s|
    ensures s[c..][i - c..j - c] == s[i..j]
  {}

  lemma SuffixExtract(s: string, c: nat)
    requires c <= |s|
    ensures ExtractFrom(s, c) == Moved(ExtractCoalesce(s[c..]), c)
  {
    SuffixFirst(s, c, c, false);
    var i := FirstCoalesce(s, c, false);
    if i.Some? { SuffixCall(s, c, i.value); }
  }

  method ScanFindInnermost(expr: string) returns (r: Option<Match>)
    ensures r == FindInnermost(expr)
  {
    hide ExtractFrom, IsInnermost;
    var cursor := 0;
    while cursor < |expr|
      invariant cursor <= |expr|
      invariant FindInnermost(expr) == InnermostFrom(expr, cursor)
    {
      var m := ScanFrom(expr, cursor);
      if m.None? { return None; }
      var innermost := ScanNested(m.value);
      if innermost { return m; }
      cursor := m.value.start + OPENING;
    }
    return None;
  }

  method ScanFrom(expr: string, cursor: nat) returns (r: Option<Match>)
    requires cursor <= |expr|
    ensures r == ExtractFrom(expr, cursor)
  {
    SuffixExtract(expr, cursor);
    r := ScanExtractCoalesce(expr[cursor..]);
    r := Moved(r, cursor);
  }

  method ScanNested(m: Match) returns (innermost: bool)
    ensures innermost == IsInnermost(m)
  {
    var inArg := ScanExtractCoalesce(m.arg);
    var inFallback := ScanExtractCoalesce(m.fallback);
    innermost := inArg.None? && inFallback.None?;
  }

  // ----- quoted keys -----

  // A scan at the given depth passes t[i..] and is at depth one after it; on
  // the way it never closes the call, and unless commas may be there it sees
  // none at depth one.
  predicate Kept(t: string, i: nat, depth: nat, commas: bool)
    requires i <= |t| && depth > 0
    decreases |t| - i
  {
    if i == |t| then depth == 1
    else
      && (t[i] == ',' && depth == 1 ==> commas)
      && Deeper(t[i], depth) > 0 && Kept(t, i + 1, Deeper(t[i], depth), commas)
  }

  // What is kept is kept at any greater depth, where its commas do not matter.
  lemma {:induction false} SkipKept(s: string, i: nat, t: string, j: nat, depth: nat, outer: nat, commas: bool)
    requires At(s, i, t) && j <= |t| && depth > 0 && Kept(t, j, depth, commas)
    ensures i + |t| <= |s|
    ensures CloseParen(s, i + j, depth + outer) == CloseParen(s, i + |t|, 1 + outer)
    ensures outer > 0 || !commas ==> TopComma(s, i + j, depth + outer) == TopComma(s, i + |t|, 1 + outer)
    decreases |t| - j
  {
    if j < |t| {
      AtIndex(s, i, t, j);
      SkipKept(s, i, t, j + 1, Deeper(t[j], depth), outer, commas);
    }
  }

  lemma FirstHere(s: string, i: nat)
    requires OpensAt(s, i)
    ensures FirstCoalesce(s, i, false) == Some(i)
  {}

  // The text of a call.
  function CallText(arg: string, fallback: string): string { COALESCE + (arg + ("," + (fallback + ")"))) }

  lemma CallPartsAt(s: string, i: nat, arg: string, fallback: string)
    requires At(s, i, CallText(arg, fallback))
    ensures var c := i + OPENING + |arg|;
      && At(s, i + OPENING, arg) && Is(s, c, ',') && At(s, c + 1, fallback) && Is(s, c + 1 + |fallback|, ')')
      && OpensAt(s, i)
  {
    hide At;
    var c := i + OPENING + |arg|;
    AtConcat(s, i, COALESCE, arg + ("," + (fallback + ")")));
    AtConcat(s, i + OPENING, arg, "," + (fallback + ")"));
    AtConcat(s, c, ",", fallback + ")");
    AtConcat(s, c + 1, fallback, ")");
    AtIndex(s, c, ",", 0);
    AtIndex(s, c + 1 + |fallback|, ")", 0);
    OpensAtIsAt(s, i);
  }

  lemma CallParts(arg: string, fallback: string)
    ensures var s := CallText(arg, fallback); var c := OPENING + |arg|;
      && At(s, OPENING, arg) && Is(s, c, ',') && At(s, c + 1, fallback)
      && c + 1 + |fallback| == |s| - 1 && Is(s, |s| - 1, ')') && FirstCoalesce(s, 0, false) == Some(0)
  {
    hide At, FirstCoalesce;
    var s := CallText(arg, fallback);
    AtWhole(s);
    CallPartsAt(s, 0, arg, fallback);
    FirstHere(s, 0);
  }

  lemma {:induction false} KeptToComma(s: string, i: nat, t: string, j: nat, depth: nat)
    requires At(s, i, t) && j <= |t| && depth > 0 && i + j <= |s| && TopComma(s, i + j, depth) == Some(i + |t|)
    ensures Kept(t, j, depth, false)
    decreases |t| - j
  {
    if j < |t| {
      AtIndex(s, i, t, j);
      KeptToComma(s, i, t, j + 1, Deeper(t[j], depth));
    }
  }

  lemma {:induction false} KeptToClose(s: string, i: nat, t: string, j: nat, depth: nat)
    requires At(s, i, t) && j <= |t| && depth > 0 && i + j <= |s| && CloseParen(s, i + j, depth) == Some(i + |t|)
    ensures Kept(t, j, depth, true)
    decreases |t| - j
  {
    if j < |t| {
      AtIndex(s, i, t, j);
      KeptToClose(s, i, t, j + 1, Deeper(t[j], depth));
    }
  }

  lemma AtComma(s: string, c: nat)
    requires Is(s, c, ',')
    ensures TopComma(s, c, 1) == Some(c) && CloseParen(s, c, 1) == CloseParen(s, c + 1, 1)
  {}

  lemma AtClose(s: string, p: nat)
    requires Is(s, p, ')')
    ensures CloseParen(s, p, 1) == Some(p) && TopComma(s, p, 1) == None
  {}

  // The comma and the end of a call are where they were written exactly when
  // the scan keeps its argument and, commas aside, its fallback.
  lemma CallIsKept(arg: string, fallback: string)
    ensures var s := CallText(arg, fallback);
      && OPENING <= |s|
      && (TopComma(s, OPENING, 1) == Some(OPENING + |arg|) && CloseParen(s, OPENING, 1) == Some(|s| - 1)
          <==> Kept(arg, 0, 1, false) && Kept(fallback, 0, 1, true))
  {
    hide At, Kept, CallText, CloseParen, TopComma;
    var s, c := CallText(arg, fallback), OPENING + |arg|;
    CallParts(arg, fallback);
    AtComma(s, c);
    AtClose(s, |s| - 1);
    if TopComma(s, OPENING, 1) == Some(c) { KeptToComma(s, OPENING, arg, 0, 1); }
    if Kept(arg, 0, 1, false) {
      SkipKept(s, OPENING, arg, 0, 1, 0, false);
      assert CloseParen(s, OPENING, 1) == CloseParen(s, c + 1, 1);
      if CloseParen(s, c + 1, 1) == Some(|s| - 1) { KeptToClose(s, c + 1, fallback, 0, 1); }
      if Kept(fallback, 0, 1, true) { SkipKept(s, c + 1, fallback, 0, 1, 0, true); }
    }
  }

  lemma {:induction false} DropsNoFurther(s: string, i: nat, k: nat, j: nat)
    requires i <= k < j <= |s| && !IsSpace(s[k])
    ensures DropSpace(s, i, j) > k
  {
    if k + 1 < j && IsSpace(s[j - 1]) { DropsNoFurther(s, i, k, j - 1); }
  }

  // Only the text itself is trimmed to arg, of those that begin with it or are shorter.
  lemma TrimsToArg(u: string, arg: string)
    requires arg != "" && !IsSpace(arg[0]) && !IsSpace(arg[|arg| - 1])
    requires |u| < |arg| || (arg <= u && (|u| > |arg| ==> !IsSpace(u[|arg|])))
    ensures Trim(u) == arg <==> u == arg
  {
    hide IsSpace;
    if |u| >= |arg| {
      assert u[0] == arg[0] && SkipSpace(u, 0) == 0;
      DropsNoFurther(u, 0, if |u| > |arg| then |arg| else |arg| - 1, |u|);
      if |u| == |arg| { assert u == arg && u[0..|u|] == u; }
    }
  }

  // The exact condition under which extractCoalesce gives back a call whose
  // argument begins and ends without white space.
  lemma CallIsExtracted(arg: string, fallback: string)
    requires arg != "" && !IsSpace(arg[0]) && !IsSpace(arg[|arg| - 1])
    ensures var s := CallText(arg, fallback);
      ExtractCoalesce(s) == Some(Match(arg, Trim(fallback), 0, |s|))
      <==> Kept(arg, 0, 1, false) && Kept(fallback, 0, 1, true)
  {
    hide At, Kept, Trim, IsSpace, FirstCoalesce;
    var s, c := CallText(arg, fallback), OPENING + |arg|;
    CallParts(arg, fallback);
    CallIsKept(arg, fallback);
    AtIs(s, OPENING, arg);
    AtIs(s, c + 1, fallback);
    var comma := TopComma(s, OPENING, 1);
    if comma.Some? {
      var u := s[OPENING..comma.value];
      if |u| >= |arg| { assert arg <= u by { assert u[..|arg|] == s[OPENING..c] == arg; } }
      assert !IsSpace(',') by { CommaIsNoSpace(); }
      TrimsToArg(u, arg);
    }
  }

  lemma CommaIsNoSpace()
    ensures !IsSpace(',') && !IsSpace('$') && !IsSpace(']')
  {}

  function KeyRef(key: string): string { "$['" + key + "']" }

  lemma {:induction false} KeptApart(t: string, i: nat, depth: nat, pre: string, post: string, commas: bool)
    requires i <= |t| && depth > 0
    requires forall k :: 0 <= k < |post| ==> post[k] != '(' && post[k] != ')' && post[k] != ','
    ensures Kept(pre + t + post, |pre| + i, depth, commas) <==> Kept(t, i, depth, commas)
    decreases |t| - i
  {
    var s := pre + t + post;
    if i < |t| {
      assert s[|pre| + i] == t[i];
      if Deeper(t[i], depth) > 0 { KeptApart(t, i + 1, Deeper(t[i], depth), pre, post, commas); }
    } else {
      assert s[|pre| + |t|..] == post;
      KeptNeutral(s, |pre| + |t|, depth, commas);
    }
  }

  lemma {:induction false} KeptNeutral(s: string, i: nat, depth: nat, commas: bool)
    requires i <= |s| && depth > 0
    requires forall k :: i <= k < |s| ==> s[k] != '(' && s[k] != ')' && s[k] != ','
    ensures Kept(s, i, depth, commas) <==> depth == 1
    decreases |s| - i
  {
    if i < |s| { KeptNeutral(s, i + 1, depth, commas); }
  }

  lemma KeyIsKept(key: string)
    ensures Kept(KeyRef(key), 0, 1, false) <==> Kept(key, 0, 1, false)
  {
    KeptQuote(KeyRef(key));
    KeptApart(key, 0, 1, "$['", "']", false);
  }

  predicate Flat(t: string) { forall k :: 0 <= k < |t| ==> t[k] != '(' && t[k] != ')' }

  lemma {:induction false} FlatIsKept(t: string, i: nat)
    requires Flat(t) && i <= |t|
    ensures Kept(t, i, 1, true)
    decreases |t| - i
  {
    if i < |t| { FlatIsKept(t, i + 1); }
  }

  // The scanner does not know about quoted keys: a call that takes its argument
  // from one is read as written exactly when the scan keeps the key.
  lemma KeyIsReadIffKept(key: string, fallback: string)
    requires Flat(fallback)
    ensures var s := CallText(KeyRef(key), fallback);
      ExtractCoalesce(s) == Some(Match(KeyRef(key), Trim(fallback), 0, |s|)) <==> Kept(key, 0, 1, false)
  {
    hide Kept, Flat, Trim, IsSpace, ExtractCoalesce;
    CommaIsNoSpace();
    FlatIsKept(fallback, 0);
    KeyIsKept(key);
    CallIsExtracted(KeyRef(key), fallback);
  }

  // Where the scan is when it has passed the beginning of a key that it keeps.
  lemma KeyScan(key: string, c: char, more: string, fallback: string) returns (p: nat)
    requires Kept(key, 0, 1, false)
    ensures var s := CallText(KeyRef(key + ([c] + more)), fallback);
      && OPENING <= p < |s| - 1 && s[p] == c && s[OPENING..p] == "$['" + key && FirstCoalesce(s, 0, false) == Some(0)
      && CloseParen(s, OPENING, 1) == CloseParen(s, p, 1) && TopComma(s, OPENING, 1) == TopComma(s, p, 1)
      && s[p + 1..|s| - 1] == more + "']" + "," + fallback && s[|s| - 1] == ')'
  {
    hide At, Kept, FirstCoalesce, CallText, CloseParen, TopComma, KeyRef;
    var pre := "$['" + key;
    var arg, rest := KeyRef(key + ([c] + more)), [c] + (more + "']");
    var s := CallText(arg, fallback);
    p := OPENING + |pre|;
    assert arg == pre + rest by { KeyParts(key, [c], more); }
    CallParts(arg, fallback);
    AtConcat(s, OPENING, pre, rest);
    AtIs(s, OPENING, pre);
    AtIs(s, p, rest);
    AtIs(s, OPENING + |arg| + 1, fallback);
    KeyEnds(s, p, c, more + "']", fallback);
    KeptAfter(key);
    SkipKept(s, OPENING, pre, 0, 1, 0, false);
  }

  lemma KeyParts(key: string, c: string, more: string)
    ensures KeyRef(key + (c + more)) == ("$['" + key) + (c + (more + "']"))
  {}

  lemma KeyEnds(s: string, p: nat, c: char, more: string, fallback: string)
    requires p + |more| + |fallback| + 3 == |s| && s[p..p + 1 + |more|] == [c] + more
    requires s[p + 1 + |more|] == ',' && s[p + 2 + |more|..|s| - 1] == fallback
    ensures s[p] == c && s[p + 1..|s| - 1] == more + "," + fallback
  {
    var q := p + 1 + |more|;
    assert s[p] == s[p..q][0];
    assert s[p + 1..q] == s[p..q][1..] == more;
    assert s[p + 1..|s| - 1] == s[p + 1..q] + [s[q]] + s[q + 1..|s| - 1];
  }

  lemma KeptAfter(key: string)
    requires Kept(key, 0, 1, false)
    ensures Kept("$['" + key, 0, 1, false)
  {
    hide Kept;
    var r := "$['" + key;
    assert "$['" + key + "" == r;
    KeptApart(key, 0, 1, "$['", "", false);
    KeptQuote(r);
  }

  lemma KeptQuote(r: string)
    requires |r| >= 3 && r[0] == '$' && r[1] == '[' && r[2] == '\''
    ensures Kept(r, 0, 1, false) <==> Kept(r, 3, 1, false)
  {
    assert Kept(r, 0, 1, false) <==> Kept(r, 1, 1, false);
    assert Kept(r, 1, 1, false) <==> Kept(r, 2, 1, false);
    assert Kept(r, 2, 1, false) <==> Kept(r, 3, 1, false);
  }

  lemma {:induction false} FlatTo(s: string, i: nat, j: nat, depth: nat)
    requires i <= j <= |s| && depth > 0 && Flat(s[i..j])
    ensures CloseParen(s, i, depth) == CloseParen(s, j, depth)
    decreases j - i
  {
    if i < j {
      assert s[i..j][0] == s[i] && s[i + 1..j] == s[i..j][1..];
      FlatTo(s, i + 1, j, depth);
    }
  }

  // The three ways to fail. A comma cuts the argument,
  lemma KeysAreCut(key: string, more: string, fallback: string)
    requires Kept(key, 0, 1, false)
    ensures var m := ExtractCoalesce(CallText(KeyRef(key + ([','] + more)), fallback));
      && (m.Some? ==> m.value.arg == Trim("$['" + key))
      && (Flat(more) && Flat(fallback) ==> m.Some?)
  {
    hide Kept, Trim, FirstCoalesce, KeyRef, CallText;
    var s := CallText(KeyRef(key + ([','] + more)), fallback);
    var p := KeyScan(key, ',', more, fallback);
    if Flat(more) && Flat(fallback) { FlatTo(s, p + 1, |s| - 1, 1); }
  }

  // a closing parenthesis ends the call before its comma,
  lemma KeysAreClosed(key: string, more: string, fallback: string)
    requires Kept(key, 0, 1, false)
    ensures ExtractCoalesce(CallText(KeyRef(key + ([')'] + more)), fallback)) == None
  {
    hide Kept, Trim, FirstCoalesce, KeyRef, CallText;
    var p := KeyScan(key, ')', more, fallback);
  }

  // and an opening one leaves it without an end.
  lemma KeysAreOpened(key: string, more: string, fallback: string)
    requires Kept(key, 0, 1, false) && Flat(more) && Flat(fallback)
    ensures ExtractCoalesce(CallText(KeyRef(key + (['('] + more)), fallback)) == None
  {
    hide Kept, Trim, FirstCoalesce, KeyRef, CallText;
    var s := CallText(KeyRef(key + (['('] + more)), fallback);
    var p := KeyScan(key, '(', more, fallback);
    FlatTo(s, p + 1, |s| - 1, 2);
    assert CloseParen(s, |s|, 1) == None;
  }

  // ----- what is found, in any text -----

  // An opening token that is not the tail of an identifier.
  predicate FreeAt(s: string, p: nat) { OpensAt(s, p) && (p == 0 || !IsIdentChar(s[p - 1])) }

  predicate NoneFree(s: string, end: nat) { forall p: nat :: p < end ==> !FreeAt(s, p) }

  lemma {:induction false} FirstIsFree(s: string, i: nat, glued: bool)
    requires i <= |s| && glued == (i > 0 && IsIdentChar(s[i - 1]))
    ensures var r := FirstCoalesce(s, i, glued);
      && (r.Some? ==> FreeAt(s, r.value))
      && forall p: nat :: i <= p < (if r.Some? then r.value else |s|) ==> !FreeAt(s, p)
    decreases |s| - i
  {
    hide OpensAt, IsIdentChar;
    if i < |s| && !FreeAt(s, i) { FirstIsFree(s, i + 1, IsIdentChar(s[i])); }
  }

  // The text of a call that the scan keeps is found where it stands.
  lemma CallIsFound(s: string, p: nat, arg: string, fallback: string)
    requires At(s, p, CallText(arg, fallback)) && Kept(arg, 0, 1, false) && Kept(fallback, 0, 1, true)
    ensures OpensAt(s, p)
    ensures CallAt(s, p) == Some(Match(Trim(arg), Trim(fallback), p, p + |CallText(arg, fallback)|))
  {
    hide At, Kept, Trim, CloseParen, TopComma, OpensAt, CallText;
    var i, c := p + OPENING, p + OPENING + |arg|;
    CallLength(arg, fallback);
    CallPartsAt(s, p, arg, fallback);
    AtIs(s, i, arg);
    AtIs(s, c + 1, fallback);
    SkipKept(s, i, arg, 0, 1, 0, false);
    AtComma(s, c);
    SkipKept(s, c + 1, fallback, 0, 1, 0, true);
    AtClose(s, c + 1 + |fallback|);
  }

  // And what is found is the text of such a call.
  lemma FoundIsKept(s: string, p: nat) returns (arg: string, fallback: string)
    requires OpensAt(s, p) && CallAt(s, p).Some?
    ensures At(s, p, CallText(arg, fallback)) && Kept(arg, 0, 1, false) && Kept(fallback, 0, 1, true)
  {
    hide At, Kept, Trim, CloseParen, TopComma, OpensAt, CallText;
    var i := p + OPENING;
    var c, e := TopComma(s, i, 1).value, CloseParen(s, i, 1).value;
    arg, fallback := s[i..c], s[c + 1..e];
    SliceAt(s, i, c);
    SliceAt(s, c + 1, e);
    ScanStops(s, i, 1);
    KeptToComma(s, i, arg, 0, 1);
    SkipKept(s, i, arg, 0, 1, 0, false);
    AtComma(s, c);
    KeptToClose(s, c + 1, fallback, 0, 1);
    OpensAtIsAt(s, p);
    CallJoins(s, p, arg, fallback);
  }

  lemma SliceAt(s: string, i: nat, j: nat)
    requires i <= j <= |s|
    ensures At(s, i, s[i..j])
  {}

  lemma {:induction false} ScanStops(s: string, i: nat, depth: nat)
    requires i <= |s| && depth > 0
    ensures TopComma(s, i, depth).Some? ==> Is(s, TopComma(s, i, depth).value, ',')
    ensures CloseParen(s, i, depth).Some? ==> Is(s, CloseParen(s, i, depth).value, ')')
    decreases |s| - i
  {
    if i < |s| && Deeper(s[i], depth) > 0 { ScanStops(s, i + 1, Deeper(s[i], depth)); }
  }

  lemma CallJoins(s: string, p: nat, arg: string, fallback: string)
    requires At(s, p, COALESCE) && At(s, p + OPENING, arg) && Is(s, p + OPENING + |arg|, ',')
    requires At(s, p + OPENING + |arg| + 1, fallback) && Is(s, p + OPENING + |arg| + 1 + |fallback|, ')')
    ensures At(s, p, CallText(arg, fallback))
  {
    var c := p + OPENING + |arg|;
    SliceAt(s, c, c + 1);
    SliceAt(s, c + 1 + |fallback|, c + 2 + |fallback|);
    assert s[c..c + 1] == "," && s[c + 1 + |fallback|..c + 2 + |fallback|] == ")";
    hide At;
    AtConcat(s, c + 1, fallback, ")");
    AtConcat(s, c, ",", fallback + ")");
    AtConcat(s, p + OPENING, arg, "," + (fallback + ")"));
    AtConcat(s, p, COALESCE, arg + ("," + (fallback + ")")));
  }

  lemma CallLength(arg: string, fallback: string)
    ensures |CallText(arg, fallback)| == OPENING + |arg| + 1 + |fallback| + 1
  {}

  // m is the call with this argument and fallback, at the first free token of s.
  predicate IsFirst(s: string, m: Match, arg: string, fallback: string) {
    && FreeAt(s, m.start) && NoneFree(s, m.start)
    && At(s, m.start, CallText(arg, fallback)) && Kept(arg, 0, 1, false) && Kept(fallback, 0, 1, true)
    && m == Match(Trim(arg), Trim(fallback), m.start, m.start + |CallText(arg, fallback)|)
  }

  // What extractCoalesce returns, for every text: the call at the first free
  // token, if the scan keeps what stands there, and else nothing.
  lemma ExtractIsFirst(s: string, m: Match)
    ensures ExtractCoalesce(s) == Some(m) <==> exists arg, fallback :: IsFirst(s, m, arg, fallback)
  {
    hide At, Kept, Trim, CallText, OpensAt, FirstCoalesce, CallAt, IsIdentChar;
    FirstIsFree(s, 0, false);
    if ExtractCoalesce(s) == Some(m) {
      var p := FirstCoalesce(s, 0, false).value;
      var arg, fallback := FoundIsKept(s, p);
      CallIsFound(s, p, arg, fallback);
      assert IsFirst(s, m, arg, fallback);
    }
    if arg, fallback :| IsFirst(s, m, arg, fallback) {
      OpensFits(s, m.start);
      CallIsFound(s, m.start, arg, fallback);
    }
  }

  lemma OpensFits(s: string, p: nat)
    requires OpensAt(s, p)
    ensures p + OPENING <= |s|
  {}

  // A call is found behind the text r exactly when r has no free token: a token
  // of r, whether it begins a call or not, hides every later one.
  lemma CallIsFoundBehind(r: string, arg: string, fallback: string, more: string)
    requires Kept(arg, 0, 1, false) && Kept(fallback, 0, 1, true) && (r == "" || !IsIdentChar(r[|r| - 1]))
    ensures var call := CallText(arg, fallback);
      ExtractCoalesce(r + (call + more)) == Some(Match(Trim(arg), Trim(fallback), |r|, |r| + |call|))
      <==> NoneFree(r, |r|)
  {
    hide At, Kept, Trim, CallText, OpensAt, FirstCoalesce, CallAt, IsIdentChar, FreeAt;
    var call := CallText(arg, fallback);
    var s := r + (call + more);
    AtWhole(s);
    AtConcat(s, 0, r, call + more);
    AtConcat(s, |r|, call, more);
    CallIsFound(s, |r|, arg, fallback);
    FreeBehind(r, call + more);
    var m := Match(Trim(arg), Trim(fallback), |r|, |r| + |call|);
    ExtractIsFirst(s, m);
    if NoneFree(r, |r|) { assert IsFirst(s, m, arg, fallback); }
  }

  // Up to its end a text has the free tokens that it has on its own, if it ends
  // in no identifier.
  lemma FreeBehind(r: string, more: string)
    requires r == "" || !IsIdentChar(r[|r| - 1])
    ensures forall p: nat :: p < |r| ==> (FreeAt(r + more, p) <==> FreeAt(r, p))
    ensures OpensAt(r + more, |r|) ==> FreeAt(r + more, |r|)
  {
    var s := r + more;
    assert forall k :: 0 <= k < |r| ==> s[k] == r[k];
    forall p: nat | p < |r| && OpensAt(s, p)
      ensures OpensAt(r, p)
    {
      TokenChars(s, p);
    }
  }

  lemma TokenChars(s: string, p: nat)
    requires OpensAt(s, p)
    ensures forall k :: p <= k < p + OPENING - 1 ==> IsIdentChar(s[k])
    ensures forall k :: p <= k < p + OPENING ==> s[k] != '\''
  {}

  // ----- calls in quoted keys -----

  // A quoted key before a call leaves it to be found exactly when no free token
  // is in the key.
  lemma KeyHidesIff(key: string, arg: string, fallback: string, more: string)
    requires Kept(arg, 0, 1, false) && Kept(fallback, 0, 1, true)
    ensures var r, call := KeyRef(key), CallText(arg, fallback);
      ExtractCoalesce(r + (call + more)) == Some(Match(Trim(arg), Trim(fallback), |r|, |r| + |call|))
      <==> NoneFree(key, |key|)
  {
    hide At, Kept, Trim, CallText, ExtractCoalesce, FreeAt;
    NoIdentAtEnd(key);
    CallIsFoundBehind(KeyRef(key), arg, fallback, more);
    forall p: nat | p < |key| ensures FreeAt(KeyRef(key), p + 3) <==> FreeAt(key, p) { FreeInKey(key, p); }
    forall p: nat | p < |KeyRef(key)| && (p < 3 || p >= |key| + 3) ensures !FreeAt(KeyRef(key), p) { NoneAround(key, p); }
    if NoneFree(key, |key|) {
      forall p: nat | p < |KeyRef(key)| ensures !FreeAt(KeyRef(key), p) { if 3 <= p < |key| + 3 { assert !FreeAt(key, p - 3); } }
    }
  }

  lemma NoIdentAtEnd(key: string)
    ensures |KeyRef(key)| == |key| + 5 && KeyRef(key)[|key| + 4] == ']' && !IsIdentChar(']')
  {}

  lemma NoneAround(key: string, p: nat)
    requires p < 3 || p >= |key| + 3
    ensures !FreeAt(KeyRef(key), p)
  {
    var s := KeyRef(key);
    assert s[0] == '$' && s[1] == '[' && s[2] == '\'' && s[|key| + 3] == '\'';
  }

  lemma FreeInKey(key: string, p: nat)
    requires p < |key|
    ensures FreeAt(KeyRef(key), p + 3) <==> FreeAt(key, p)
  {
    var s := KeyRef(key);
    assert forall k :: 0 <= k < |key| ==> s[k + 3] == key[k];
    assert s[2] == '\'' && s[|key| + 3] == '\'';
    if OpensAt(s, p + 3) { TokenChars(s, p + 3); }
    assert OpensAt(key, p) ==> OpensAt(s, p + 3);
  }

  // A call in a key is taken for one,
  lemma CallsInKeys(arg: string, fallback: string, more: string)
    requires Kept(arg, 0, 1, false) && Kept(fallback, 0, 1, true)
    ensures var call := CallText(arg, fallback);
      ExtractCoalesce(KeyRef(call + more)) == Some(Match(Trim(arg), Trim(fallback), 3, 3 + |call|))
  {
    hide At, Kept, Trim, CallText, KeyRef, OpensAt, FirstCoalesce, CallAt;
    var s := KeyRef(CallText(arg, fallback) + more);
    KeyHolds(CallText(arg, fallback), more);
    CallIsFound(s, 3, arg, fallback);
    FirstInKey(s);
  }

  // and a token in a key that begins no call hides whatever stands behind it.
  lemma KeysHide(inside: string, more: string, rest: string)
    requires Kept(inside, 0, 1, false)
    ensures FindInnermost(KeyRef(COALESCE + (inside + ")") + more) + rest) == None
  {
    hide At, Kept, OpensAt, FirstCoalesce, CloseParen, TopComma, KeyRef, Is, Trim;
    var token := COALESCE + (inside + ")");
    var s := KeyRef(token + more) + rest;
    KeyHolds(token, more);
    AtWhole(s);
    AtConcat(s, 0, KeyRef(token + more), rest);
    AtPart(s, KeyRef(token + more), token);
    AtConcat(s, 3, COALESCE, inside + ")");
    AtConcat(s, 3 + OPENING, inside, ")");
    OpensAtIsAt(s, 3);
    FirstInKey(s);
    SkipKept(s, 3 + OPENING, inside, 0, 1, 0, false);
    AtIndex(s, 3 + OPENING + |inside|, ")", 0);
    AtClose(s, 3 + OPENING + |inside|);
  }

  lemma AtPart(s: string, r: string, t: string)
    requires At(s, 0, r) && Is(r, 0, '$') && Is(r, 1, '[') && Is(r, 2, '\'') && At(r, 3, t)
    ensures Is(s, 0, '$') && Is(s, 1, '[') && Is(s, 2, '\'') && At(s, 3, t)
  {
    AtChars(s, 0, r);
    AtChars(r, 3, t);
    assert forall k :: 0 <= k < |t| ==> t[k] == r[3 + k] == s[3 + k];
  }

  lemma KeyHolds(call: string, more: string)
    ensures var s := KeyRef(call + more); Is(s, 0, '$') && Is(s, 1, '[') && Is(s, 2, '\'') && At(s, 3, call)
  {
    var s := KeyRef(call + more);
    assert s == "$['" + (call + (more + "']"));
    AtWhole(s);
    AtConcat(s, 0, "$['", call + (more + "']"));
    AtConcat(s, 3, call, more + "']");
  }

  lemma FirstInKey(s: string)
    requires Is(s, 0, '$') && Is(s, 1, '[') && Is(s, 2, '\'') && OpensAt(s, 3)
    ensures FirstCoalesce(s, 0, false) == Some(3)
  {
    hide FirstCoalesce;
    FirstHere(s, 3);
    NotFirst(s, 2, false);
    NotFirst(s, 1, true);
    NotFirst(s, 0, false);
  }

  lemma NotFirst(s: string, i: nat, glued: bool)
    requires i < |s| && s[i] != 'c'
    ensures FirstCoalesce(s, i, glued) == FirstCoalesce(s, i + 1, IsIdentChar(s[i]))
  {}

  // ----- JSONPath references -----

  datatype Class = WordOrDash | NotQuote | Number {
    predicate Has(c: char) {
      match this
      case WordOrDash => IsWord(c) || c == '-'
      case NotQuote => c != '\''
      case Number => IsDigit(c)
    }
  }

  // End of the longest run of characters of the class that starts at i.
  function RunEnd(s: string, i: nat, k: Class): (j: nat)
    requires i <= |s|
    ensures i <= j <= |s| && (j < |s| ==> !k.Has(s[j]))
    decreases |s| - i
  {
    if i < |s| && k.Has(s[i]) then RunEnd(s, i + 1, k) else i
  }

  lemma {:induction false} RunChars(s: string, i: nat, k: Class)
    requires i <= |s|
    ensures forall m :: i <= m < RunEnd(s, i, k) ==> k.Has(s[m])
    decreases |s| - i
  {
    if i < |s| && k.Has(s[i]) { RunChars(s, i + 1, k); }
  }

  // End of the one step `.name`, `['key']` or `[0]` that starts at i; i if none does.
  function StepEnd(s: string, i: nat): (j: nat)
    requires i <= |s|
    ensures i <= j <= |s|
  {
    if Is(s, i, '.') then
      var e := RunEnd(s, i + 1, WordOrDash);
      if e > i + 1 then e else i
    else if Is(s, i, '[') && Is(s, i + 1, '\'') then
      var e := RunEnd(s, i + 2, NotQuote);
      if Is(s, e, '\'') && Is(s, e + 1, ']') then e + 2 else i
    else if Is(s, i, '[') then
      var e := RunEnd(s, i + 1, Number);
      if e > i + 1 && Is(s, e, ']') then e + 1 else i
    else i
  }

  function StepsEnd(s: string, i: nat): (j: nat)
    requires i <= |s|
    ensures i <= j <= |s|
    decreases |s| - i
  {
    var e := StepEnd(s, i);
    if e == i then i else StepsEnd(s, e)
  }

  // End of the match of JSONPATH_REF that starts at i; i if none does.
  function RefEnd(s: string, i: nat): (j: nat)
    requires i <= |s|
    ensures i <= j <= |s|
  {
    if Is(s, i, '$') && StepsEnd(s, i + 1) > i + 1 then StepsEnd(s, i + 1) else i
  }

  // Every match of JSONPATH_REF from i on, in order.
  function PlainRefs(s: string, i: nat): seq<string>
    requires i <= |s|
    decreases |s| - i
  {
    if i == |s| then []
    else if RefEnd(s, i) > i then [s[i..RefEnd(s, i)]] + PlainRefs(s, RefEnd(s, i))
    else PlainRefs(s, i + 1)
  }

  method ExtractPlainRefs(expr: string) returns (refs: seq<string>)
    ensures refs == PlainRefs(expr, 0)
  {
    refs := [];
    var lastIndex := 0;
    while lastIndex < |expr|
      invariant lastIndex <= |expr|
      invariant PlainRefs(expr, 0) == refs + PlainRefs(expr, lastIndex)
    {
      var end := RefEnd(expr, lastIndex);
      if end > lastIndex {
        refs := refs + [expr[lastIndex..end]];
        lastIndex := end;
      } else {
        lastIndex := lastIndex + 1;
      }
    }
  }
}
