// The response fields that a capture expression reads, and the conflicts
// between them (packages/gateway-nginx/src/analyzer.ts).
module CapturePaths {
  import opened Text
  import opened PricingScanner
  import Tree = PricingTree
  import Lexing = PricingLexing

  // ----- references -----

  const BODY := "$.response.body"
  const BODY_DOT := "$.response.body."
  const BODY_BRACKET := "$.response.body["
  const HEADERS_DOT := "$.response.headers."
  const HEADERS_BRACKET := "$.response.headers["
  const STATUS := "$.response.status"
  const RESPONSE := "$.response."

  datatype Source = Headers | Status | Body

  datatype Field = Field(path: string, source: Source)

  function ClassifyRef(path: string): Source {
    if HEADERS_DOT <= path || HEADERS_BRACKET <= path then Headers
    else if path == STATUS then Status else Body
  }

  // ----- splitBodyPathSegments -----

  function IndexOf(s: string, t: string, from: nat): (r: Option<nat>)
    ensures r.Some? ==> from <= r.value && r.value + |t| <= |s|
    decreases |s| - from
  {
    if from + |t| > |s| then None else if At(s, from, t) then Some(from) else IndexOf(s, t, from + 1)
  }

  // End of the run without dot and opening bracket that starts at i.
  function PlainEnd(r: string, i: nat): (j: nat)
    requires i <= |r|
    ensures i <= j <= |r|
    decreases |r| - i
  {
    if i < |r| && r[i] != '.' && r[i] != '[' then PlainEnd(r, i + 1) else i
  }

  function PastDot(r: string, i: nat): nat { if Is(r, i, '.') then i + 1 else i }

  function Closing(quoted: bool): string { if quoted then "']" else "]" }

  // The segment that starts at i, and where the next one does.
  function Next(r: string, i: nat): (n: Option<(string, nat)>)
    requires i < |r|
    ensures n.Some? ==> i < n.value.1
  {
    if r[i] == '[' then
      var quoted := Is(r, i + 1, '\'');
      var open := if quoted then i + 2 else i + 1;
      var close := IndexOf(r, Closing(quoted), open);
      if close.None? then None
      else Some((r[open..close.value], PastDot(r, close.value + |Closing(quoted)|)))
    else
      var end := PlainEnd(r, i);
      if end == i then None else Some((r[i..end], PastDot(r, end)))
  }

  function SegmentsFrom(r: string, i: nat): seq<string>
    decreases |r| - i
  {
    if i >= |r| then []
    else
      var n := Next(r, i);
      if n.None? then [] else [n.value.0] + SegmentsFrom(r, n.value.1)
  }

  function Segments(ref: string): seq<string> {
    if BODY_DOT <= ref then SegmentsFrom(ref[|BODY_DOT|..], 0)
    else if BODY_BRACKET <= ref then SegmentsFrom(ref[|BODY|..], 0) else []
  }

  method SplitBodyPathSegments(ref: string) returns (segments: seq<string>)
    ensures segments == Segments(ref)
  {
    var remainder: string;
    if BODY_DOT <= ref {
      remainder := ref[|BODY_DOT|..];
    } else if BODY_BRACKET <= ref {
      remainder := ref[|BODY|..];
    } else {
      return [];
    }
    segments := SplitRemainder(remainder);
  }

  method SplitRemainder(remainder: string) returns (segments: seq<string>)
    ensures segments == SegmentsFrom(remainder, 0)
  {
    hide Next;
    segments := [];
    var i := 0;
    while i < |remainder|
      invariant segments + SegmentsFrom(remainder, i) == SegmentsFrom(remainder, 0)
      decreases |remainder| - i
    {
      var n := SplitOne(remainder, i);
      if n.None? { break; }
      segments := segments + [n.value.0];
      i := n.value.1;
    }
  }

  // One round of the loop: the segment and the position after it and its dot.
  method SplitOne(remainder: string, start: nat) returns (n: Option<(string, nat)>)
    requires start < |remainder|
    ensures n == Next(remainder, start)
  {
    hide IndexOf, PlainEnd;
    var i := start;
    var segment;
    if remainder[i] == '[' {
      if i + 1 < |remainder| && remainder[i + 1] == '\'' {
        var close := IndexOf(remainder, "']", i + 2);
        if close.None? { return None; }
        segment := remainder[i + 2..close.value];
        i := close.value + 2;
      } else {
        var close := IndexOf(remainder, "]", i + 1);
        if close.None? { return None; }
        segment := remainder[i + 1..close.value];
        i := close.value + 1;
      }
    } else {
      var end := FindEnd(remainder, i);
      if end == i { return None; }
      segment := remainder[i..end];
      i := end;
    }
    if i < |remainder| && remainder[i] == '.' { i := i + 1; }
    return Some((segment, i));
  }

  method FindEnd(r: string, i: nat) returns (end: nat)
    requires i <= |r|
    ensures end == PlainEnd(r, i)
  {
    end := i;
    while end < |r| && r[end] != '.' && r[end] != '['
      invariant i <= end <= |r| && PlainEnd(r, end) == PlainEnd(r, i)
    {
      end := end + 1;
    }
  }

  lemma SegmentsStep(r: string, i: nat)
    requires i < |r|
    ensures var n := Next(r, i);
      SegmentsFrom(r, i) == if n.None? then [] else [n.value.0] + SegmentsFrom(r, n.value.1)
  {
    hide Next;
  }

  lemma SegmentsEnd(r: string, i: nat)
    requires i >= |r|
    ensures SegmentsFrom(r, i) == []
  {}

  lemma ClosingIs()
    ensures |Closing(true)| == 2 && Closing(true)[0] == '\'' && |Closing(false)| == 1 && Closing(false)[0] == ']'
  {}

  lemma NextBracket(r: string, i: nat, quoted: bool)
    requires Is(r, i, '[') && quoted == Is(r, i + 1, '\'')
    ensures var open := if quoted then i + 2 else i + 1;
      var close := IndexOf(r, Closing(quoted), open);
      Next(r, i) == if close.None? then None
        else Some((r[open..close.value], PastDot(r, close.value + |Closing(quoted)|)))
  {
    hide IndexOf, Closing;
  }

  lemma NextPlain(r: string, i: nat)
    requires i < |r| && r[i] != '['
    ensures var end := PlainEnd(r, i);
      Next(r, i) == if end == i then None else Some((r[i..end], PastDot(r, end)))
  {
    hide PlainEnd;
  }

  // ----- rendered paths -----

  datatype Step = Dot(name: string) | Quoted(key: string) | Index(digits: string)

  predicate IsStep(p: Step) {
    match p
    case Dot(name) => name != "" && forall k :: 0 <= k < |name| ==> WordOrDash.Has(name[k])
    case Quoted(key) => forall k :: 0 <= k < |key| ==> key[k] != '\''
    case Index(digits) => digits != "" && forall k :: 0 <= k < |digits| ==> IsDigit(digits[k])
  }

  predicate AreSteps(ps: seq<Step>) { forall p <- ps :: IsStep(p) }

  function StepText(p: Step): string {
    match p
    case Dot(name) => "." + name
    case Quoted(key) => "['" + (key + Closing(true))
    case Index(digits) => "[" + (digits + Closing(false))
  }

  function Tail(ps: seq<Step>): string {
    if ps == [] then "" else StepText(ps[0]) + Tail(ps[1..])
  }

  function Render(ps: seq<Step>): string { BODY + Tail(ps) }

  function Name(p: Step): string {
    match p
    case Dot(name) => name
    case Quoted(key) => key
    case Index(digits) => digits
  }

  function Names(ps: seq<Step>): seq<string> {
    if ps == [] then [] else [Name(ps[0])] + Names(ps[1..])
  }

  lemma {:induction false} IndexOfAt(s: string, t: string, from: nat, at: nat)
    requires from <= at && At(s, at, t) && forall k :: from <= k < at ==> !At(s, k, t)
    ensures IndexOf(s, t, from) == Some(at)
    decreases at - from
  {
    hide At;
    AtIs(s, at, t);
    if from < at { IndexOfAt(s, t, from + 1, at); }
  }

  lemma {:induction false} PlainEndAt(r: string, i: nat, name: string, k: nat)
    requires At(r, i, name) && k <= |name| && forall m :: 0 <= m < |name| ==> name[m] != '.' && name[m] != '['
    requires i + |name| == |r| || Is(r, i + |name|, '.') || Is(r, i + |name|, '[')
    ensures PlainEnd(r, i + k) == i + |name|
    decreases |name| - k
  {
    if k < |name| {
      AtIndex(r, i, name, k);
      PlainEndAt(r, i, name, k + 1);
    }
  }

  // The first occurrence of close after name.
  lemma ClosesAt(r: string, o: nat, name: string, close: string)
    requires At(r, o, name + close) && close != "" && forall k :: 0 <= k < |name| ==> name[k] != close[0]
    ensures o + |name| + |close| <= |r|
    ensures IndexOf(r, close, o) == Some(o + |name|) && r[o..o + |name|] == name
  {
    hide At, IndexOf;
    var c := o + |name|;
    AtConcat(r, o, name, close);
    AtIs(r, c, close);
    AtIs(r, o, name);
    forall k | o <= k < c ensures !At(r, k, close) {
      AtIndex(r, o, name, k - o);
      NotAt(r, k, close);
    }
    IndexOfAt(r, close, o, c);
  }

  lemma QuotedParts(r: string, i: nat, key: string, close: string)
    requires At(r, i, "['" + (key + close))
    ensures Is(r, i, '[') && Is(r, i + 1, '\'') && At(r, i + 2, key + close)
  {
    hide At;
    AtConcat(r, i, "['", key + close);
    AtIndex(r, i, "['", 0);
    AtIndex(r, i, "['", 1);
  }

  lemma QuotedSplits(r: string, i: nat, key: string)
    requires IsStep(Quoted(key)) && At(r, i, StepText(Quoted(key)))
    ensures var e := i + |key| + 4;
      e <= |r| && Next(r, i) == Some((key, PastDot(r, e)))
  {
    hide At, Next, IndexOf, PastDot, Closing, Is;
    QuotedParts(r, i, key, Closing(true));
    ClosingIs();
    ClosesAt(r, i + 2, key, Closing(true));
    NextBracket(r, i, true);
  }

  lemma IndexParts(r: string, i: nat, digits: string, close: string)
    requires At(r, i, "[" + (digits + close)) && digits != "" && IsDigit(digits[0])
    ensures Is(r, i, '[') && !Is(r, i + 1, '\'') && At(r, i + 1, digits + close)
  {
    hide At;
    AtConcat(r, i, "[", digits + close);
    AtConcat(r, i + 1, digits, close);
    AtIndex(r, i, "[", 0);
    AtIndex(r, i + 1, digits, 0);
  }

  lemma IndexSplits(r: string, i: nat, digits: string)
    requires IsStep(Index(digits)) && At(r, i, StepText(Index(digits)))
    ensures var e := i + |digits| + 2;
      e <= |r| && Next(r, i) == Some((digits, PastDot(r, e)))
  {
    hide At, Next, IndexOf, PastDot, Closing, Is;
    IndexParts(r, i, digits, Closing(false));
    ClosingIs();
    ClosesAt(r, i + 1, digits, Closing(false));
    NextBracket(r, i, false);
  }

  // A quoted or numeric step that starts at i is split off.
  lemma BracketSplits(r: string, i: nat, p: Step)
    requires IsStep(p) && !p.Dot? && At(r, i, StepText(p))
    ensures var e := i + |StepText(p)|;
      e <= |r| && SegmentsFrom(r, i) == [Name(p)] + SegmentsFrom(r, PastDot(r, e))
  {
    hide At, SegmentsFrom, Next, PastDot, IsStep, Closing;
    ClosingIs();
    if p.Quoted? { QuotedSplits(r, i, p.key); } else { IndexSplits(r, i, p.digits); }
    SegmentsStep(r, i);
  }

  lemma NotAt(s: string, i: nat, t: string)
    requires i < |s| && t != "" && s[i] != t[0]
    ensures !At(s, i, t)
  {
    assert i + |t| <= |s| ==> s[i..i + |t|][0] == s[i];
  }

  // Where a step may be followed: by the end or by another step.
  lemma {:induction false} SplitsTail(r: string, i: nat, ps: seq<Step>)
    requires AreSteps(ps) && At(r, i, Tail(ps)) && i + |Tail(ps)| == |r|
    ensures SegmentsFrom(r, PastDot(r, i)) == Names(ps)
    decreases |ps|
  {
    hide At, SegmentsFrom, IsStep, StepText, Name;
    if ps == [] {
      NoSegments(r);
    } else {
      var p, rest := ps[0], Tail(ps[1..]);
      var e := i + |StepText(p)|;
      assert IsStep(p);
      AtConcat(r, i, StepText(p), rest);
      SplitsTail(r, e, ps[1..]);
      StepStarts(r, i, p);
      if p.Dot? {
        NextStarts(r, e, ps[1..]);
        DotSplits(r, i, p);
      } else {
        BracketSplits(r, i, p);
      }
    }
  }

  lemma NoSegments(r: string)
    ensures SegmentsFrom(r, |r|) == []
  {}

  lemma StepStarts(r: string, i: nat, p: Step)
    requires At(r, i, StepText(p))
    ensures i < |r| && r[i] == (if p.Dot? then '.' else '[')
  {
    AtIndex(r, i, StepText(p), 0);
  }

  lemma NextStarts(r: string, i: nat, ps: seq<Step>)
    requires At(r, i, Tail(ps)) && i + |Tail(ps)| == |r|
    ensures i == |r| || Is(r, i, '.') || Is(r, i, '[')
  {
    hide At, StepText;
    if ps != [] {
      AtConcat(r, i, StepText(ps[0]), Tail(ps[1..]));
      StepStarts(r, i, ps[0]);
    }
  }

  lemma DotParts(r: string, i: nat, name: string)
    requires IsStep(Dot(name)) && At(r, i, "." + name)
    ensures name != "" && i + 1 + |name| <= |r| && At(r, i + 1, name) && r[i + 1..i + 1 + |name|] == name && r[i + 1] != '['
    ensures forall m :: 0 <= m < |name| ==> name[m] != '.' && name[m] != '['
  {
    assert !WordOrDash.Has('.') && !WordOrDash.Has('[');
    AtConcat(r, i, ".", name);
    hide At;
    AtIs(r, i + 1, name);
    AtIndex(r, i + 1, name, 0);
  }

  lemma DotSplits(r: string, i: nat, p: Step)
    requires IsStep(p) && p.Dot? && At(r, i, StepText(p))
    requires var e := i + |StepText(p)|; e == |r| || Is(r, e, '.') || Is(r, e, '[')
    ensures var e := i + |StepText(p)|;
      i < |r| && e <= |r| && SegmentsFrom(r, i + 1) == [Name(p)] + SegmentsFrom(r, PastDot(r, e))
  {
    hide At, SegmentsFrom, Next, PastDot, IsStep, StepText;
    assert p == Dot(p.name);
    assert StepText(p) == "." + p.name by { DotText(p.name); }
    DotNext(r, i, p.name);
    SegmentsStep(r, i + 1);
  }

  lemma DotText(name: string)
    ensures StepText(Dot(name)) == "." + name
  {}

  lemma DotNext(r: string, i: nat, name: string)
    requires IsStep(Dot(name)) && At(r, i, "." + name)
    requires var e := i + 1 + |name|; e == |r| || Is(r, e, '.') || Is(r, e, '[')
    ensures var e := i + 1 + |name|;
      i + 1 < e <= |r| && Next(r, i + 1) == Some((name, PastDot(r, e)))
  {
    hide At, Next, PlainEnd, PastDot, IsStep;
    DotParts(r, i, name);
    PlainEndAt(r, i + 1, name, 0);
    NextPlain(r, i + 1);
  }

  // Splitting inverts rendering, for every mix of the three kinds of step.
  lemma SplitsRendered(ps: seq<Step>)
    requires AreSteps(ps) && ps != []
    ensures Segments(Render(ps)) == Names(ps)
  {
    hide SegmentsFrom, IsStep, Names, At, StepText;
    var tail := Tail(ps);
    AtWhole(tail);
    AtConcat(tail, 0, StepText(ps[0]), Tail(ps[1..]));
    StepStarts(tail, 0, ps[0]);
    SplitsTail(tail, 0, ps);
    BodyPrefix(tail);
    if ps[0].Dot? { SegmentsShift(tail, 1, 0); }
  }

  lemma BodyPrefix(tail: string)
    requires tail != "" && (tail[0] == '.' || tail[0] == '[')
    ensures Segments(BODY + tail) == if tail[0] == '.' then SegmentsFrom(tail[1..], 0) else SegmentsFrom(tail, 0)
  {
    hide SegmentsFrom;
    var ref := BODY + tail;
    assert ref[..|BODY|] == BODY && ref[|BODY|..] == tail && ref[|BODY|] == tail[0];
    assert BODY_DOT == BODY + ['.'] && BODY_BRACKET == BODY + ['['];
    if tail[0] == '.' {
      assert ref[..|BODY| + 1] == BODY_DOT && ref[|BODY_DOT|..] == tail[1..];
    } else {
      assert ref[..|BODY| + 1] == BODY_BRACKET && BODY_DOT[|BODY|] == '.';
    }
  }

  // Splitting looks at what is left only.
  lemma {:induction false} SegmentsShift(r: string, n: nat, i: nat)
    requires n <= |r|
    ensures SegmentsFrom(r, n + i) == SegmentsFrom(r[n..], i)
    decreases |r| - i
  {
    hide Next, SegmentsFrom;
    var s := r[n..];
    if i < |s| {
      SegmentsStep(s, i);
      SegmentsStep(r, n + i);
      NextShift(r, n, i);
      if Next(s, i).Some? { SegmentsShift(r, n, Next(s, i).value.1); }
    } else {
      SegmentsEnd(s, i);
      SegmentsEnd(r, n + i);
    }
  }

  lemma NextShift(r: string, n: nat, i: nat)
    requires n <= |r| && i < |r[n..]|
    ensures var a, b := Next(r[n..], i), Next(r, n + i);
      b == if a.None? then None else Some((a.value.0, n + a.value.1))
  {
    hide IndexOf, PlainEnd, Next, Closing;
    var s := r[n..];
    assert s[i] == r[n + i];
    if s[i] == '[' {
      var quoted := Is(s, i + 1, '\'');
      assert quoted == Is(r, n + i + 1, '\'');
      NextBracket(s, i, quoted);
      NextBracket(r, n + i, quoted);
      SliceShift(r, n, Closing(quoted), if quoted then i + 2 else i + 1);
    } else {
      NextPlain(s, i);
      NextPlain(r, n + i);
      PlainEndShift(r, n, i);
      assert s[i..PlainEnd(s, i)] == r[n + i..n + PlainEnd(s, i)];
    }
  }

  lemma SliceShift(r: string, n: nat, t: string, open: nat)
    requires n <= |r|
    ensures var a, b := IndexOf(r[n..], t, open), IndexOf(r, t, n + open);
      b == Shift(a, n) && (a.Some? ==> r[n..][open..a.value] == r[n + open..n + a.value])
  {
    hide IndexOf;
    IndexOfShift(r, n, t, open);
  }

  lemma {:induction false} IndexOfShift(r: string, n: nat, t: string, from: nat)
    requires n <= |r|
    ensures IndexOf(r, t, n + from) == Shift(IndexOf(r[n..], t, from), n)
    decreases |r| - from
  {
    if n + from + |t| <= |r| {
      assert r[n..][from..from + |t|] == r[n + from..n + from + |t|];
      IndexOfShift(r, n, t, from + 1);
    }
  }

  lemma {:induction false} PlainEndShift(r: string, n: nat, i: nat)
    requires n + i <= |r|
    ensures PlainEnd(r, n + i) == n + PlainEnd(r[n..], i)
    decreases |r| - i
  {
    if n + i < |r| { PlainEndShift(r, n, i + 1); }
  }

  // ----- validateCapturePathConflicts -----

  // Two fields of the body, one inside the other.
  predicate Conflict(fields: seq<Field>, i: nat, j: nat)
    requires i < |fields| && j < |fields|
  {
    && fields[i].source == Body && fields[j].source == Body
    && Segments(fields[i].path) < Segments(fields[j].path)
  }

  predicate Conflicting(fields: seq<Field>) {
    exists i: nat, j: nat :: i < |fields| && j < |fields| && Conflict(fields, i, j)
  }

  function BodyOf(fields: seq<Field>): seq<string> {
    if fields == [] then []
    else
      var all, last := BodyOf(fields[..|fields| - 1]), fields[|fields| - 1];
      if last.source == Body then all + [last.path] else all
  }

  predicate Nested(paths: seq<string>, i: nat, j: nat)
    requires i < |paths| && j < |paths|
  {
    Segments(paths[i]) < Segments(paths[j]) || Segments(paths[j]) < Segments(paths[i])
  }

  lemma {:induction false} BodyIndex(fields: seq<Field>)
    ensures forall k :: 0 <= k < |fields| && fields[k].source == Body ==> fields[k].path in BodyOf(fields)
    ensures forall p <- BodyOf(fields) :: exists k :: 0 <= k < |fields| && fields[k] == Field(p, Body)
  {
    if fields != [] {
      var init := fields[..|fields| - 1];
      BodyIndex(init);
      forall p | p in BodyOf(fields)
        ensures exists k :: 0 <= k < |fields| && fields[k] == Field(p, Body)
      {
        if p in BodyOf(init) {
          var k :| 0 <= k < |init| && init[k] == Field(p, Body);
          assert fields[k] == Field(p, Body);
        } else {
          assert fields[|fields| - 1] == Field(p, Body);
        }
      }
    }
  }

  lemma NestedIffConflicting(fields: seq<Field>)
    ensures Conflicting(fields) <==> exists a, b :: a in BodyOf(fields) && b in BodyOf(fields) && Segments(a) < Segments(b)
  {
    hide Segments, BodyOf;
    BodyIndex(fields);
    if Conflicting(fields) {
      var i: nat, j: nat :| i < |fields| && j < |fields| && Conflict(fields, i, j);
      assert fields[i].path in BodyOf(fields) && fields[j].path in BodyOf(fields);
    }
    if a, b :| a in BodyOf(fields) && b in BodyOf(fields) && Segments(a) < Segments(b) {
      var i :| 0 <= i < |fields| && fields[i] == Field(a, Body);
      var j :| 0 <= j < |fields| && fields[j] == Field(b, Body);
      assert Conflict(fields, i, j);
    }
  }

  // false: it throws.
  method ValidateCapturePathConflicts(fields: seq<Field>) returns (ok: bool)
    ensures ok <==> !Conflicting(fields)
  {
    hide Segments;
    var paths: seq<string> := [];
    var segments: seq<seq<string>> := [];
    for i := 0 to |fields|
      invariant paths == BodyOf(fields[..i]) && |segments| == |paths|
      invariant forall k :: 0 <= k < |paths| ==> segments[k] == Segments(paths[k])
    {
      assert fields[..i + 1][..i] == fields[..i];
      if fields[i].source != Body { continue; }
      var split := SplitBodyPathSegments(fields[i].path);
      paths, segments := paths + [fields[i].path], segments + [split];
    }
    assert fields[..|fields|] == fields;
    NestedIffConflicting(fields);
    ok := NoneNested(paths, segments);
    if ok {
      forall a, b | a in paths && b in paths ensures !(Segments(a) < Segments(b)) {
        var i :| 0 <= i < |paths| && paths[i] == a;
        var j :| 0 <= j < |paths| && paths[j] == b;
        assert i < j ==> !Nested(paths, i, j);
        assert j < i ==> !Nested(paths, j, i);
      }
    }
  }

  method NoneNested(paths: seq<string>, segments: seq<seq<string>>) returns (ok: bool)
    requires |segments| == |paths| && forall k :: 0 <= k < |paths| ==> segments[k] == Segments(paths[k])
    ensures ok <==> forall i: nat, j: nat :: i < j < |paths| ==> !Nested(paths, i, j)
    ensures !ok ==> exists a, b :: a in paths && b in paths && Segments(a) < Segments(b)
  {
    hide Segments;
    for i := 0 to |paths|
      invariant forall m: nat, n: nat :: m < i && m < n < |paths| ==> !Nested(paths, m, n)
    {
      for j := i + 1 to |paths|
        invariant forall n: nat :: i < n < j ==> !Nested(paths, i, n)
      {
        var a, b := segments[i], segments[j];
        if |a| == |b| { continue; }
        var shorter, longer := if |a| < |b| then a else b, if |a| < |b| then b else a;
        var isPrefix := IsPrefix(shorter, longer);
        if isPrefix {
          assert Nested(paths, i, j);
          assert paths[i] in paths && paths[j] in paths;
          return false;
        }
      }
    }
    return true;
  }

  method IsPrefix(shorter: seq<string>, longer: seq<string>) returns (isPrefix: bool)
    requires |shorter| < |longer|
    ensures isPrefix <==> shorter < longer
  {
    isPrefix := true;
    for k := 0 to |shorter|
      invariant isPrefix && shorter[..k] == longer[..k]
    {
      if shorter[k] != longer[k] {
        isPrefix := false;
        break;
      }
    }
    assert isPrefix ==> shorter == shorter[..|shorter|];
  }

  // ----- analyzeRule -----

  // None: a reference goes on in a way the extractor does not support.
  function ResponseRefs(s: string, i: nat): Option<seq<string>>
    requires i <= |s|
    decreases |s| - i
  {
    if i == |s| then Some([])
    else
      var end := RefEnd(s, i);
      if end == i then ResponseRefs(s, i + 1)
      else if Is(s, end, '[') || Is(s, end, '.') then None
      else Prepend(s[i..end], ResponseRefs(s, end))
  }

  function Prepend(ref: string, refs: Option<seq<string>>): Option<seq<string>> {
    if refs.None? then None else Some((if RESPONSE <= ref then [ref] else []) + refs.value)
  }

  function Joined(refs: seq<string>, more: Option<seq<string>>): Option<seq<string>> {
    if more.None? then None else Some(refs + more.value)
  }

  method ExtractResponseRefs(expression: string) returns (r: Option<seq<string>>)
    ensures r == ResponseRefs(expression, 0)
  {
    hide RefEnd, ResponseRefs;
    var refs: seq<string> := [];
    var lastIndex := 0;
    JoinedNone(ResponseRefs(expression, 0));
    while lastIndex < |expression|
      invariant lastIndex <= |expression|
      invariant ResponseRefs(expression, 0) == Joined(refs, ResponseRefs(expression, lastIndex))
    {
      RefsStep(expression, lastIndex);
      var end := RefEnd(expression, lastIndex);
      if end == lastIndex {
        lastIndex := lastIndex + 1;
      } else {
        if Is(expression, end, '[') || Is(expression, end, '.') { return None; }
        var ref := expression[lastIndex..end];
        JoinedStep(refs, ref, ResponseRefs(expression, end));
        if RESPONSE <= ref { refs := refs + [ref]; }
        lastIndex := end;
      }
    }
    RefsEnd(expression);
    assert refs + [] == refs;
    return Some(refs);
  }

  lemma JoinedNone(more: Option<seq<string>>)
    ensures Joined([], more) == more
  {
    if more.Some? { assert [] + more.value == more.value; }
  }

  lemma JoinedStep(refs: seq<string>, ref: string, more: Option<seq<string>>)
    ensures Joined(refs, Prepend(ref, more)) == Joined(if RESPONSE <= ref then refs + [ref] else refs, more)
  {
    if more.Some? {
      assert refs + ([ref] + more.value) == (refs + [ref]) + more.value;
      assert [] + more.value == more.value;
    }
  }

  lemma RefsStep(s: string, i: nat)
    requires i < |s|
    ensures var end := RefEnd(s, i);
      ResponseRefs(s, i) ==
        if end == i then ResponseRefs(s, i + 1)
        else if Is(s, end, '[') || Is(s, end, '.') then None
        else Prepend(s[i..end], ResponseRefs(s, end))
  {
    hide RefEnd;
  }

  lemma RefsEnd(s: string)
    ensures ResponseRefs(s, |s|) == Some([])
  {}

  // Without repetitions, in the order of first occurrence.
  function Firsts(refs: seq<string>): (r: seq<string>)
    ensures forall x :: x in r <==> x in refs
  {
    if refs == [] then []
    else
      var init, last := refs[..|refs| - 1], refs[|refs| - 1];
      assert refs == init + [last];
      if last in init then Firsts(init) else Firsts(init) + [last]
  }

  function FieldsOf(refs: seq<string>): seq<Field> {
    seq(|refs|, i requires 0 <= i < |refs| => Field(refs[i], ClassifyRef(refs[i])))
  }

  // What a call of jsonSize measures: its reference is s[from..to], and the match
  // ends at end.
  datatype Measure = Measure(from: nat, to: nat, end: nat)

  const JSON_SIZE := "jsonSize"

  // The match of jsonSize\s*\(\s*(reference)\s*\) at i. No shorter reference would
  // let the rest match: what follows a part of one is neither space nor parenthesis.
  function JsonSizeAt(s: string, i: nat): (m: Option<Measure>)
    requires i <= |s|
    ensures m.Some? ==> i < m.value.from < m.value.to < m.value.end <= |s|
  {
    if !At(s, i, JSON_SIZE) then None
    else
      var open := SkipSpace(s, i + |JSON_SIZE|);
      if !Is(s, open, '(') then None
      else
        var from := SkipSpace(s, open + 1);
        var to := RefEnd(s, from);
        var close := SkipSpace(s, to);
        if to == from || !Is(s, close, ')') then None else Some(Measure(from, to, close + 1))
  }

  function JsonSizeRefs(s: string, i: nat): seq<string>
    requires i <= |s|
    decreases |s| - i
  {
    if i == |s| then []
    else
      var m := JsonSizeAt(s, i);
      if m.None? then JsonSizeRefs(s, i + 1)
      else [s[m.value.from..m.value.to]] + JsonSizeRefs(s, m.value.end)
  }

  method FindJSONSizeRefs(expr: string) returns (refs: seq<string>)
    ensures refs == JsonSizeRefs(expr, 0)
  {
    hide JsonSizeAt;
    refs := [];
    var lastIndex := 0;
    while lastIndex < |expr|
      invariant lastIndex <= |expr|
      invariant refs + JsonSizeRefs(expr, lastIndex) == JsonSizeRefs(expr, 0)
    {
      var m := JsonSizeAt(expr, lastIndex);
      if m.None? {
        lastIndex := lastIndex + 1;
      } else {
        refs := refs + [expr[m.value.from..m.value.to]];
        lastIndex := m.value.end;
      }
    }
  }

  predicate MeasuresResponse(expression: string) {
    exists ref <- JsonSizeRefs(expression, 0) :: RESPONSE <= ref
  }

  method DetectJsonSizeOnResponse(expression: string) returns (found: bool)
    ensures found == MeasuresResponse(expression)
  {
    var refs := FindJSONSizeRefs(expression);
    for k := 0 to |refs|
      invariant forall n :: 0 <= n < k ==> !(RESPONSE <= refs[n])
    {
      if RESPONSE <= refs[k] {
        assert refs[k] in refs;
        return true;
      }
    }
    return false;
  }

  datatype Mode = TwoPhase | OnePhase

  datatype Rule = Rule(authorize: Option<string>, capture: string)

  datatype Analysis = Analysis(pricingMode: Mode, captureFields: seq<Field>)

  // None: it throws.
  function Analyze(rule: Rule): Option<Analysis> {
    var refs := ResponseRefs(rule.capture, 0);
    if MeasuresResponse(rule.capture) || refs.None? || BODY in refs.value || Conflicting(FieldsOf(Firsts(refs.value)))
    then None
    else
      var mode := if rule.authorize in {None, Some("")} then OnePhase else TwoPhase;
      Some(Analysis(mode, FieldsOf(Firsts(refs.value))))
  }

  lemma FirstsNone()
    ensures Firsts([]) == [] && FieldsOf([]) == []
  {}

  lemma FirstsStep(refs: seq<string>, ref: string)
    ensures var now, next := Firsts(refs), Firsts(refs + [ref]);
      && next == (if ref in refs then now else now + [ref])
      && FieldsOf(next) == (if ref in refs then FieldsOf(now) else FieldsOf(now) + [Field(ref, ClassifyRef(ref))])
  {
    hide ClassifyRef, FieldsOf;
    FirstsMore(refs, ref);
    FieldsMore(Firsts(refs), ref);
  }

  lemma FirstsMore(refs: seq<string>, ref: string)
    ensures Firsts(refs + [ref]) == if ref in refs then Firsts(refs) else Firsts(refs) + [ref]
  {
    assert (refs + [ref])[..|refs|] == refs;
  }

  lemma FieldsMore(refs: seq<string>, ref: string)
    ensures FieldsOf(refs + [ref]) == FieldsOf(refs) + [Field(ref, ClassifyRef(ref))]
  {
    hide ClassifyRef;
  }

  method AnalyzeRule(rule: Rule) returns (r: Option<Analysis>)
    ensures r == Analyze(rule)
  {
    hide ResponseRefs, FieldsOf, Conflicting, MeasuresResponse, Firsts;
    FirstsNone();
    var pricingMode := if rule.authorize.None? || rule.authorize.value == "" then OnePhase else TwoPhase;
    var jsonSize := DetectJsonSizeOnResponse(rule.capture);
    if jsonSize { return None; }
    var extracted := ExtractResponseRefs(rule.capture);
    if extracted.None? { return None; }
    var refs := extracted.value;
    var seen: set<string> := {};
    var fields: seq<Field> := [];
    for i := 0 to |refs|
      invariant seen == set r | r in refs[..i]
      invariant BODY !in refs[..i] && fields == FieldsOf(Firsts(refs[..i]))
    {
      var ref := refs[i];
      assert refs[..i + 1] == refs[..i] + [ref];
      FirstsStep(refs[..i], ref);
      if ref in seen { continue; }
      seen := seen + {ref};
      if ref == BODY { return None; }
      fields := fields + [Field(ref, ClassifyRef(ref))];
    }
    assert refs[..|refs|] == refs;
    var ok := ValidateCapturePathConflicts(fields);
    return if ok then Some(Analysis(pricingMode, fields)) else None;
  }

  // ----- when a rule is accepted -----

  function Renders(captures: seq<seq<Step>>): seq<string> {
    seq(|captures|, i requires 0 <= i < |captures| => Render(captures[i]))
  }

  // One capture is properly inside another.
  ghost predicate Inside(captures: seq<seq<Step>>) {
    exists i: nat, j: nat :: i < |captures| && j < |captures| && Names(captures[i]) < Names(captures[j])
  }

  lemma RenderIsBody(ps: seq<Step>)
    ensures ClassifyRef(Render(ps)) == Body && (ps != [] ==> Render(ps) != BODY)
  {
    var r := Render(ps);
    assert r[..|BODY|] == BODY && BODY[11] == 'b';
    assert HEADERS_DOT[11] == 'h' && HEADERS_BRACKET[11] == 'h' && STATUS[11] == 's';
    assert r[11] == BODY[11];
    if ps != [] { assert StepText(ps[0]) != "" && |r| > |BODY|; }
  }

  predicate IsBodyPath(ref: string) { BODY_DOT <= ref || BODY_BRACKET <= ref }

  function BodyPaths(refs: seq<string>): (paths: seq<string>)
    ensures forall p :: p in paths <==> p in refs && IsBodyPath(p)
  {
    if refs == [] then []
    else (if IsBodyPath(refs[0]) then [refs[0]] else []) + BodyPaths(refs[1..])
  }

  // A reference that is taken to be in the body and names no field of it, such
  // as $.response.bodies.
  predicate IsStray(ref: string) { ClassifyRef(ref) == Body && !IsBodyPath(ref) }

  predicate AreCaptures(captures: seq<seq<Step>>) { forall ps <- captures :: AreSteps(ps) && ps != [] }

  // Two of the references, one inside the other.
  ghost predicate Clash(refs: seq<string>, i: nat, j: nat)
    requires i < |refs| && j < |refs|
  {
    ClassifyRef(refs[i]) == Body && ClassifyRef(refs[j]) == Body && Segments(refs[i]) < Segments(refs[j])
  }

  lemma ConflictingIffClash(refs: seq<string>)
    ensures Conflicting(FieldsOf(Firsts(refs))) <==> exists i: nat, j: nat :: i < |refs| && j < |refs| && Clash(refs, i, j)
  {
    hide Segments, ClassifyRef, Firsts;
    var fields := FieldsOf(Firsts(refs));
    if Conflicting(fields) {
      var i: nat, j: nat :| i < |fields| && j < |fields| && Conflict(fields, i, j);
      var i' := WhichRef(refs, i);
      var j' := WhichRef(refs, j);
      assert Clash(refs, i', j');
    }
    if i: nat, j: nat :| i < |refs| && j < |refs| && Clash(refs, i, j) {
      var i' := WhichField(refs, i);
      var j' := WhichField(refs, j);
      assert Conflict(fields, i', j');
    }
  }

  lemma SegmentsOf(ref: string, captures: seq<seq<Step>>)
    requires AreCaptures(captures) && ClassifyRef(ref) == Body && (IsBodyPath(ref) ==> ref in Renders(captures))
    ensures IsStray(ref) ==> Segments(ref) == []
    ensures !IsStray(ref) ==> exists k: nat :: k < |captures| && Names(captures[k]) == Segments(ref)
  {
    hide SegmentsFrom, Render, AreSteps, Names, ClassifyRef;
    if !IsStray(ref) {
      var k: nat :| k < |captures| && Render(captures[k]) == ref;
      assert captures[k] in captures;
      SplitsRendered(captures[k]);
    }
  }

  lemma CaptureStands(refs: seq<string>, captures: seq<seq<Step>>, k: nat) returns (i: nat)
    requires AreCaptures(captures) && BodyPaths(refs) == Renders(captures) && k < |captures|
    ensures i < |refs| && ClassifyRef(refs[i]) == Body && Segments(refs[i]) == Names(captures[k]) != []
  {
    hide Segments, Render, AreSteps, ClassifyRef, BodyPaths;
    var ref := Render(captures[k]);
    assert captures[k] in captures;
    SplitsRendered(captures[k]);
    RenderIsBody(captures[k]);
    assert Renders(captures)[k] == ref;
    assert ref in BodyPaths(refs);
    i :| i < |refs| && refs[i] == ref;
  }

  lemma ClashIffInside(refs: seq<string>, captures: seq<seq<Step>>)
    requires AreCaptures(captures) && BodyPaths(refs) == Renders(captures)
    ensures (exists i: nat, j: nat :: i < |refs| && j < |refs| && Clash(refs, i, j))
      <==> Inside(captures) || (captures != [] && exists ref <- refs :: IsStray(ref))
  {
    hide Segments, Renders, AreCaptures, ClassifyRef, BodyPaths, Names, IsStray;
    if i: nat, j: nat :| i < |refs| && j < |refs| && Clash(refs, i, j) {
      Listed(refs, i);
      Listed(refs, j);
      SegmentsOf(refs[i], captures);
      SegmentsOf(refs[j], captures);
    }
    if Inside(captures) {
      var m: nat, n: nat :| m < |captures| && n < |captures| && Names(captures[m]) < Names(captures[n]);
      var i := CaptureStands(refs, captures, m);
      var j := CaptureStands(refs, captures, n);
      assert Clash(refs, i, j);
    }
    if captures != [] && exists ref <- refs :: IsStray(ref) {
      var i: nat :| i < |refs| && IsStray(refs[i]);
      var j := CaptureStands(refs, captures, 0);
      StrayIsEmpty(refs[i]);
      assert Clash(refs, i, j);
    }
  }

  lemma Listed(refs: seq<string>, i: nat)
    requires i < |refs|
    ensures IsBodyPath(refs[i]) ==> refs[i] in BodyPaths(refs)
  {}

  lemma StrayIsEmpty(ref: string)
    requires IsStray(ref)
    ensures ClassifyRef(ref) == Body && Segments(ref) == []
  {}

  // The body paths of an expression, as steps.
  lemma {:induction false} CapturesFrom(s: string, i: nat) returns (captures: seq<seq<Step>>)
    requires i <= |s| && ResponseRefs(s, i).Some?
    ensures AreCaptures(captures) && BodyPaths(ResponseRefs(s, i).value) == Renders(captures)
    decreases |s| - i
  {
    hide RefEnd, ResponseRefs, AreSteps, Render, Is, IsBodyPath;
    if i == |s| {
      RefsEnd(s);
      captures := [];
    } else {
      RefsStep(s, i);
      var e := RefEnd(s, i);
      if e == i {
        captures := CapturesFrom(s, i + 1);
      } else {
        var rest := CapturesFrom(s, e);
        captures := rest;
        var ref, more := s[i..e], ResponseRefs(s, e).value;
        if RESPONSE <= ref {
          assert ([ref] + more)[1..] == more;
          if IsBodyPath(ref) {
            var ps := EveryRefIsRendered(s, i);
            captures := [ps] + rest;
            assert Renders(captures) == [ref] + Renders(rest);
          }
        } else {
          OtherRef(ref, more);
        }
      }
    }
  }

  lemma OtherRef(ref: string, more: seq<string>)
    requires !(RESPONSE <= ref)
    ensures Prepend(ref, Some(more)) == Some(more)
  {
    assert [] + more == more;
  }

  // A rule is accepted exactly when its references are supported, it measures no
  // part of the response, it does not capture the body as a whole, none of its
  // body captures is properly inside another, and none of them comes with a
  // reference into the body that names no field.
  lemma AcceptedIffNoneInside(rule: Rule) returns (captures: seq<seq<Step>>)
    ensures AreCaptures(captures)
    ensures var refs := ResponseRefs(rule.capture, 0);
      && (refs.Some? ==> Renders(captures) == BodyPaths(refs.value))
      && (Analyze(rule).Some? <==>
            && refs.Some? && !MeasuresResponse(rule.capture) && BODY !in refs.value && !Inside(captures)
            && (captures == [] || forall ref <- refs.value :: !IsStray(ref)))
  {
    hide ResponseRefs, MeasuresResponse, Renders, BodyPaths, IsStray, Conflicting, FieldsOf, Firsts, Clash, AreSteps;
    captures := [];
    var refs := ResponseRefs(rule.capture, 0);
    if refs.Some? {
      captures := CapturesFrom(rule.capture, 0);
      ConflictingIffClash(refs.value);
      ClashIffInside(refs.value, captures);
    }
  }

  // A call of jsonSize is found unless it begins inside one found before it.
  lemma {:induction false} EveryCallIsMeasured(s: string, i: nat, from: nat)
    requires from <= i <= |s| && JsonSizeAt(s, i).Some?
    requires forall k :: from <= k < i && JsonSizeAt(s, k).Some? ==> JsonSizeAt(s, k).value.end <= i
    ensures var m := JsonSizeAt(s, i).value; s[m.from..m.to] in JsonSizeRefs(s, from)
    decreases i - from
  {
    hide JsonSizeAt;
    if from < i {
      var m := JsonSizeAt(s, from);
      EveryCallIsMeasured(s, i, if m.None? then from + 1 else m.value.end);
    }
  }

  lemma WhichRef(refs: seq<string>, i: nat) returns (k: nat)
    requires i < |FieldsOf(Firsts(refs))|
    ensures k < |refs| && FieldsOf(Firsts(refs))[i].path == refs[k]
  {
    assert Firsts(refs)[i] in Firsts(refs);
    k :| 0 <= k < |refs| && refs[k] == Firsts(refs)[i];
  }

  lemma WhichField(refs: seq<string>, k: nat) returns (i: nat)
    requires k < |refs|
    ensures i < |FieldsOf(Firsts(refs))| && FieldsOf(Firsts(refs))[i] == Field(refs[k], ClassifyRef(refs[k]))
  {
    assert refs[k] in Firsts(refs);
    i :| 0 <= i < |Firsts(refs)| && Firsts(refs)[i] == refs[k];
  }

  // ----- every body reference is rendered -----

  lemma {:induction false} RunEndAt(s: string, i: nat, k: Class, j: nat)
    requires i <= j <= |s| && (forall m :: i <= m < j ==> k.Has(s[m])) && (j < |s| ==> !k.Has(s[j]))
    ensures RunEnd(s, i, k) == j
    decreases j - i
  {
    if i < j { RunEndAt(s, i + 1, k, j); }
  }

  // The step that the expression for references finds at i.
  lemma StepAt(s: string, i: nat) returns (p: Step)
    requires i <= |s| && StepEnd(s, i) > i
    ensures IsStep(p) && s[i..StepEnd(s, i)] == StepText(p)
  {
    if Is(s, i, '.') { p := DotAt(s, i); }
    else if Is(s, i + 1, '\'') { p := QuotedAt(s, i); }
    else { p := IndexAt(s, i); }
  }

  lemma DotAt(s: string, i: nat) returns (p: Step)
    requires i <= |s| && StepEnd(s, i) > i && Is(s, i, '.')
    ensures IsStep(p) && s[i..StepEnd(s, i)] == StepText(p)
  {
    RunChars(s, i + 1, WordOrDash);
    p := Dot(s[i + 1..StepEnd(s, i)]);
  }

  lemma QuotedAt(s: string, i: nat) returns (p: Step)
    requires i <= |s| && StepEnd(s, i) > i && !Is(s, i, '.') && Is(s, i + 1, '\'')
    ensures IsStep(p) && s[i..StepEnd(s, i)] == StepText(p)
  {
    RunChars(s, i + 2, NotQuote);
    hide RunEnd;
    var e := StepEnd(s, i);
    p := Quoted(s[i + 2..e - 2]);
    assert s[e - 2] == '\'' && s[e - 1] == ']';
    assert s[i..e] == "['" + s[i + 2..e - 2] + "']";
  }

  lemma IndexAt(s: string, i: nat) returns (p: Step)
    requires i <= |s| && StepEnd(s, i) > i && !Is(s, i, '.') && !Is(s, i + 1, '\'')
    ensures IsStep(p) && s[i..StepEnd(s, i)] == StepText(p)
  {
    RunChars(s, i + 1, Number);
    hide RunEnd;
    var e := StepEnd(s, i);
    p := Index(s[i + 1..e - 1]);
    assert s[e - 1] == ']';
    assert s[i..e] == "[" + s[i + 1..e - 1] + "]";
  }

  lemma {:induction false} StepsAt(s: string, i: nat) returns (ps: seq<Step>)
    requires i <= |s|
    ensures AreSteps(ps) && s[i..StepsEnd(s, i)] == Tail(ps)
    decreases |s| - i
  {
    hide StepEnd, IsStep, StepText;
    ps := [];
    var e := StepEnd(s, i);
    if e > i {
      var p := StepAt(s, i);
      var rest := StepsAt(s, e);
      ps := [p] + rest;
      var end := StepsEnd(s, e);
      assert ps[1..] == rest && s[i..end] == s[i..e] + s[e..end];
    }
  }

  lemma DotStepEnd(s: string, i: nat, name: string)
    requires At(s, i, "." + name) && IsStep(Dot(name))
    requires Is(s, i + 1 + |name|, '.') || Is(s, i + 1 + |name|, '[')
    ensures StepEnd(s, i) == i + 1 + |name|
  {
    AtConcat(s, i, ".", name);
    AtIndex(s, i, ".", 0);
    AtChars(s, i + 1, name);
    hide At;
    assert forall m :: i + 1 <= m < i + 1 + |name| ==> s[m] == name[m - i - 1];
    RunEndAt(s, i + 1, WordOrDash, i + 1 + |name|);
  }

  // Each body path that the extractor cuts from an expression is a rendered list
  // of steps.
  lemma EveryRefIsRendered(s: string, i: nat) returns (ps: seq<Step>)
    requires i <= |s| && IsBodyPath(s[i..RefEnd(s, i)])
    ensures AreSteps(ps) && ps != [] && s[i..RefEnd(s, i)] == Render(ps)
  {
    hide StepEnd, IsStep, Tail, IsBodyPath, At;
    var end := RefEnd(s, i);
    var ref := s[i..end];
    BodyStarts(ref);
    assert forall k :: 0 <= k < |ref| ==> ref[k] == s[i + k];
    PartAt(s, i, end, 1, "." + "response");
    PartAt(s, i, end, 10, "." + "body");
    LetterNames();
    DotStepEnd(s, i + 1, "response");
    DotStepEnd(s, i + 10, "body");
    assert StepsEnd(s, i + 1) == StepsEnd(s, i + 10) == StepsEnd(s, i + 15) == end;
    ps := StepsAt(s, i + 15);
    assert ref == ref[..15] + ref[15..] && ref[15..] == s[i + 15..end];
    if ps == [] { NoTail(); }
  }

  lemma BodyStarts(ref: string)
    requires IsBodyPath(ref)
    ensures |ref| > 15 && ref[..15] == BODY && (ref[15] == '.' || ref[15] == '[') && ref[10] == '.'
    ensures At(ref, 1, "." + "response") && At(ref, 10, "." + "body")
  {
    var a, b := "." + "response", "." + "body";
    assert BODY == "$" + a + b;
    assert ref[..15] == BODY && ref[10] == BODY[10] == b[0];
    assert ref[1..10] == BODY[1..10] == a;
    assert ref[10..15] == BODY[10..15] == b;
  }

  lemma PartAt(s: string, i: nat, e: nat, k: nat, t: string)
    requires i <= e <= |s| && At(s[i..e], k, t)
    ensures At(s, i + k, t)
  {
    AtChars(s[i..e], k, t);
    assert forall n :: 0 <= n < |t| ==> t[n] == s[i + k + n];
  }

  lemma NoTail()
    ensures Tail([]) == ""
  {}

  lemma LetterNames()
    ensures IsStep(Dot("response")) && IsStep(Dot("body"))
  {}

  // ----- what an accepted rule captures -----

  // Every reference once, in the order in which they first occur.
  ghost predicate InOrder(r: seq<string>, refs: seq<string>) {
    && (forall x :: x in r <==> x in refs)
    && forall i: nat, j: nat :: i < j < |r| ==> r[i] != r[j] && FirstBefore(refs, r[i], r[j])
  }

  ghost predicate FirstBefore(refs: seq<string>, x: string, y: string) {
    exists k: nat :: k < |refs| && refs[k] == x && y !in refs[..k]
  }

  lemma {:induction false} FirstsAreInOrder(refs: seq<string>)
    ensures InOrder(Firsts(refs), refs)
    decreases |refs|
  {
    if refs != [] {
      var init, last := refs[..|refs| - 1], refs[|refs| - 1];
      FirstsAreInOrder(init);
      var r := Firsts(refs);
      forall i: nat, j: nat | i < j < |r|
        ensures r[i] != r[j] && FirstBefore(refs, r[i], r[j])
      {
        StillBefore(init, refs, Firsts(init), r, i, j);
      }
    }
  }

  lemma StillBefore(init: seq<string>, refs: seq<string>, was: seq<string>, r: seq<string>, i: nat, j: nat)
    requires refs != [] && init == refs[..|refs| - 1] && InOrder(was, init) && i < j < |r|
    requires r == was || (r == was + [refs[|refs| - 1]] && refs[|refs| - 1] !in init)
    ensures r[i] != r[j] && FirstBefore(refs, r[i], r[j])
  {
    if j < |was| {
      assert FirstBefore(init, was[i], was[j]);
      var k: nat :| k < |init| && init[k] == was[i] && was[j] !in init[..k];
      assert init[..k] == refs[..k];
    } else {
      assert was[i] in init;
      var k: nat :| k < |init| && init[k] == was[i];
      assert forall x <- refs[..k] :: x in init;
    }
  }

  // An accepted rule captures exactly the references to the response, and is a
  // two-phase rule exactly when it has an authorize expression that is not empty.
  lemma CapturesAre(rule: Rule)
    requires Analyze(rule).Some?
    ensures ResponseRefs(rule.capture, 0).Some?
    ensures var r, fields := Analyze(rule).value, Analyze(rule).value.captureFields;
      && (r.pricingMode == TwoPhase <==> rule.authorize.Some? && rule.authorize.value != "")
      && InOrder(Paths(fields), ResponseRefs(rule.capture, 0).value)
      && forall i :: 0 <= i < |fields| ==> fields[i].source == ClassifyRef(fields[i].path)
  {
    hide ResponseRefs, ClassifyRef, MeasuresResponse, Firsts, InOrder, Conflicting;
    var refs := ResponseRefs(rule.capture, 0).value;
    FirstsAreInOrder(refs);
    assert Paths(FieldsOf(Firsts(refs))) == Firsts(refs);
  }

  function Paths(fields: seq<Field>): seq<string> {
    seq(|fields|, i requires 0 <= i < |fields| => fields[i].path)
  }

  // ----- where a reference points -----

  const RESPONSE_STEP := "$.response"

  // $.response.headers and more steps read a header, $.response.status alone the
  // status, and everything else the body.
  function SourceOf(ps: seq<Step>): Source {
    if |ps| > 1 && ps[0] == Dot("headers") then Headers else if ps == [Dot("status")] then Status else Body
  }

  lemma ClassifiedBySteps(ps: seq<Step>)
    requires AreSteps(ps) && ps != [] && ps[0].Dot?
    ensures ClassifyRef(RESPONSE_STEP + Tail(ps)) == SourceOf(ps)
  {
    hide Tail, IsStep;
    var name, rest := ps[0].name, Tail(ps[1..]);
    var ref := RESPONSE_STEP + Tail(ps);
    assert Tail(ps) == "." + name + rest by { TailDot(ps); }
    assert IsStep(ps[0]);
    RestStarts(ps[1..]);
    NameChars(name);
    assert ps == [ps[0]] + ps[1..];
    HeadersIff(name, rest);
    StatusIff(name, rest);
    assert ref == RESPONSE_STEP + "." + name + rest;
  }

  lemma TailDot(ps: seq<Step>)
    requires ps != [] && ps[0].Dot?
    ensures Tail(ps) == "." + ps[0].name + Tail(ps[1..])
  {}

  lemma RestStarts(ps: seq<Step>)
    ensures Tail(ps) == "" <==> ps == []
    ensures ps != [] ==> Tail(ps)[0] == '.' || Tail(ps)[0] == '['
  {}

  lemma NameChars(name: string)
    requires IsStep(Dot(name))
    ensures forall k :: 0 <= k < |name| ==> name[k] != '.' && name[k] != '['
  {
    assert !WordOrDash.Has('.') && !WordOrDash.Has('[');
  }

  // The text after a name that begins with w and then a dot or bracket.
  lemma NameIs(name: string, rest: string, w: string, c: char)
    requires forall k :: 0 <= k < |name| ==> name[k] != '.' && name[k] != '['
    requires forall k :: 0 <= k < |w| ==> w[k] != '.' && w[k] != '['
    requires rest == "" || rest[0] == '.' || rest[0] == '['
    requires (c == '.' || c == '[') && w + [c] <= name + rest
    ensures name == w && rest != "" && rest[0] == c
  {
    var t, p := name + rest, w + [c];
    assert forall k :: 0 <= k < |w| ==> t[k] == p[k] == w[k];
    assert t[|w|] == p[|w|] == c;
    assert forall k :: 0 <= k < |name| ==> t[k] == name[k];
    assert rest != "" ==> t[|name|] == rest[0];
    assert |name| == |w|;
    assert name == t[..|w|] == p[..|w|] == w;
  }

  lemma HeadersIff(name: string, rest: string)
    requires forall k :: 0 <= k < |name| ==> name[k] != '.' && name[k] != '['
    requires rest == "" || rest[0] == '.' || rest[0] == '['
    ensures var ref := RESPONSE_STEP + "." + name + rest;
      HEADERS_DOT <= ref || HEADERS_BRACKET <= ref <==> name == "headers" && rest != ""
  {
    var w, pre := "headers", RESPONSE_STEP + ".";
    var ref := pre + name + rest;
    assert forall k :: 0 <= k < |w| ==> w[k] != '.' && w[k] != '[';
    assert HEADERS_DOT == pre + (w + ['.']) && HEADERS_BRACKET == pre + (w + ['[']);
    assert ref == pre + (name + rest);
    PrefixOf(pre, w + ['.'], name + rest);
    PrefixOf(pre, w + ['['], name + rest);
    if w + ['.'] <= name + rest { NameIs(name, rest, w, '.'); }
    if w + ['['] <= name + rest { NameIs(name, rest, w, '['); }
    if name == w && rest != "" { assert (name + rest)[..|w| + 1] == w + [rest[0]]; }
  }

  lemma PrefixOf(pre: string, a: string, b: string)
    ensures pre + a <= pre + b <==> a <= b
  {
    var s, t := pre + a, pre + b;
    if a <= b { assert t[..|s|] == pre + b[..|a|] == s; }
    if s <= t { assert b[..|a|] == t[|pre|..|s|] == s[|pre|..] == a; }
  }

  lemma StatusIff(name: string, rest: string)
    requires forall k :: 0 <= k < |name| ==> name[k] != '.' && name[k] != '['
    requires rest == "" || rest[0] == '.' || rest[0] == '['
    ensures RESPONSE_STEP + "." + name + rest == STATUS <==> name == "status" && rest == ""
  {
    var w, pre := "status", RESPONSE_STEP + ".";
    var t := name + rest;
    assert STATUS == pre + w && pre + name + rest == pre + t;
    assert rest != "" ==> t[|name|] == rest[0];
    assert forall k :: 0 <= k < |w| ==> w[k] != '.' && w[k] != '[';
    if pre + t == STATUS {
      assert t == (pre + t)[|pre|..] == w;
      assert rest == "";
      assert name + "" == name;
    }
  }

  // ----- which references are extracted -----

  function OfResponse(refs: seq<string>): seq<string> {
    if refs == [] then [] else (if RESPONSE <= refs[0] then [refs[0]] else []) + OfResponse(refs[1..])
  }

  // A reference of the text goes on in a way that is not supported.
  ghost predicate Continued(s: string, i: nat)
    requires i <= |s|
    decreases |s| - i
  {
    if i == |s| then false
    else if RefEnd(s, i) == i then Continued(s, i + 1)
    else Is(s, RefEnd(s, i), '[') || Is(s, RefEnd(s, i), '.') || Continued(s, RefEnd(s, i))
  }

  // The references extracted are those of the pricing expression that point into
  // the response, unless one of all of them is continued.
  lemma {:induction false} ExtractedAre(s: string, i: nat)
    requires i <= |s|
    ensures ResponseRefs(s, i) == if Continued(s, i) then None else Some(OfResponse(PlainRefs(s, i)))
    decreases |s| - i
  {
    hide RefEnd;
    if i < |s| {
      var e := RefEnd(s, i);
      ExtractedAre(s, if e == i then i + 1 else e);
      if e > i { assert ([s[i..e]] + PlainRefs(s, e))[1..] == PlainRefs(s, e); }
    }
  }

  // ----- how a call of jsonSize may be written -----

  function CallOfJsonSize(a: string, b: string, ref: string, c: string): string {
    JSON_SIZE + (a + ("(" + (b + (ref + (c + ")")))))
  }

  // With any white space in it the call is found, and measures its reference.
  lemma JsonSizeIsFound(s: string, i: nat, a: string, b: string, ref: string, c: string)
    requires At(s, i, CallOfJsonSize(a, b, ref, c)) && Tree.IsRefText(ref)
    requires Blank(a) && Blank(b) && Blank(c)
    ensures i <= |s| && JsonSizeAt(s, i).Some?
    ensures var m := JsonSizeAt(s, i).value; s[m.from..m.to] == ref && m.end == i + |CallOfJsonSize(a, b, ref, c)|
  {
    hide At, IsSpace, RefEnd, Tree.IsRefText, JsonSizeAt, SkipSpace, Lexing.RefStops, Blank;
    var j := i + |JSON_SIZE|;
    var k := j + |a| + 1;
    var from := k + |b|;
    var to := from + |ref|;
    CallParts(s, i, a, b, ref, c);
    NoSpaceChars();
    BlankSkips(s, j, a);
    RefBeginsSolid(ref);
    AtIndex(s, from, ref, 0);
    BlankSkips(s, k, b);
    BlankSkips(s, to, c);
    EndsRef(s, to, c, ref);
    Lexing.RefEndAt(s, from, ref);
    JsonSizeFrom(s, i, j + |a|, from, to, to + |c|);
  }

  lemma JsonSizeFrom(s: string, i: nat, open: nat, from: nat, to: nat, close: nat)
    requires At(s, i, JSON_SIZE) && i + |JSON_SIZE| <= |s| && SkipSpace(s, i + |JSON_SIZE|) == open && Is(s, open, '(')
    requires SkipSpace(s, open + 1) == from && RefEnd(s, from) == to && to > from
    requires SkipSpace(s, to) == close && Is(s, close, ')')
    ensures JsonSizeAt(s, i) == Some(Measure(from, to, close + 1))
  {
    hide At, RefEnd, SkipSpace;
  }

  lemma CallParts(s: string, i: nat, a: string, b: string, ref: string, c: string)
    requires At(s, i, CallOfJsonSize(a, b, ref, c))
    ensures var j := i + |JSON_SIZE|; var k := j + |a| + 1; var to := k + |b| + |ref|;
      && At(s, i, JSON_SIZE) && At(s, j, a) && Is(s, j + |a|, '(') && At(s, k, b)
      && At(s, k + |b|, ref) && At(s, to, c) && Is(s, to + |c|, ')')
  {
    hide At;
    var j := i + |JSON_SIZE|;
    var k := j + |a| + 1;
    var to := k + |b| + |ref|;
    AtConcat(s, i, JSON_SIZE, a + ("(" + (b + (ref + (c + ")")))));
    AtConcat(s, j, a, "(" + (b + (ref + (c + ")"))));
    AtConcat(s, j + |a|, "(", b + (ref + (c + ")")));
    AtConcat(s, k, b, ref + (c + ")"));
    AtConcat(s, k + |b|, ref, c + ")");
    AtConcat(s, to, c, ")");
    AtIndex(s, j + |a|, "(", 0);
    AtIndex(s, to + |c|, ")", 0);
  }

  lemma NoSpaceChars()
    ensures !IsSpace('(') && !IsSpace(')') && !IsSpace('$')
  {}

  lemma RefBeginsSolid(ref: string)
    requires Tree.IsRefText(ref)
    ensures ref != "" && ref[0] == '$'
  {}

  lemma EndsRef(s: string, to: nat, c: string, ref: string)
    requires At(s, to, c) && Blank(c) && Is(s, to + |c|, ')') && ref != ""
    ensures Lexing.RefStops(s, to, ref)
  {
    if c != "" {
      AtIndex(s, to, c, 0);
      assert c[0] in c && IsSpace(s[to]);
    }
  }
}
