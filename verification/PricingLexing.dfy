// What the scanner finds on the printed text of a tree.
//
// Throughout, the text of a tree e stands at position i of a text s, and what
// follows it is the end of s, a comma or a closing parenthesis.
module PricingLexing {
  import opened Text
  import opened PricingScanner
  import opened PricingTree

  predicate Closes(s: string, j: nat) {
    j == |s| || (j < |s| && (s[j] == ',' || s[j] == ')'))
  }

  predicate Stands(s: string, i: nat, e: Expr) {
    At(s, i, Print(e)) && Closes(s, i + |Print(e)|)
  }

  function After(e: Expr, i: nat): nat { i + |Print(e)| }

  // The pieces of the text of one item stand one after another.
  lemma LeafStands(s: string, i: nat, t: string, rest: Expr)
    requires At(s, i, t + Print(rest)) && Closes(s, i + |t + Print(rest)|)
    ensures At(s, i, t) && Stands(s, i + |t|, rest)
    ensures t != [] ==> i < |s| && s[i] == t[0]
  {
    hide At;
    AtConcat(s, i, t, Print(rest));
    if t != [] { AtIndex(s, i, t, 0); }
  }

  lemma ChStands(s: string, i: nat, c: char, rest: Expr)
    requires Stands(s, i, Ch(c, rest))
    ensures Is(s, i, c) && Stands(s, i + 1, rest) && After(Ch(c, rest), i) == After(rest, i + 1)
  {
    LeafStands(s, i, [c], rest);
  }

  lemma RefStands(s: string, i: nat, r: string, rest: Expr)
    requires Stands(s, i, Ref(r, rest))
    ensures At(s, i, r) && Stands(s, i + |r|, rest) && After(Ref(r, rest), i) == After(rest, i + |r|)
  {
    LeafStands(s, i, r, rest);
  }

  lemma HoleStands(s: string, i: nat, k: nat, rest: Expr)
    requires Stands(s, i, Hole(k, rest))
    ensures At(s, i, Name(k)) && Stands(s, i + |Name(k)|, rest)
    ensures After(Hole(k, rest), i) == After(rest, i + |Name(k)|)
  {
    LeafStands(s, i, Name(k), rest);
  }

  lemma Bounded(s: string, i: nat, e: Expr)
    requires Stands(s, i, e)
    ensures i <= After(e, i) <= |s|
  {}

  lemma GroupStands(s: string, i: nat, b: Expr, rest: Expr)
    requires Stands(s, i, Group(b, rest))
    ensures var j := After(b, i + 1);
      && Is(s, i, '(') && Stands(s, i + 1, b) && Is(s, j, ')')
      && Stands(s, j + 1, rest) && After(Group(b, rest), i) == After(rest, j + 1)
  {
    hide At;
    LeafStands(s, i, "(" + Print(b) + ")", rest);
    BracketStands(s, i, "(", b, ')');
  }

  // The text of coalesce(a, f) stands at p.
  predicate CallStandsAt(s: string, p: nat, a: Expr, f: Expr) {
    var j := After(a, p + OPENING);
    && At(s, p, COALESCE) && OpensAt(s, p)
    && Stands(s, p + OPENING, a) && Is(s, j, ',')
    && Stands(s, j + 1, f) && Is(s, After(f, j + 1), ')')
  }

  function CallEnd(p: nat, a: Expr, f: Expr): nat { After(f, After(a, p + OPENING) + 1) + 1 }

  lemma CoalesceStands(s: string, i: nat, a: Expr, f: Expr, rest: Expr)
    requires Stands(s, i, Coalesce(a, f, rest))
    ensures CallStandsAt(s, i, a, f)
    ensures Stands(s, CallEnd(i, a, f), rest)
    ensures After(Coalesce(a, f, rest), i) == After(rest, CallEnd(i, a, f))
  {
    hide At, OpensAt;
    CoalesceText(a, f, rest);
    CallStands(s, i, a, Print(f) + ")", rest);
    BracketStands(s, After(a, i + OPENING) + 1, "", f, ')');
  }

  lemma CoalesceText(a: Expr, f: Expr, rest: Expr)
    ensures Print(Coalesce(a, f, rest)) == ((COALESCE + Print(a) + ",") + (Print(f) + ")")) + Print(rest)
    ensures Print(f) + ")" == "" + Print(f) + ")"
  {
    CallAssociates(COALESCE, Print(a), Print(f), Print(rest));
  }

  lemma CallAssociates(c: string, a: string, f: string, r: string)
    ensures c + a + "," + f + ")" + r == ((c + a + ",") + (f + ")")) + r
    ensures f + ")" == "" + f + ")"
  {
    assert c + a + "," + f + ")" == (c + a + ",") + (f + ")");
  }

  lemma CallStands(s: string, i: nat, a: Expr, tail: string, rest: Expr)
    requires At(s, i, ((COALESCE + Print(a) + ",") + tail) + Print(rest))
    requires Closes(s, i + |((COALESCE + Print(a) + ",") + tail) + Print(rest)|)
    ensures var j := After(a, i + OPENING);
      && At(s, i, COALESCE) && OpensAt(s, i)
      && Stands(s, i + OPENING, a) && j < |s| && s[j] == ','
      && At(s, j + 1, tail) && Stands(s, j + 1 + |tail|, rest)
  {
    hide At, OpensAt, Print;
    LeafStands(s, i, (COALESCE + Print(a) + ",") + tail, rest);
    AtConcat(s, i, COALESCE + Print(a) + ",", tail);
    BracketStands(s, i, COALESCE, a, ',');
    OpensAtIsAt(s, i);
  }

  lemma BracketStands(s: string, i: nat, open: string, e: Expr, close: char)
    requires At(s, i, open + Print(e) + [close]) && (close == ',' || close == ')')
    ensures At(s, i, open) && Stands(s, i + |open|, e)
    ensures After(e, i + |open|) < |s| && s[After(e, i + |open|)] == close
    ensures open != [] ==> s[i] == open[0]
  {
    hide At;
    AtConcat(s, i, open + Print(e), [close]);
    AtConcat(s, i, open, Print(e));
    AtIndex(s, i + |open + Print(e)|, [close], 0);
    if open != [] { AtIndex(s, i, open, 0); }
  }

  // ----- references -----

  lemma {:induction false} RunEndAt(s: string, i: nat, t: string, j: nat, k: Class)
    requires At(s, i, t) && j <= |t|
    requires RunEnd(t, j, k) < |t| || i + |t| == |s| || !k.Has(s[i + |t|])
    ensures RunEnd(s, i + j, k) == i + RunEnd(t, j, k)
    decreases |t| - j
  {
    if j < |t| {
      AtIndex(s, i, t, j);
      if k.Has(t[j]) { RunEndAt(s, i, t, j + 1, k); }
    }
  }

  // The next character of s does not continue the reference t that ends before it.
  predicate RefStops(s: string, j: nat, t: string) {
    t != [] && j <= |s| && (j < |s| ==> MayFollowRef(t, s[j]))
  }

  lemma StepEndAt(s: string, i: nat, t: string, j: nat)
    requires At(s, i, t) && j <= |t| && RefStops(s, i + |t|, t)
    requires StepEnd(t, j) > j
    ensures StepEnd(s, i + j) == i + StepEnd(t, j)
  {
    if t[j] == '.' { DotStepAt(s, i, t, j); }
    else if Is(t, j + 1, '\'') { QuoteStepAt(s, i, t, j); }
    else { NumberStepAt(s, i, t, j); }
  }

  lemma DotStepAt(s: string, i: nat, t: string, j: nat)
    requires At(s, i, t) && j < |t| && RefStops(s, i + |t|, t) && t[j] == '.' && StepEnd(t, j) > j
    ensures StepEnd(s, i + j) == i + StepEnd(t, j)
  {
    AtIndex(s, i, t, j);
    hide At, RunEnd;
    var e := RunEnd(t, j + 1, WordOrDash);
    if e == |t| { RunChars(t, j + 1, WordOrDash); }
    RunEndAt(s, i, t, j + 1, WordOrDash);
  }

  lemma QuoteStepAt(s: string, i: nat, t: string, j: nat)
    requires At(s, i, t) && j < |t| && t[j] != '.' && Is(t, j + 1, '\'') && StepEnd(t, j) > j
    ensures StepEnd(s, i + j) == i + StepEnd(t, j)
  {
    AtIndex(s, i, t, j);
    AtIndex(s, i, t, j + 1);
    var e := RunEnd(t, j + 2, NotQuote);
    AtIndex(s, i, t, e);
    AtIndex(s, i, t, e + 1);
    hide At, RunEnd;
    RunEndAt(s, i, t, j + 2, NotQuote);
  }

  lemma NumberStepAt(s: string, i: nat, t: string, j: nat)
    requires At(s, i, t) && j < |t| && t[j] != '.' && !Is(t, j + 1, '\'') && StepEnd(t, j) > j
    ensures StepEnd(s, i + j) == i + StepEnd(t, j)
  {
    AtIndex(s, i, t, j);
    AtIndex(s, i, t, j + 1);
    var e := RunEnd(t, j + 1, Number);
    AtIndex(s, i, t, e);
    hide At, RunEnd;
    RunEndAt(s, i, t, j + 1, Number);
  }

  lemma {:induction false} StepsEndAt(s: string, i: nat, t: string, j: nat)
    requires At(s, i, t) && j <= |t| && RefStops(s, i + |t|, t)
    requires StepsEnd(t, j) == |t|
    ensures StepsEnd(s, i + j) == i + |t|
    decreases |t| - j
  {
    if StepEnd(t, j) > j {
      StepEndAt(s, i, t, j);
      StepsEndAt(s, i, t, StepEnd(t, j));
    }
  }

  // A reference is matched whole wherever it is followed as it may be.
  lemma RefEndAt(s: string, i: nat, r: string)
    requires At(s, i, r) && IsRefText(r) && RefStops(s, i + |r|, r)
    ensures RefEnd(s, i) == i + |r| && s[i..RefEnd(s, i)] == r
    ensures PlainRefs(s, i) == [r] + PlainRefs(s, i + |r|)
  {
    AtIndex(s, i, r, 0);
    AtIs(s, i, r);
    hide StepsEnd, RefStops, At;
    StepsEndAt(s, i, r, 1);
    RefsFrom(s, i);
  }

  lemma RefsFrom(s: string, i: nat)
    requires i < |s| && RefEnd(s, i) > i
    ensures PlainRefs(s, i) == [s[i..RefEnd(s, i)]] + PlainRefs(s, RefEnd(s, i))
  {
    hide RefEnd;
  }

  lemma {:induction false} NoRefsIn(s: string, i: nat, j: nat)
    requires i <= j <= |s| && forall k :: i <= k < j ==> s[k] != '$'
    ensures PlainRefs(s, i) == PlainRefs(s, j)
    decreases j - i
  {
    if i < j { NoRefsIn(s, i + 1, j); }
  }

  lemma NoRefsInText(s: string, i: nat, t: string)
    requires At(s, i, t) && '$' !in t
    ensures PlainRefs(s, i) == PlainRefs(s, i + |t|)
  {
    forall k | i <= k < i + |t| ensures s[k] != '$' { AtIndex(s, i, t, k - i); }
    NoRefsIn(s, i, i + |t|);
  }

  lemma NameChars(k: nat)
    ensures |Name(k)| > |REF_VAR_PREFIX|
    ensures IsPlaceholder(Name(k))
    ensures forall c <- Name(k) :: IsWord(c) && c != 'c' && c != '$'
    ensures Name(k)[0] == '_' && IsDigit(Name(k)[|Name(k)| - 1])
  {
    assert forall c <- REF_VAR_PREFIX :: c == '_' || c == 'f' || c == 'm' || c == 'r' || c == 'e';
    assert Name(k)[|REF_VAR_PREFIX|..] == Decimal(k);
  }

  // A reference or placeholder of a well-formed tree is not continued by what follows.
  lemma RefStopsBefore(s: string, i: nat, r: string, rest: Expr)
    requires r != [] && RefEndsBefore(r, rest) && Stands(s, i, rest)
    ensures RefStops(s, i, r)
  {
    match rest
    case End =>
    case Ch(c, rest') => ChStands(s, i, c, rest');
    case Group(b, rest') => GroupStands(s, i, b, rest');
  }

  lemma Regroup<T>(a: seq<T>, b: seq<T>, c: seq<T>, d: seq<T>)
    ensures a + b + c + d == a + (b + (c + d))
    ensures a + c + d == a + (c + d)
  {}

  // The references scanned in the text of a tree are the references of the tree.
  lemma {:induction false} PlainRefsOn(s: string, i: nat, e: Expr, word: string, place: Context)
    requires Stands(s, i, e) && WellFormed(e, word, place)
    ensures After(e, i) <= |s| && PlainRefs(s, i) == Refs(e) + PlainRefs(s, After(e, i))
    decreases e, 1
  {
    hide At, Print, After, Stands, PlainRefs, RefEnd, RefEndsBefore, IsPlaceholder, Name, RefStops, OpensAt;
    Bounded(s, i, e);
    match e
    case End =>
      EndStands(s, i);
    case Ch(c, rest) =>
      ChStands(s, i, c, rest);
      NoRefsIn(s, i, i + 1);
      PlainRefsOn(s, i + 1, rest, if IsIdentChar(c) then word + [c] else "", place);
    case Ref(r, rest) =>
      RefStands(s, i, r, rest);
      RefStopsBefore(s, i + |r|, r, rest);
      RefEndAt(s, i, r);
      PlainRefsOn(s, i + |r|, rest, "", place);
      Regroup([r], [], Refs(rest), PlainRefs(s, After(e, i)));
    case Hole(k, rest) =>
      HoleStands(s, i, k, rest);
      NameChars(k);
      NoRefsInText(s, i, Name(k));
      PlainRefsOn(s, i + |Name(k)|, rest, "", place);
    case Group(b, rest) => PlainRefsOnGroup(s, i, b, rest, place);
    case Coalesce(a, f, rest) => PlainRefsOnCall(s, i, a, f, rest, place);
  }

  lemma PlainRefsOnGroup(s: string, i: nat, b: Expr, rest: Expr, place: Context)
    requires Stands(s, i, Group(b, rest)) && WellFormed(b, "", Nested(place)) && WellFormed(rest, "", place)
    ensures var e := Group(b, rest);
      After(e, i) <= |s| && PlainRefs(s, i) == Refs(e) + PlainRefs(s, After(e, i))
    decreases Group(b, rest), 0
  {
    hide At, Print, After, Stands, PlainRefs, WellFormed;
    var e := Group(b, rest);
    Bounded(s, i, e);
    GroupStands(s, i, b, rest);
    var j := After(b, i + 1);
    NoRefsIn(s, i, i + 1);
    PlainRefsOn(s, i + 1, b, "", Nested(place));
    NoRefsIn(s, j, j + 1);
    PlainRefsOn(s, j + 1, rest, "", place);
    Regroup(Refs(b), [], Refs(rest), PlainRefs(s, After(e, i)));
  }

  lemma PlainRefsOnCall(s: string, i: nat, a: Expr, f: Expr, rest: Expr, place: Context)
    requires Stands(s, i, Coalesce(a, f, rest))
    requires WellFormed(a, "", Argument) && WellFormed(f, "", Inside) && WellFormed(rest, "", place)
    ensures var e := Coalesce(a, f, rest);
      After(e, i) <= |s| && PlainRefs(s, i) == Refs(e) + PlainRefs(s, After(e, i))
    decreases Coalesce(a, f, rest), 0
  {
    hide At, Print, After, Stands, PlainRefs, WellFormed, OpensAt;
    var e := Coalesce(a, f, rest);
    Bounded(s, i, e);
    CoalesceStands(s, i, a, f, rest);
    var j := After(a, i + OPENING);
    var k := After(f, j + 1);
    NoRefsInText(s, i, COALESCE);
    PlainRefsOn(s, i + OPENING, a, "", Argument);
    NoRefsIn(s, j, j + 1);
    PlainRefsOn(s, j + 1, f, "", Inside);
    NoRefsIn(s, k, k + 1);
    PlainRefsOn(s, k + 1, rest, "", place);
    Regroup(Refs(a), Refs(f), Refs(rest), PlainRefs(s, After(e, i)));
  }

  lemma EndStands(s: string, i: nat)
    requires Stands(s, i, End)
    ensures After(End, i) == i && Closes(s, i)
  {}

  // ----- parentheses and place -----

  lemma SkipOne(s: string, i: nat, depth: nat)
    requires i < |s| && depth > 0 && Deeper(s[i], depth) > 0
    ensures CloseParen(s, i, depth) == CloseParen(s, i + 1, Deeper(s[i], depth))
    ensures depth > 1 || s[i] != ',' ==> TopComma(s, i, depth) == TopComma(s, i + 1, Deeper(s[i], depth))
  {}

  lemma {:induction false} SkipNeutral(s: string, i: nat, j: nat, depth: nat)
    requires depth > 0 && i <= j <= |s|
    requires forall k :: i <= k < j ==> s[k] != '(' && s[k] != ')' && s[k] != ','
    ensures CloseParen(s, i, depth) == CloseParen(s, j, depth)
    ensures TopComma(s, i, depth) == TopComma(s, j, depth)
    decreases j - i
  {
    if i < j { SkipNeutral(s, i + 1, j, depth); }
  }

  lemma SkipText(s: string, i: nat, t: string, depth: nat)
    requires depth > 0 && At(s, i, t) && forall c <- t :: c != '(' && c != ')' && c != ','
    ensures CloseParen(s, i, depth) == CloseParen(s, i + |t|, depth)
    ensures TopComma(s, i, depth) == TopComma(s, i + |t|, depth)
  {
    hide CloseParen, TopComma;
    forall k | i <= k < i + |t| ensures s[k] in t { AtIndex(s, i, t, k - i); }
    SkipNeutral(s, i, i + |t|, depth);
  }

  // A tree in a call leaves the depth of the scan as it was and, if it is
  // directly in the argument, shows it no comma at depth one.
  ghost predicate Skips(s: string, i: nat, e: Expr, place: Context, depth: nat)
    requires i <= |s| && depth > 0
  {
    && After(e, i) <= |s|
    && CloseParen(s, i, depth) == CloseParen(s, After(e, i), depth)
    && (depth > 1 || place == Argument ==> TopComma(s, i, depth) == TopComma(s, After(e, i), depth))
  }

  lemma {:induction false} SkipTree(s: string, i: nat, e: Expr, word: string, place: Context, depth: nat)
    requires Stands(s, i, e) && WellFormed(e, word, place) && place != Outside && depth > 0
    ensures i <= |s| && Skips(s, i, e, place, depth)
    decreases e, 1
  {
    hide At, Print, After, Stands, RefEnd, RefEndsBefore, IsPlaceholder, Name, CloseParen, TopComma;
    Bounded(s, i, e);
    match e
    case End =>
      EndStands(s, i);
    case Ch(c, rest) =>
      ChStands(s, i, c, rest);
      SkipOne(s, i, depth);
      SkipTree(s, i + 1, rest, if IsIdentChar(c) then word + [c] else "", place, depth);
    case Ref(r, rest) =>
      RefStands(s, i, r, rest);
      SkipKept(s, i, r, 0, 1, depth - 1, place == Inside);
      SkipTree(s, i + |r|, rest, "", place, depth);
    case Hole(k, rest) =>
      HoleStands(s, i, k, rest);
      NameChars(k);
      SkipText(s, i, Name(k), depth);
      SkipTree(s, i + |Name(k)|, rest, "", place, depth);
    case Group(b, rest) => SkipGroup(s, i, b, rest, place, depth);
    case Coalesce(a, f, rest) => SkipCall(s, i, a, f, rest, place, depth);
  }

  lemma SkipGroup(s: string, i: nat, b: Expr, rest: Expr, place: Context, depth: nat)
    requires Stands(s, i, Group(b, rest)) && WellFormed(b, "", Nested(place)) && WellFormed(rest, "", place)
    requires place != Outside && depth > 0
    ensures i <= |s| && Skips(s, i, Group(b, rest), place, depth)
    decreases Group(b, rest), 0
  {
    hide At, Print, After, Stands, WellFormed, CloseParen, TopComma;
    GroupStands(s, i, b, rest);
    SkipOne(s, i, depth);
    SkipTree(s, i + 1, b, "", Nested(place), depth + 1);
    SkipOne(s, After(b, i + 1), depth + 1);
    SkipTree(s, After(b, i + 1) + 1, rest, "", place, depth);
  }

  lemma SkipCall(s: string, i: nat, a: Expr, f: Expr, rest: Expr, place: Context, depth: nat)
    requires Stands(s, i, Coalesce(a, f, rest)) && place != Outside && depth > 0
    requires WellFormed(a, "", Argument) && WellFormed(f, "", Inside) && WellFormed(rest, "", place)
    ensures i <= |s| && Skips(s, i, Coalesce(a, f, rest), place, depth)
    decreases Coalesce(a, f, rest), 0
  {
    hide At, Print, After, Stands, WellFormed, OpensAt, CloseParen, TopComma;
    CoalesceStands(s, i, a, f, rest);
    OpensFits(s, i);
    var j := After(a, i + OPENING);
    SkipOpening(s, i, depth);
    SkipTree(s, i + OPENING, a, "", Argument, depth + 1);
    SkipOne(s, j, depth + 1);
    SkipTree(s, j + 1, f, "", Inside, depth + 1);
    SkipOne(s, After(f, j + 1), depth + 1);
    SkipTree(s, CallEnd(i, a, f), rest, "", place, depth);
  }

  lemma SkipOpening(s: string, p: nat, depth: nat)
    requires depth > 0 && OpensAt(s, p)
    ensures CloseParen(s, p, depth) == CloseParen(s, p + OPENING, depth + 1)
    ensures TopComma(s, p, depth) == TopComma(s, p + OPENING, depth + 1)
  {
    hide CloseParen, TopComma;
    SkipNeutral(s, p, p + OPENING - 1, depth);
    SkipOne(s, p + OPENING - 1, depth);
  }

  // Where the scan of a call's inside finds its comma and its end.
  lemma CallScan(s: string, p: nat, a: Expr, f: Expr)
    requires CallStandsAt(s, p, a, f) && WellFormed(a, "", Argument) && WellFormed(f, "", Inside)
    ensures TopComma(s, p + OPENING, 1) == Some(After(a, p + OPENING))
    ensures CloseParen(s, p + OPENING, 1) == Some(CallEnd(p, a, f) - 1)
  {
    hide At, Print, After, Stands, OpensAt;
    var i := p + OPENING;
    var j := After(a, i);
    SkipTree(s, i, a, "", Argument, 1);
    SkipOne(s, j, 1);
    SkipTree(s, j + 1, f, "", Inside, 1);
  }

  // The call that stands at p is found with its argument and fallback.
  lemma CallFound(s: string, p: nat, a: Expr, f: Expr)
    requires CallStandsAt(s, p, a, f) && WellFormed(a, "", Argument) && WellFormed(f, "", Inside)
    ensures CallAt(s, p) == Some(Match(Trim(Print(a)), Trim(Print(f)), p, CallEnd(p, a, f)))
  {
    hide Trim, Stands, Print, After, At, OpensAt, CloseParen, TopComma;
    CallScan(s, p, a, f);
    TextBetween(s, p + OPENING, a);
    TextBetween(s, After(a, p + OPENING) + 1, f);
  }

  lemma TextBetween(s: string, i: nat, e: Expr)
    requires Stands(s, i, e)
    ensures i <= After(e, i) <= |s| && s[i..After(e, i)] == Print(e)
  {}
}
