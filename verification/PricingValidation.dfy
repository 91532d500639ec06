// The load-time check of a pricing expression (substituteRefs in
// packages/middleware-openapi/src/evaluator.ts), and what the trace of an
// evaluation reports.
module PricingValidation {
  import opened Text
  import opened PricingScanner
  import opened PricingTree
  import opened PricingLexing
  import opened PricingTrim
  import opened PricingKeys
  import opened PricingSearch
  import opened PricingPlug
  import opened PricingMeaning
  import opened PricingTermination
  import opened PricingRewrite
  import opened PricingTheorem

  // ----- the trace -----

  // Every entry pairs a reference with the one value it selects.
  ghost predicate TrueBindings(b: Vars, q: Query) {
    forall r :: r in b ==> |q(r)| == 1 && b[r] == q(r)[0]
  }

  lemma {:induction false} ResolveRefsTrue(refs: seq<string>, q: Query, p: Primary)
    requires TrueBindings(p.bindings, q)
    ensures TrueBindings(ResolveRefs(refs, q, p).bindings, q)
    decreases |refs|
  {
    hide Name, ReplaceFirst;
    if |refs| > 0 && !Missing(q, refs[0]) {
      ResolveRefsTrue(refs[1..], q, Bind(p, refs[0], q(refs[0])[0]));
    }
  }

  lemma {:induction false} RewriteTrue(st: State, q: Query)
    requires TrueBindings(st.bindings, q)
    ensures TrueBindings(RewriteAll(st, q).bindings, q)
    decreases Count(st.text)
  {
    hide Count, InnermostFrom, ResolveRefs, Spliced, PlainRefs;
    var m := FindInnermost(st.text);
    if m.Some? {
      PassShrinks(st, q);
      ResolveRefsTrue(PlainRefs(m.value.arg, 0), q, Primary(false, m.value.arg, st.next, map[], map[]));
      RewriteTrue(Pass(st, q, m.value), q);
    }
  }

  lemma {:induction false} ReplaceAllTrue(s: string, i: nat, q: Query, out: State)
    requires i <= |s| && TrueBindings(out.bindings, q)
    ensures var done := ReplaceAll(s, i, q, out); done.Some? ==> TrueBindings(done.value.bindings, q)
    decreases |s| - i
  {
    hide Name, RefEnd;
    if i < |s| {
      var e := RefEnd(s, i);
      if e == i { ReplaceAllTrue(s, i + 1, q, out.(text := out.text + [s[i]])); }
      else if |q(s[i..e])| == 1 { ReplaceAllTrue(s, e, q, Place(out, s[i..e], q(s[i..e])[0])); }
    }
  }

  // On any text, the bindings reported with a coefficient are true.
  lemma BindingsAreTrue(expr: string, q: Query, eval: Evaluator)
    ensures var o := Resolve(expr, q, eval); o.Coefficient? ==> TrueBindings(o.bindings, q)
  {
    hide RewriteAll, ReplaceAll, Read;
    var st := RewriteAll(State(expr, 0, map[], map[]), q);
    RewriteTrue(State(expr, 0, map[], map[]), q);
    ReplaceAllTrue(st.text, 0, q, st.(text := ""));
  }

  // ----- substituteRefs -----

  datatype Draft = Draft(text: string, next: nat, refs: seq<string>)

  const ZERO_TIMES := ") + 0 * ("

  function DraftPass(d: Draft, m: Match): Draft
    requires m.start <= m.end <= |d.text|
  {
    var refs := PlainRefs(m.arg, 0);
    var primary := Substituted(m.arg, refs, d.next);
    Draft(Spliced(d.text, m, "(" + ("(" + primary + ZERO_TIMES + m.fallback + ")") + ")"),
          d.next + |refs|, d.refs + refs)
  }

  lemma {:induction false} SubstitutedCount(s: string, refs: seq<string>, k: nat)
    ensures Count(Substituted(s, refs, k)) <= Count(s)
    decreases |refs|
  {
    hide Count, Name, ReplaceFirst;
    if refs != [] {
      SubstitutionCount(s, refs[0], k);
      SubstitutedCount(ReplaceFirst(s, refs[0], Name(k)), refs[1..], k + 1);
    }
  }

  lemma ParenthesisCount(s: string)
    ensures Count("(" + s) <= Count(s)
  {
    hide Count;
    CountSplice("", 0, "(", s);
    assert ""[..0] + "(" + s == "(" + s;
    assert Openings("", 0, 0) == 0;
  }

  lemma SumCount(a: string, f: string)
    ensures Count("(" + a + ZERO_TIMES + f + ")") <= Count(a) + Count(f)
  {
    hide Count;
    var tail := "(" + f + ")";
    CountApart("(" + a, ')', " + 0 * " + tail);
    assert ("(" + a) + [')'] + (" + 0 * " + tail) == "(" + a + ZERO_TIMES + f + ")";
    CountApart(" + 0 *", ' ', tail);
    assert " + 0 *" + [' '] + tail == " + 0 * " + tail;
    CountApart("(" + f, ')', "");
    assert ("(" + f) + [')'] + "" == tail;
    ParenthesisCount(a);
    ParenthesisCount(f);
    ShortCount(" + 0 *");
    ShortCount("");
  }

  lemma ShortCount(s: string)
    requires |s| < OPENING
    ensures Count(s) == 0
  {
    NoneIn(s, 0, |s|);
  }

  lemma DraftShrinks(d: Draft)
    requires FindInnermost(d.text).Some?
    ensures Count(DraftPass(d, FindInnermost(d.text).value).text) < Count(d.text)
  {
    hide Count, InnermostFrom, IsCallOf, Substituted, Spliced, PlainRefs;
    var m := FindInnermost(d.text).value;
    var primary := Substituted(m.arg, PlainRefs(m.arg, 0), d.next);
    FoundIsCall(d.text, 0);
    SubstitutedCount(m.arg, PlainRefs(m.arg, 0), d.next);
    SumCount(primary, m.fallback);
    PassDecreases(d.text, m, "(" + primary + ZERO_TIMES + m.fallback + ")");
  }

  function DraftAll(d: Draft): Draft
    decreases Count(d.text)
  {
    var m := FindInnermost(d.text);
    if m.None? then d
    else
      DraftShrinks(d);
      DraftAll(DraftPass(d, m.value))
  }

  // The global replacement of references, from position i on.
  function DraftRefs(s: string, i: nat, d: Draft): Draft
    requires i <= |s|
    decreases |s| - i
  {
    if i == |s| then d
    else
      var e := RefEnd(s, i);
      if e == i then DraftRefs(s, i + 1, d.(text := d.text + [s[i]]))
      else DraftRefs(s, e, Draft(d.text + Name(d.next), d.next + 1, d.refs + [s[i..e]]))
  }

  function SubstituteRefs(expr: string): Draft {
    var d := DraftAll(Draft(expr, 0, []));
    DraftRefs(d.text, 0, d.(text := ""))
  }

  method ScanSubstituteRefs(expression: string) returns (d: Draft)
    ensures d == SubstituteRefs(expression)
  {
    hide Count, InnermostFrom, Name;
    d := Draft(expression, 0, []);
    while true
      invariant DraftAll(d) == DraftAll(Draft(expression, 0, []))
      decreases Count(d.text)
    {
      var coal := ScanFindInnermost(d.text);
      if coal.None? { break; }
      DraftShrinks(d);
      d := ScanDraftPass(d, coal.value);
    }
    var processed := d.text;
    ghost var start := d.(text := "");
    d := d.(text := "");
    var i := 0;
    while i < |processed|
      invariant i <= |processed|
      invariant DraftRefs(processed, 0, start) == DraftRefs(processed, i, d)
    {
      var e := RefEnd(processed, i);
      if e == i {
        d := d.(text := d.text + [processed[i]]);
        i := i + 1;
      } else {
        d := Draft(d.text + Name(d.next), d.next + 1, d.refs + [processed[i..e]]);
        i := e;
      }
    }
  }

  method ScanDraftPass(d: Draft, m: Match) returns (r: Draft)
    requires m.start <= m.end <= |d.text|
    ensures r == DraftPass(d, m)
  {
    hide Name, ReplaceFirst, PlainRefs;
    var argRefs := ExtractPlainRefs(m.arg);
    var substituted := m.arg;
    var i := 0;
    while i < |argRefs|
      invariant i <= |argRefs|
      invariant Substituted(m.arg, argRefs, d.next) == Substituted(substituted, argRefs[i..], d.next + i)
    {
      assert argRefs[i..][1..] == argRefs[i + 1..];
      substituted := ReplaceFirst(substituted, argRefs[i], Name(d.next + i));
      i := i + 1;
    }
    var replacement := "(" + ("(" + substituted + ZERO_TIMES + m.fallback + ")") + ")";
    r := Draft(d.text[..m.start] + replacement + d.text[m.end..], d.next + |argRefs|, d.refs + argRefs);
  }

  // ----- the check sees every reference -----

  // The tree that a draft pass puts, in parentheses, in the place of a call.
  function Drafted(c: Call, k: nat): Expr {
    Group(Fill(TrimTree(c.arg), k), ZeroTimes(Group(TrimTree(c.fallback), End)))
  }

  function ZeroTimes(e: Expr): Expr {
    Ch(' ', Ch('+', Ch(' ', Ch('0', Ch(' ', Ch('*', Ch(' ', e)))))))
  }

  lemma ZeroTimesKeeps(e: Expr, r: string)
    requires WellFormed(e, "", Inside)
    ensures WellFormed(ZeroTimes(e), "", Inside) && Print(ZeroTimes(e)) == " + 0 * " + Print(e)
    ensures Calls(ZeroTimes(e)) == Calls(e) && Uses(ZeroTimes(e), r) == Uses(e, r)
  {
    hide WellFormed, Print, Uses, Calls, IsPlaceholder;
    NoWord();
    var e1 := Ch(' ', e);
    var e2 := Ch('*', e1);
    var e3 := Ch(' ', e2);
    var e4 := Ch('0', e3);
    var e5 := Ch(' ', e4);
    var e6 := Ch('+', e5);
    Prefixed(' ', e, "", r);
    Prefixed('*', e1, "", r);
    Prefixed(' ', e2, "0", r);
    Prefixed('0', e3, "", r);
    Prefixed(' ', e4, "", r);
    Prefixed('+', e5, "", r);
    Prefixed(' ', e6, "", r);
    var s := Print(e);
    assert [' '] + (['+'] + ([' '] + (['0'] + ([' '] + (['*'] + ([' '] + s)))))) == " + 0 * " + s;
  }

  lemma Prefixed(c: char, rest: Expr, word: string, r: string)
    requires c == ' ' || c == '+' || c == '*' || c == '0'
    requires if c == '0' then WellFormed(rest, word + [c], Inside)
             else !IsPlaceholder(word) && WellFormed(rest, "", Inside)
    ensures WellFormed(Ch(c, rest), word, Inside) && Print(Ch(c, rest)) == [c] + Print(rest)
    ensures Calls(Ch(c, rest)) == Calls(rest) && Uses(Ch(c, rest), r) == Uses(rest, r)
  {
    hide IsPlaceholder;
  }

  lemma NoWord()
    ensures !IsPlaceholder("") && !IsPlaceholder("0") && "" + ['0'] == "0"
    ensures WellFormed(End, "", Inside)
  {}

  lemma DraftedKeeps(c: Call, k: nat, r: string)
    requires CallWellFormed(c) && Calls(c.arg) == 0 && Calls(c.fallback) == 0
    ensures var g := Drafted(c, k);
      && WellFormed(g, "", Inside) && Calls(g) == 0 && Uses(g, r) == Uses(c.fallback, r)
      && Print(g) == "(" + Print(Fill(TrimTree(c.arg), k)) + ZERO_TIMES + Print(TrimTree(c.fallback)) + ")"
  {
    hide WellFormed, TrimTree, ZeroTimes;
    var a, f := TrimTree(c.arg), TrimTree(c.fallback);
    var fg := Group(f, End);
    TrimKeeps(c.arg, Argument);
    TrimKeeps(c.fallback, Inside);
    Wider(a, "", Argument, Inside);
    FillKeeps(a, k, "", Inside);
    NoWord();
    GroupKeeps(f, End, r);
    ZeroTimesKeeps(fg, r);
    GroupKeeps(Fill(a, k), ZeroTimes(fg), r);
    FilledUses(a, k, r);
    DraftedText(Print(Fill(a, k)), Print(f));
  }

  lemma DraftedTakesPlace(c: Call, k: nat)
    requires CallWellFormed(c) && Calls(c.arg) == 0 && Calls(c.fallback) == 0
    ensures TakesPlace(Drafted(c, k), c.fallback)
  {
    hide WellFormed, Readable;
    DraftedKeeps(c, k, "");
    if Readable(c.fallback, Inside, "", true) { DraftedReadable(c, k, true); }
    if Readable(c.fallback, Inside, "", false) { DraftedReadable(c, k, false); }
  }

  lemma DraftedReadable(c: Call, k: nat, last: bool)
    requires CallWellFormed(c) && Calls(c.arg) == 0 && Calls(c.fallback) == 0 && Readable(c.fallback, Inside, "", last)
    ensures Readable(Drafted(c, k), Inside, "", last)
  {
    hide WellFormed, TrimTree, Fill, IsClear, Print;
    var a, f := TrimTree(c.arg), TrimTree(c.fallback);
    TrimKeeps(c.arg, Argument);
    TrimKeeps(c.fallback, Inside);
    TrimReadable(c.fallback, Inside, last);
    FillKeeps(a, k, "", Argument);
    ClearReadable(Fill(a, k), Inside, "", last);
    var fg := Group(f, End);
    assert Readable(fg, Inside, "", last) && Calls(fg) == 0;
    ZeroReadable(fg, last);
  }

  lemma ZeroReadable(e: Expr, last: bool)
    requires Readable(e, Inside, "", last)
    ensures Readable(ZeroTimes(e), Inside, "", last) && Calls(ZeroTimes(e)) == Calls(e)
  {
    var e1 := Ch(' ', e);
    var e2 := Ch('*', e1);
    var e3 := Ch(' ', e2);
    var e4 := Ch('0', e3);
    var e5 := Ch(' ', e4);
    var e6 := Ch('+', e5);
    assert Readable(e1, Inside, "", last) && Calls(e1) == Calls(e);
    assert Readable(e2, Inside, "", last) && Calls(e2) == Calls(e);
    assert Readable(e3, Inside, "", last) && Calls(e3) == Calls(e);
    assert Readable(e4, Inside, "", last) && Calls(e4) == Calls(e);
    assert Readable(e5, Inside, "", last) && Calls(e5) == Calls(e);
    assert Readable(e6, Inside, "", last) && Calls(e6) == Calls(e);
  }

  lemma GroupKeeps(b: Expr, rest: Expr, r: string)
    requires WellFormed(b, "", Inside) && WellFormed(rest, "", Inside)
    ensures var e := Group(b, rest);
      && WellFormed(e, "", Inside) && Calls(e) == Calls(b) + Calls(rest)
      && Uses(e, r) == Uses(b, r) + Uses(rest, r) && WellFormed(End, "", Inside) && Uses(End, r) == 0
      && Print(e) == "(" + Print(b) + ")" + Print(rest)
  {
    NoWord();
  }

  lemma FilledUses(e: Expr, k: nat, r: string)
    requires Refs(Fill(e, k)) == []
    ensures Uses(Fill(e, k), r) == 0
  {}

  lemma DraftedText(a: string, f: string)
    ensures "(" + a + ")" + (" + 0 * " + ("(" + f + ")" + "")) == "(" + a + ZERO_TIMES + f + ")"
  {}

  // ----- what is written -----

  // The expression with coalesce(a, f) written as ((a) + 0 * (f)) and nothing told
  // of its references but where they are.
  function Shape(e: Expr): Expr {
    match e
    case End => End
    case Ch(c, rest) => Ch(c, Shape(rest))
    case Ref(_, rest) => Hole(0, Shape(rest))
    case Hole(_, rest) => Hole(0, Shape(rest))
    case Group(b, rest) => Group(Shape(b), Shape(rest))
    case Coalesce(a, f, rest) => Group(ShapeOfCall(Shape(a), Shape(f)), Shape(rest))
  }

  function ShapeOfCall(a: Expr, f: Expr): Expr { Group(TrimTree(a), ZeroTimes(Group(TrimTree(f), End))) }

  lemma {:induction false} PlugShape(e: Expr, g: Expr)
    requires Calls(e) > 0
    requires var c := InnerCall(e); Shape(g) == ShapeOfCall(Shape(c.arg), Shape(c.fallback))
    ensures Shape(Plug(e, g)) == Shape(e)
    decreases e
  {
    InnerParts(e);
    hide InnerCall, ShapeOfCall;
    match e
    case Ch(_, rest) => PlugShape(rest, g);
    case Ref(_, rest) => PlugShape(rest, g);
    case Hole(_, rest) => PlugShape(rest, g);
    case Group(b, rest) => if Calls(b) > 0 { PlugShape(b, g); } else { PlugShape(rest, g); }
    case Coalesce(a, f, rest) =>
      if Calls(a) > 0 { PlugShape(a, g); } else if Calls(f) > 0 { PlugShape(f, g); }
  }

  lemma {:induction false} FillShape(e: Expr, k: nat)
    requires Calls(e) == 0
    ensures Shape(Fill(e, k)) == Shape(e)
    decreases e
  {
    match e
    case End =>
    case Ch(_, rest) => FillShape(rest, k);
    case Ref(_, rest) => FillShape(rest, k + 1);
    case Hole(_, rest) => FillShape(rest, k);
    case Group(b, rest) => FillShape(b, k); FillShape(rest, k + |Refs(b)|);
  }

  lemma {:induction false} LeftShape(e: Expr)
    ensures Shape(TrimLeftTree(e)) == TrimLeftTree(Shape(e))
  {
    hide ShapeOfCall, IsSpace;
    if e.Ch? { LeftShape(e.rest); }
  }

  lemma {:induction false} RightShape(e: Expr)
    ensures Shape(TrimRightTree(e)) == TrimRightTree(Shape(e)) && (TrimRightTree(e) == End <==> TrimRightTree(Shape(e)) == End)
    decreases e
  {
    hide ShapeOfCall, IsSpace;
    if e != End { RightShape(e.rest); }
  }

  lemma DraftedShape(c: Call, k: nat)
    requires CallWellFormed(c) && Calls(c.arg) == 0 && Calls(c.fallback) == 0
    ensures Shape(Drafted(c, k)) == ShapeOfCall(Shape(c.arg), Shape(c.fallback))
  {
    hide TrimLeftTree, TrimRightTree, Fill, WellFormed;
    TrimKeeps(c.arg, Argument);
    FillShape(TrimTree(c.arg), k);
    LeftShape(c.arg);
    RightShape(TrimLeftTree(c.arg));
    LeftShape(c.fallback);
    RightShape(TrimLeftTree(c.fallback));
    ZeroShape(Group(TrimTree(c.fallback), End));
  }

  lemma ZeroShape(e: Expr)
    ensures Shape(ZeroTimes(e)) == ZeroTimes(Shape(e))
  {
    var e1 := Ch(' ', e);
    var e2 := Ch('*', e1);
    var e3 := Ch(' ', e2);
    var e4 := Ch('0', e3);
    var e5 := Ch(' ', e4);
    assert Shape(e1) == Ch(' ', Shape(e)) && Shape(e2) == Ch('*', Shape(e1)) && Shape(e3) == Ch(' ', Shape(e2));
    assert Shape(e4) == Ch('0', Shape(e3)) && Shape(e5) == Ch(' ', Shape(e4));
  }

  // A draft stands for a tree: it is its text, it has the shape of the expression, and the references listed so far
  // with those still in the tree are the references of the expression.
  ghost predicate Drafts(d: Draft, t: Expr, e: Expr) {
    && WellFormed(t, "", Outside) && Readable(t, Outside, "", true) && d.text == Print(t) && Shape(t) == Shape(e)
    && forall r :: multiset(d.refs)[r] + Uses(t, r) == Uses(e, r)
  }

  lemma DraftPassOnTree(d: Draft, t: Expr, e: Expr)
    requires Drafts(d, t, e) && Calls(t) > 0
    ensures FindInnermost(d.text).Some?
    ensures var d' := DraftPass(d, FindInnermost(d.text).value);
      var t' := Plug(t, Drafted(InnerCall(t), d.next));
      Drafts(d', t', e) && Calls(t') == Calls(t) - 1
  {
    hide WellFormed, Plug, Calls, Print, FindInnermost, InnerCall, Uses, Drafted, DraftPass, Readable, Shape, ShapeOfCall;
    var c := InnerCall(t);
    DraftPassText(d, t);
    InnerIsInner(t, "", Outside);
    DraftedKeeps(c, d.next, "");
    PlugKeeps(t, Drafted(c, d.next), "", Outside);
    DraftedTakesPlace(c, d.next);
    PlugReadable(t, Drafted(c, d.next), "", Outside, "", true);
    DraftedShape(c, d.next);
    PlugShape(t, Drafted(c, d.next));
    var d' := DraftPass(d, FindInnermost(d.text).value);
    var t' := Plug(t, Drafted(c, d.next));
    forall r ensures multiset(d'.refs)[r] + Uses(t', r) == Uses(e, r) { DraftUses(d, t, e, r); }
  }

  // The text and the list of references after a pass.
  lemma DraftPassText(d: Draft, t: Expr)
    requires WellFormed(t, "", Outside) && Readable(t, Outside, "", true) && d.text == Print(t) && Calls(t) > 0
    ensures FindInnermost(d.text).Some?
    ensures var d' := DraftPass(d, FindInnermost(d.text).value);
      && d'.text == Print(Plug(t, Drafted(InnerCall(t), d.next)))
      && d'.refs == d.refs + Refs(TrimTree(InnerCall(t).arg))
  {
    hide WellFormed, Plug, Fill, TrimTree, Calls, Print, PlainRefs, FindInnermost, InnerCall, Substituted, Drafted, Refs, Width,
      Readable;
    var c := InnerCall(t);
    var a := TrimTree(c.arg);
    CallFacts(t);
    InnerIsInner(t, "", Outside);
    DraftedKeeps(c, d.next, "");
    PlugText(t, Drafted(c, d.next));
    PrimaryRefs(a, Argument);
    SubstitutedWhole(a, d.next, Argument);
  }

  // A reference is on the list or still in the text, as often as before.
  lemma DraftUses(d: Draft, t: Expr, e: Expr, r: string)
    requires Drafts(d, t, e) && Calls(t) > 0
    ensures var g := Drafted(InnerCall(t), d.next);
      multiset(d.refs + Refs(TrimTree(InnerCall(t).arg)))[r] + Uses(Plug(t, g), r) == Uses(e, r)
  {
    hide WellFormed, Plug, Fill, TrimTree, Calls, Print, PlainRefs, FindInnermost, InnerCall, Substituted, Uses, Drafted, Refs,
      Shape;
    var c := InnerCall(t);
    var a := TrimTree(c.arg);
    InnerIsInner(t, "", Outside);
    DraftedKeeps(c, d.next, r);
    PlugRefs(t, Drafted(c, d.next), r);
    UsesIs(c.arg, r);
    TrimKeeps(c.arg, Argument);
    assert multiset(d.refs + Refs(a)) == multiset(d.refs) + multiset(Refs(a));
  }

  lemma UsesIs(e: Expr, r: string)
    ensures Uses(e, r) == multiset(Refs(e))[r]
  {}

  lemma {:induction false} DraftAllOnTree(d: Draft, t: Expr, e: Expr) returns (t': Expr)
    requires Drafts(d, t, e)
    ensures Drafts(DraftAll(d), t', e) && Calls(t') == 0
    decreases Calls(t)
  {
    hide Drafts, Plug, FindInnermost, InnerCall, DraftPass, Drafted, Count;
    if Calls(t) == 0 {
      NothingToDraft(d, t, e);
      t' := t;
    } else {
      DraftPassOnTree(d, t, e);
      t' := DraftAllOnTree(DraftPass(d, FindInnermost(d.text).value), Plug(t, Drafted(InnerCall(t), d.next)), e);
    }
  }

  lemma NothingToDraft(d: Draft, t: Expr, e: Expr)
    requires Drafts(d, t, e) && Calls(t) == 0
    ensures FindInnermost(d.text).None?
  {
    hide FindInnermost, Print, WellFormed, Uses, Readable, Shape;
    FindInnermostOnTree(t, Outside);
  }

  const ANY: Query := r => [Null]

  // The last replacement is the one of the evaluation, with nothing to fail.
  lemma {:induction false} DraftIsReplace(s: string, i: nat, d: Draft, out: State)
    requires i <= |s| && d.text == out.text && d.next == out.next
    ensures var done := ReplaceAll(s, i, ANY, out);
      done.Some? && done.value.text == DraftRefs(s, i, d).text
    ensures DraftRefs(s, i, d).refs == d.refs + PlainRefs(s, i)
    decreases |s| - i
  {
    hide Name, RefEnd;
    if i < |s| {
      var e := RefEnd(s, i);
      if e == i {
        DraftIsReplace(s, i + 1, d.(text := d.text + [s[i]]), out.(text := out.text + [s[i]]));
      } else {
        DraftIsReplace(s, e, Draft(d.text + Name(d.next), d.next + 1, d.refs + [s[i..e]]), Place(out, s[i..e], Null));
        assert d.refs + [s[i..e]] + PlainRefs(s, e) == d.refs + ([s[i..e]] + PlainRefs(s, e));
      }
    }
  }

  // The load-time text of a source tree has no call and no reference left, and
  // is the expression with every coalesce(a, f) written as ((a) + 0 * (f)); the
  // references handed to the JSONPath compiler are exactly those written
  // anywhere in the expression, in arguments and in fallbacks, as often as
  // they are written.
  lemma EveryReferenceIsChecked(e: Expr) returns (t: Expr)
    requires IsSource(e)
    ensures multiset(SubstituteRefs(Print(e)).refs) == multiset(Refs(e))
    ensures SubstituteRefs(Print(e)).text == Print(t) && WellFormed(t, "", Outside) && Calls(t) == 0 && Refs(t) == []
    ensures Shape(t) == Shape(e)
  {
    hide WellFormed, Print, DraftAll, DraftRefs, ReplaceAll, Stands, Fill, PlainRefs, Readable, Shape;
    var d0 := Draft(Print(e), 0, []);
    UsesStart(d0, e);
    var t0 := DraftAllOnTree(d0, e, e);
    var d := DraftAll(d0);
    var out := State("", d.next, map[], map[]);
    StandsAlone(t0);
    var done := ReplaceAllOn(d.text, 0, t0, "", Outside, ANY, out);
    EndOfText(d.text, ANY, out, done);
    DraftIsReplace(d.text, 0, d.(text := ""), out);
    PrimaryRefs(t0, Outside);
    t := Fill(t0, d.next);
    FillKeeps(t0, d.next, "", Outside);
    FillShape(t0, d.next);
    assert "" + Print(t) == Print(t);
    var refs := SubstituteRefs(Print(e)).refs;
    assert refs == d.refs + Refs(t0);
    forall r ensures multiset(refs)[r] == multiset(Refs(e))[r] {
      assert multiset(refs) == multiset(d.refs) + multiset(Refs(t0));
      assert multiset(d.refs)[r] + Uses(t0, r) == Uses(e, r);
    }
  }

  lemma UsesStart(d: Draft, e: Expr)
    requires IsSource(e) && d == Draft(Print(e), 0, [])
    ensures Drafts(d, e, e)
  {}
}
