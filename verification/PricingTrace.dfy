// The bindings that are returned with a coefficient: which references of the
// expression are among them, and with which values.
module PricingTrace {
  import opened Text
  import opened PricingScanner
  import opened PricingTree
  import opened PricingTrim
  import opened PricingKeys
  import opened PricingSearch
  import opened PricingPlug
  import opened PricingMeaning
  import opened PricingTermination
  import opened PricingRewrite
  import opened PricingTheorem
  import opened PricingValidation

  function SetOf(refs: seq<string>): set<string> { set r | r in refs }

  // The references that the value of e is computed from.
  function Live(e: Expr, q: Query): set<string> {
    match e
    case End => {}
    case Ch(_, rest) => Live(rest, q)
    case Ref(r, rest) => {r} + Live(rest, q)
    case Hole(_, rest) => Live(rest, q)
    case Group(b, rest) => Live(b, q) + Live(rest, q)
    case Coalesce(a, f, rest) => (if Nullish(a, q) then Live(f, q) else Live(a, q)) + Live(rest, q)
  }

  // The references of the arguments that some coalesce of e takes, even if it
  // stands in a part that is not taken itself.
  function Taken(e: Expr, q: Query): set<string> {
    match e
    case End => {}
    case Ch(_, rest) => Taken(rest, q)
    case Ref(_, rest) => Taken(rest, q)
    case Hole(_, rest) => Taken(rest, q)
    case Group(b, rest) => Taken(b, q) + Taken(rest, q)
    case Coalesce(a, f, rest) =>
      Taken(a, q) + Taken(f, q) + (if Nullish(a, q) then {} else Live(a, q)) + Taken(rest, q)
  }

  lemma {:induction false} FlatLive(e: Expr, q: Query)
    requires Calls(e) == 0
    ensures Live(e, q) == SetOf(Refs(e)) && Taken(e, q) == {}
    decreases e
  {
    match e
    case End =>
    case Ch(_, rest) => FlatLive(rest, q);
    case Ref(r, rest) => FlatLive(rest, q);
    case Hole(_, rest) => FlatLive(rest, q);
    case Group(b, rest) => FlatLive(b, q); FlatLive(rest, q);
  }

  // ----- one pass -----

  lemma {:induction false} ResolveKeys(refs: seq<string>, q: Query, p: Primary)
    requires !AnyMissing(refs, q)
    ensures ResolveRefs(refs, q, p).bindings.Keys == p.bindings.Keys + SetOf(refs)
    decreases |refs|
  {
    hide Name, ReplaceFirst;
    if refs != [] {
      assert refs == [refs[0]] + refs[1..] && refs[0] in refs;
      assert forall r <- refs[1..] :: r in refs;
      ResolveKeys(refs[1..], q, Bind(p, refs[0], q(refs[0])[0]));
    }
  }

  // What a pass adds: the references of the argument, if it is taken.
  function Added(c: Call, q: Query): set<string> { if Nullish(c.arg, q) then {} else SetOf(Refs(c.arg)) }

  // The replacement shows the references of the call, but for those added.
  ghost predicate ShowsCall(g: Expr, c: Call, q: Query) {
    && Calls(g) == 0 && Nullish(g, q) == (Nullish(c.arg, q) && Nullish(c.fallback, q))
    && SetOf(Refs(g)) == if Nullish(c.arg, q) then SetOf(Refs(c.fallback)) else {}
  }

  lemma {:induction false} PlugNullish(e: Expr, g: Expr, q: Query)
    requires Calls(e) > 0 && ShowsCall(g, InnerCall(e), q)
    ensures Nullish(Plug(e, g), q) == Nullish(e, q)
    decreases e
  {
    InnerParts(e);
    hide InnerCall, Refs, Missing;
    match e
    case Ch(_, rest) => PlugNullish(rest, g, q);
    case Ref(_, rest) => PlugNullish(rest, g, q);
    case Hole(_, rest) => PlugNullish(rest, g, q);
    case Group(b, rest) => if Calls(b) > 0 { PlugNullish(b, g, q); } else { PlugNullish(rest, g, q); }
    case Coalesce(a, f, rest) =>
      if Calls(a) > 0 { PlugNullish(a, g, q); } else if Calls(f) > 0 { PlugNullish(f, g, q); }
  }

  // The innermost call has no call inside it.
  ghost predicate Flat(c: Call) { Calls(c.arg) == 0 && Calls(c.fallback) == 0 }

  lemma {:induction false} PlugLive(e: Expr, g: Expr, q: Query)
    requires Calls(e) > 0 && ShowsCall(g, InnerCall(e), q) && Flat(InnerCall(e))
    ensures var x := Added(InnerCall(e), q); x + Live(Plug(e, g), q) == x + Live(e, q)
    decreases e
  {
    InnerParts(e);
    hide InnerCall, Refs, Nullish, SetOf, ShowsCall, Added;
    match e
    case Ch(_, rest) => PlugLive(rest, g, q);
    case Ref(_, rest) => PlugLive(rest, g, q);
    case Hole(_, rest) => PlugLive(rest, g, q);
    case Group(b, rest) => if Calls(b) > 0 { PlugLive(b, g, q); } else { PlugLive(rest, g, q); }
    case Coalesce(a, f, rest) =>
      if Calls(a) > 0 { PlugNullish(a, g, q); PlugLive(a, g, q); }
      else if Calls(f) > 0 { PlugLive(f, g, q); }
      else { CallLive(g, Call(0, a, f), q); }
  }

  lemma CallLive(g: Expr, c: Call, q: Query)
    requires ShowsCall(g, c, q) && Flat(c)
    ensures Added(c, q) + Live(g, q) == Added(c, q) + (if Nullish(c.arg, q) then Live(c.fallback, q) else Live(c.arg, q))
    ensures Taken(g, q) == {} == Taken(c.arg, q) == Taken(c.fallback, q)
    ensures Added(c, q) == if Nullish(c.arg, q) then {} else Live(c.arg, q)
  {
    hide Nullish, Refs;
    FlatLive(c.arg, q);
    FlatLive(c.fallback, q);
    FlatLive(g, q);
  }

  lemma {:induction false} PlugTaken(e: Expr, g: Expr, q: Query)
    requires Calls(e) > 0 && ShowsCall(g, InnerCall(e), q) && Flat(InnerCall(e))
    ensures Added(InnerCall(e), q) + Taken(Plug(e, g), q) == Taken(e, q)
    decreases e, 1
  {
    InnerParts(e);
    hide InnerCall, Refs, Nullish, SetOf, ShowsCall, Added, Live;
    match e
    case Ch(_, rest) => PlugTaken(rest, g, q);
    case Ref(_, rest) => PlugTaken(rest, g, q);
    case Hole(_, rest) => PlugTaken(rest, g, q);
    case Group(b, rest) => if Calls(b) > 0 { PlugTaken(b, g, q); } else { PlugTaken(rest, g, q); }
    case Coalesce(a, f, rest) =>
      if Calls(a) > 0 { TakenInArg(a, f, rest, g, q); }
      else if Calls(f) > 0 { PlugTaken(f, g, q); }
      else { CallLive(g, Call(0, a, f), q); }
  }

  lemma TakenInArg(a: Expr, f: Expr, rest: Expr, g: Expr, q: Query)
    requires Calls(a) > 0 && ShowsCall(g, InnerCall(a), q) && Flat(InnerCall(a))
    ensures Added(InnerCall(a), q) + Taken(Coalesce(Plug(a, g), f, rest), q) == Taken(Coalesce(a, f, rest), q)
    decreases Coalesce(a, f, rest), 0
  {
    PlugNullish(a, g, q);
    PlugLive(a, g, q);
    PlugTaken(a, g, q);
    hide InnerCall, Nullish, ShowsCall, Added, Live, Plug;
    var x := Added(InnerCall(a), q);
    if Nullish(a, q) {
      SameSum(x, Taken(Plug(a, g), q), Taken(a, q), {}, {}, Taken(f, q), Taken(rest, q));
    } else {
      SameSum(x, Taken(Plug(a, g), q), Taken(a, q), Live(Plug(a, g), q), Live(a, q), Taken(f, q), Taken(rest, q));
    }
  }

  lemma SameSum(x: set<string>, t: set<string>, t': set<string>, l: set<string>, l': set<string>, f: set<string>, r: set<string>)
    requires x + t == t' && x + l == x + l'
    ensures x + (t + f + l + r) == t' + f + l' + r
  {
    assert x + (t + f + l + r) == (x + t) + f + (x + l) + r;
    assert t' + f + (x + l') + r == (x + t') + f + l' + r;
    assert x + t' == t';
  }

  lemma PickedShows(c: Call, q: Query, k: nat)
    requires CallWellFormed(c) && Calls(c.arg) == 0 && Calls(c.fallback) == 0
    ensures ShowsCall(Picked(c, q, k), c, q)
  {
    hide WellFormed, TrimTree, Fill, AnyMissing, Calls, Nullish;
    var a, f := TrimTree(c.arg), TrimTree(c.fallback);
    TrimKeeps(c.arg, Argument);
    TrimKeeps(c.fallback, Inside);
    FillKeeps(a, k, "", Argument);
    FlatNullish(c.arg, q);
    FlatNullish(a, q);
    FlatNullish(f, q);
    FlatNullish(c.fallback, q);
    FlatNullish(Fill(a, k), q);
    NoneMissing(q);
  }

  // The bindings after a pass.
  lemma PassBinds(st: State, q: Query, e: Expr)
    requires StandsFor(st, e) && Calls(e) > 0
    ensures FindInnermost(st.text).Some?
    ensures Pass(st, q, FindInnermost(st.text).value).bindings.Keys == st.bindings.Keys + Added(InnerCall(e), q)
  {
    hide WellFormed, AnyMissing, TrimTree, Holes, FindInnermost, InnerCall, Calls, Print, ResolveRefs, PlainRefs, Bound, NamesIn,
      Readable, Nullish, Spliced, Refs;
    var c := InnerCall(e);
    CallFacts(e);
    InnerIsInner(e, "", Outside);
    var a := TrimTree(c.arg);
    TrimKeeps(c.arg, Argument);
    PrimaryRefs(a, Argument);
    FlatNullish(c.arg, q);
    NoneMissing(q);
    var m := FindInnermost(st.text).value;
    var p0 := Primary(false, m.arg, st.next, map[], map[]);
    ResolveNil(Refs(a), q, p0);
    if !AnyMissing(Refs(a), q) {
      ResolveKeys(Refs(a), q, p0);
      JoinedKeys(st.bindings, ResolveRefs(Refs(a), q, p0).bindings);
    }
  }

  lemma JoinedKeys(a: Vars, b: Vars)
    ensures (a + b).Keys == a.Keys + b.Keys
  {}

  // ----- all passes -----

  lemma {:induction false} RewriteBinds(st: State, q: Query, e: Expr) returns (t: Expr)
    requires StandsFor(st, e)
    ensures StandsFor(RewriteAll(st, q), t) && Calls(t) == 0
    ensures RewriteAll(st, q).bindings.Keys + Live(t, q) == st.bindings.Keys + Live(e, q) + Taken(e, q)
    decreases Calls(e)
  {
    hide StandsFor, Plug, FindInnermost, InnerCall, Print, Picked, Pass, Meaning, Live, Taken, Added;
    if Calls(e) == 0 {
      NothingFound(st, e);
      FlatLive(e, q);
      t := e;
    } else {
      PassOnTree(st, q, e);
      var st' := Pass(st, q, FindInnermost(st.text).value);
      PassBinds(st, q, e);
      PassTraced(st, q, e);
      t := RewriteBinds(st', q, Plug(e, Picked(InnerCall(e), q, st.next)));
    }
  }

  lemma PassTraced(st: State, q: Query, e: Expr)
    requires StandsFor(st, e) && Calls(e) > 0
    ensures var x := Added(InnerCall(e), q); var t := Plug(e, Picked(InnerCall(e), q, st.next));
      x + Live(t, q) + Taken(t, q) == Live(e, q) + Taken(e, q)
  {
    hide WellFormed, Plug, InnerCall, Print, Picked, Live, Taken, Added, Readable, Calls, Holes;
    InnerIsInner(e, "", Outside);
    PickedShows(InnerCall(e), q, st.next);
    PlugLive(e, Picked(InnerCall(e), q, st.next), q);
    PlugTaken(e, Picked(InnerCall(e), q, st.next), q);
  }

  // The last replacement binds every reference of the text.
  lemma {:induction false} ReplaceBinds(s: string, i: nat, q: Query, out: State)
    requires i <= |s| && ReplaceAll(s, i, q, out).Some?
    ensures ReplaceAll(s, i, q, out).value.bindings.Keys == out.bindings.Keys + SetOf(PlainRefs(s, i))
    decreases |s| - i
  {
    hide Name, RefEnd;
    if i < |s| {
      var e := RefEnd(s, i);
      if e == i {
        ReplaceBinds(s, i + 1, q, out.(text := out.text + [s[i]]));
      } else {
        ReplaceBinds(s, e, q, Place(out, s[i..e], q(s[i..e])[0]));
      }
    }
  }

  // With a coefficient come the values of exactly the references it is computed
  // from and of those of the arguments that a coalesce takes.
  lemma BindingsAreComplete(e: Expr, q: Query, eval: Evaluator)
    requires IsSource(e)
    ensures var o := Resolve(Print(e), q, eval);
      o.Coefficient? ==>
        && o.bindings.Keys == Live(e, q) + Taken(e, q)
        && forall r <- o.bindings :: q(r) == [o.bindings[r]]
  {
    hide Print, WellFormed, RewriteAll, ReplaceAll, Read, StandsFor, Live, Taken, PlainRefs;
    var st0 := State(Print(e), 0, map[], map[]);
    SourceStands(e);
    var t := RewriteBinds(st0, q, e);
    var st := RewriteAll(st0, q);
    TextRefs(st, t);
    FlatLive(t, q);
    BindingsAreTrue(Print(e), q, eval);
    if ReplaceAll(st.text, 0, q, st.(text := "")).Some? { ReplaceBinds(st.text, 0, q, st.(text := "")); }
  }

  lemma TextRefs(st: State, t: Expr)
    requires StandsFor(st, t)
    ensures PlainRefs(st.text, 0) == Refs(t)
  {
    hide Print, WellFormed, PlainRefs;
    PrimaryRefs(t, Outside);
  }
}
