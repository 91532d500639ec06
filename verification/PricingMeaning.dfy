// How the meaning of a tree behaves under trimming, filling and plugging.
module PricingMeaning {
  import opened Text
  import opened PricingScanner
  import opened PricingTree
  import opened PricingTrim
  import opened PricingSearch
  import opened PricingPlug

  // ----- trimming -----

  predicate BlankTokens(ts: seq<Token>) { forall t <- ts :: IsBlank(t) }

  predicate SolidTokens(ts: seq<Token>) { ts == [] || (!IsBlank(ts[0]) && !IsBlank(ts[|ts| - 1])) }

  lemma {:induction false} TrimStartIs(a: seq<Token>, t: seq<Token>)
    requires BlankTokens(a) && (t == [] || !IsBlank(t[0]))
    ensures TrimStart(a + t) == t
    decreases |a|
  {
    if a == [] {
      assert a + t == t;
    } else {
      assert (a + t)[0] == a[0] && (a + t)[1..] == a[1..] + t;
      TrimStartIs(a[1..], t);
    }
  }

  lemma {:induction false} TrimEndIs(t: seq<Token>, b: seq<Token>)
    requires BlankTokens(b) && (t == [] || !IsBlank(t[|t| - 1]))
    ensures TrimEnd(t + b) == t
    decreases |b|
  {
    if b == [] {
      assert t + b == t;
    } else {
      var s := t + b;
      assert s[|s| - 1] == b[|b| - 1] && s[..|s| - 1] == t + b[..|b| - 1];
      TrimEndIs(t, b[..|b| - 1]);
    }
  }

  lemma TrimTokensIs(a: seq<Token>, t: seq<Token>, b: seq<Token>)
    requires BlankTokens(a) && SolidTokens(t) && BlankTokens(b)
    ensures TrimEnd(TrimStart(a + t + b)) == t
  {
    hide IsBlank, TrimStart, TrimEnd;
    if t == [] {
      assert a + t + b == (a + b) + t && t + t == t;
      TrimStartIs(a + b, t);
      TrimEndIs(t, t);
    } else {
      assert a + t + b == a + (t + b);
      TrimStartIs(a, t + b);
      TrimEndIs(t, b);
    }
  }

  lemma BlankChars(s: string)
    requires Blank(s)
    ensures BlankTokens(Chars(s))
  {
    hide IsSpace;
    forall t | t in Chars(s) ensures IsBlank(t) {
      var i :| 0 <= i < |s| && t == Char(s[i]);
    }
  }

  lemma {:induction false} LeadMeaning(e: Expr, q: Query, vars: Vars)
    ensures Meaning(e, q, vars) == Join(Some(Chars(Lead(e))), Meaning(TrimLeftTree(e), q, vars))
    ensures Nullish(TrimLeftTree(e), q) == Nullish(e, q)
  {
    hide IsSpace;
    var m := Meaning(TrimLeftTree(e), q, vars);
    if e.Ch? && IsSpace(e.c) {
      LeadMeaning(e.rest, q, vars);
      assert Chars(Lead(e)) == [Char(e.c)] + Chars(Lead(e.rest));
      JoinAssoc(Some([Char(e.c)]), Some(Chars(Lead(e.rest))), m);
    } else {
      assert Chars(Lead(e)) == [];
      JoinUnit(m);
    }
  }

  lemma JoinAssoc(a: Option<seq<Token>>, b: Option<seq<Token>>, c: Option<seq<Token>>)
    ensures Join(Join(a, b), c) == Join(a, Join(b, c))
  {
    if a.Some? && b.Some? && c.Some? {
      assert (a.value + b.value) + c.value == a.value + (b.value + c.value);
    }
  }

  lemma JoinUnit(a: Option<seq<Token>>)
    ensures Join(Some([]), a) == a && Join(a, Some([])) == a
  {
    if a.Some? { assert [] + a.value == a.value && a.value + [] == a.value; }
  }

  // The item that e begins with, as Meaning joins it to the rest.
  function Head(e: Expr, q: Query, vars: Vars): Option<seq<Token>>
    requires e != End
  {
    match e
    case Ch(c, _) => Some([Char(c)])
    case Ref(r, _) => if |q(r)| == 1 then Some([Val(q(r)[0])]) else None
    case Hole(k, _) => if Name(k) in vars then Some([Val(vars[Name(k)])]) else None
    case Group(b, _) => Parens(Meaning(b, q, vars))
    case Coalesce(a, f, _) =>
      Parens(Trimmed(if Nullish(a, q) then Meaning(f, q, vars) else Meaning(a, q, vars)))
  }

  lemma HeadJoins(e: Expr, q: Query, vars: Vars)
    requires e != End
    ensures Meaning(e, q, vars) == Join(Head(e, q, vars), Meaning(e.rest, q, vars))
    ensures Head(e, q, vars).Some? ==>
      var ts := Head(e, q, vars).value; ts != [] && (!e.Ch? ==> !IsBlank(ts[0]) && !IsBlank(ts[|ts| - 1]))
  {
    hide IsSpace;
    NotSpace(')');
    NotSpace('(');
  }

  lemma {:induction false} TrailMeaning(e: Expr, q: Query, vars: Vars)
    ensures Meaning(e, q, vars) == Join(Meaning(TrimRightTree(e), q, vars), Some(Chars(Trail(e))))
    ensures Nullish(TrimRightTree(e), q) == Nullish(e, q)
    decreases e
  {
    hide Meaning, Parens, Trimmed, IsSpace, Join, Name;
    if e == End {
      EndMeaning(q, vars);
      JoinUnit(Some([]));
      assert Chars(Trail(End)) == [];
    } else {
      var t := TrimRightTree(e);
      TrailMeaning(e.rest, q, vars);
      HeadJoins(e, q, vars);
      if t == End {
        EndMeaning(q, vars);
        TrailOfBlank(e, q, vars);
      } else {
        HeadJoins(t, q, vars);
        HeadSame(e, q, vars);
        JoinAssoc(Head(e, q, vars), Meaning(t.rest, q, vars), Some(Chars(Trail(e))));
      }
    }
  }

  lemma EndMeaning(q: Query, vars: Vars)
    ensures Meaning(End, q, vars) == Some([])
  {}

  lemma HeadSame(e: Expr, q: Query, vars: Vars)
    requires TrimRightTree(e) != End
    ensures var t := TrimRightTree(e);
      e != End && t.rest == TrimRightTree(e.rest) && Trail(e) == Trail(e.rest)
      && Head(t, q, vars) == Head(e, q, vars)
  {
    hide Meaning, Parens, Trimmed, IsSpace, Nullish;
  }

  lemma TrailOfBlank(e: Expr, q: Query, vars: Vars)
    requires e != End && TrimRightTree(e) == End
    requires Meaning(e.rest, q, vars) == Join(Some([]), Some(Chars(Trail(e.rest))))
    ensures e.Ch? && Join(Head(e, q, vars), Meaning(e.rest, q, vars)) == Join(Some([]), Some(Chars(Trail(e))))
    ensures TrimRightTree(e.rest) == End
  {
    hide Meaning, IsSpace;
    assert Chars(Trail(e)) == [Char(e.c)] + Chars(Trail(e.rest));
    JoinUnit(Some(Chars(Trail(e.rest))));
    JoinUnit(Some(Chars(Trail(e))));
  }

  lemma {:induction false} LastSolidMeaning(e: Expr, q: Query, vars: Vars)
    ensures var t := TrimRightTree(e);
      var m := Meaning(t, q, vars);
      m.Some? ==> if t == End then m.value == [] else m.value != [] && !IsBlank(m.value[|m.value| - 1])
    decreases e
  {
    hide Meaning, IsSpace, Parens, Trimmed;
    EndMeaning(q, vars);
    var t := TrimRightTree(e);
    if t != End {
      LastSolidMeaning(e.rest, q, vars);
      HeadJoins(t, q, vars);
      HeadSame(e, q, vars);
      if e.Ch? { CharHeld(e); }
    }
  }

  lemma CharHeld(e: Expr)
    requires e.Ch? && TrimRightTree(e) != End
    ensures TrimRightTree(e.rest) == End ==> !IsSpace(e.c)
  {}

  lemma TrimMeaning(e: Expr, q: Query, vars: Vars, place: Context)
    requires WellFormed(e, "", place)
    ensures Meaning(TrimTree(e), q, vars) == Trimmed(Meaning(e, q, vars))
    ensures Nullish(TrimTree(e), q) == Nullish(e, q)
  {
    hide Meaning, IsSpace, WellFormed, TrimStart, TrimEnd, TrimLeftTree, TrimRightTree, Lead, Trail, Nullish;
    var l := TrimLeftTree(e);
    var t := TrimRightTree(l);
    LeadMeaning(e, q, vars);
    TrailMeaning(l, q, vars);
    if Meaning(t, q, vars).Some? {
      var ts := Meaning(t, q, vars).value;
      var a, b := Chars(Lead(e)), Chars(Trail(l));
      LeadText(e); BlankChars(Lead(e));
      TrailText(l); BlankChars(Trail(l));
      LastSolidMeaning(l, q, vars);
      FirstSolidMeaning(e, q, vars, place);
      TrimTokensIs(a, ts, b);
      assert a + (ts + b) == a + ts + b;
    }
  }

  lemma FirstSolidMeaning(e: Expr, q: Query, vars: Vars, place: Context)
    requires WellFormed(e, "", place)
    ensures var m := Meaning(TrimTree(e), q, vars); m.Some? && m.value != [] ==> !IsBlank(m.value[0])
  {
    hide Meaning, IsSpace, WellFormed;
    var l := TrimLeftTree(e);
    var t := TrimTree(e);
    EndMeaning(q, vars);
    LeftKeeps(e, place);
    HeadKept(l);
    if t != End { HeadJoins(t, q, vars); }
  }

  // ----- more bindings -----

  // Every placeholder of e has a value.
  ghost predicate Bound(e: Expr, vars: Vars) {
    forall n: nat :: Holes(e, n) > 0 ==> Name(n) in vars
  }

  ghost predicate Extends(vars: Vars, more: Vars) {
    forall x :: x in vars ==> x in more && more[x] == vars[x]
  }

  lemma BoundParts(e: Expr, vars: Vars)
    requires Bound(e, vars)
    ensures e != End ==> Bound(e.rest, vars)
    ensures e.Hole? ==> Name(e.k) in vars
    ensures e.Group? ==> Bound(e.body, vars)
    ensures e.Coalesce? ==> Bound(e.arg, vars) && Bound(e.fallback, vars)
  {
    hide Name;
    if e != End {
      forall n: nat | Holes(e.rest, n) > 0 ensures Name(n) in vars { assert Holes(e, n) > 0; }
    }
    if e.Hole? { assert Holes(e, e.k) > 0; }
    if e.Group? {
      forall n: nat | Holes(e.body, n) > 0 ensures Name(n) in vars { assert Holes(e, n) > 0; }
    }
    if e.Coalesce? {
      forall n: nat | Holes(e.arg, n) + Holes(e.fallback, n) > 0 ensures Name(n) in vars { assert Holes(e, n) > 0; }
    }
  }

  lemma {:induction false} ExtendMeaning(e: Expr, q: Query, vars: Vars, more: Vars)
    requires Bound(e, vars) && Extends(vars, more)
    ensures Meaning(e, q, vars) == Meaning(e, q, more)
    decreases e
  {
    hide Bound, Trimmed, Parens, Join, Name, Nullish;
    BoundParts(e, vars);
    if e != End { ExtendMeaning(e.rest, q, vars, more); }
    if e.Group? { ExtendMeaning(e.body, q, vars, more); }
    if e.Coalesce? {
      ExtendMeaning(e.arg, q, vars, more);
      ExtendMeaning(e.fallback, q, vars, more);
    }
  }

  // ----- plugging -----

  // The part of a call that its value comes from.
  function Selected(a: Expr, f: Expr, q: Query): Expr { if Nullish(a, q) then f else a }

  // g in parentheses means what coalesce(a, f) means.
  predicate SameAsCall(g: Expr, a: Expr, f: Expr, q: Query, vars: Vars) {
    && Nullish(g, q) == (Nullish(a, q) && Nullish(f, q))
    && Meaning(g, q, vars) == Trimmed(Meaning(Selected(a, f, q), q, vars))
  }

  lemma {:induction false} PlugMeaning(e: Expr, g: Expr, q: Query, vars: Vars)
    requires Calls(e) > 0
    requires var c := InnerCall(e); SameAsCall(g, c.arg, c.fallback, q, vars)
    ensures Nullish(Plug(e, g), q) == Nullish(e, q)
    ensures Meaning(Plug(e, g), q, vars) == Meaning(e, q, vars)
    decreases e
  {
    InnerParts(e);
    hide Trimmed, Parens, Join, Name, InnerCall;
    match e
    case Ch(_, rest) => PlugMeaning(rest, g, q, vars);
    case Ref(_, rest) => PlugMeaning(rest, g, q, vars);
    case Hole(_, rest) => PlugMeaning(rest, g, q, vars);
    case Group(b, rest) =>
      if Calls(b) > 0 { PlugMeaning(b, g, q, vars); } else { PlugMeaning(rest, g, q, vars); }
    case Coalesce(a, f, rest) =>
      if Calls(a) > 0 { PlugMeaning(a, g, q, vars); }
      else if Calls(f) > 0 { PlugMeaning(f, g, q, vars); }
  }

  // ----- filling -----

  // Placeholder n holds the one value of reference r.
  predicate HoldsAt(vars: Vars, n: nat, r: string, q: Query) {
    Name(n) in vars && |q(r)| == 1 && vars[Name(n)] == q(r)[0]
  }

  // The placeholders from k on hold the values of these references.
  predicate Holds(vars: Vars, k: nat, refs: seq<string>, q: Query) {
    forall i :: 0 <= i < |refs| ==> HoldsAt(vars, k + i, refs[i], q)
  }

  lemma HoldsParts(vars: Vars, k: nat, a: seq<string>, b: seq<string>, q: Query)
    requires Holds(vars, k, a + b, q)
    ensures Holds(vars, k, a, q) && Holds(vars, k + |a|, b, q)
  {
    hide HoldsAt;
    var s := a + b;
    forall i | 0 <= i < |a| ensures HoldsAt(vars, k + i, a[i], q) { assert s[i] == a[i]; }
    forall i | 0 <= i < |b| ensures HoldsAt(vars, k + |a| + i, b[i], q) {
      assert s[|a| + i] == b[i] && k + (|a| + i) == k + |a| + i;
    }
  }

  lemma {:induction false} FillMeaning(e: Expr, k: nat, q: Query, vars: Vars)
    requires Calls(e) == 0 && Holds(vars, k, Refs(e), q)
    ensures Meaning(Fill(e, k), q, vars) == Meaning(e, q, vars) && !Nullish(Fill(e, k), q)
    decreases e
  {
    hide Parens, Join, Name, Holds;
    match e
    case End =>
    case Ch(_, rest) => FillMeaning(rest, k, q, vars);
    case Ref(r, rest) =>
      HoldsParts(vars, k, [r], Refs(rest), q);
      HoldsOne(vars, k, r, q);
      FillMeaning(rest, k + 1, q, vars);
    case Hole(_, rest) => FillMeaning(rest, k, q, vars);
    case Group(b, rest) =>
      HoldsParts(vars, k, Refs(b), Refs(rest), q);
      FillMeaning(b, k, q, vars);
      FillMeaning(rest, k + |Refs(b)|, q, vars);
  }

  lemma HoldsOne(vars: Vars, k: nat, r: string, q: Query)
    requires Holds(vars, k, [r], q)
    ensures HoldsAt(vars, k, r, q)
  {
    assert HoldsAt(vars, k + 0, [r][0], q);
  }

  predicate AnyMissing(refs: seq<string>, q: Query) { exists r <- refs :: Missing(q, r) }

  // Without calls, a tree is nullish or meaningless by its references alone.
  lemma {:induction false} FlatNullish(e: Expr, q: Query)
    requires Calls(e) == 0
    ensures Nullish(e, q) <==> AnyMissing(Refs(e), q)
    decreases e
  {
    hide Missing;
    if e != End { FlatNullish(e.rest, q); }
    if e.Group? { FlatNullish(e.body, q); }
  }

  predicate AllSingle(refs: seq<string>, q: Query) { forall r <- refs :: |q(r)| == 1 }

  lemma {:induction false} FlatMeaning(e: Expr, q: Query, vars: Vars)
    requires Calls(e) == 0 && Bound(e, vars)
    ensures Meaning(e, q, vars).Some? <==> AllSingle(Refs(e), q)
    decreases e
  {
    hide Name, Bound;
    BoundParts(e, vars);
    if e != End { FlatMeaning(e.rest, q, vars); }
    if e.Group? { FlatMeaning(e.body, q, vars); }
  }

  // ----- coalesce of one reference -----

  // Its value if it selects one that is not null, and else the fallback, in
  // parentheses; a reference outside every coalesce may select null, but must
  // select something.
  lemma CoalesceOfRef(r: string, f: Expr, q: Query, vars: Vars)
    ensures Meaning(Coalesce(Ref(r, End), f, End), q, vars) ==
      if exists v :: v != Null && q(r) == [v] then Some([Char('('), Val(q(r)[0]), Char(')')])
      else Parens(Trimmed(Meaning(f, q, vars)))
    ensures Meaning(Ref(r, End), q, vars) == if |q(r)| == 1 then Some([Val(q(r)[0])]) else None
  {
    hide Parens, Trimmed;
    var one := Ref(r, End);
    assert Meaning(End, q, vars) == Some([]);
    assert Nullish(one, q) <==> |q(r)| != 1 || q(r)[0] == Null;
    assert |q(r)| == 1 ==> q(r) == [q(r)[0]];
    if |q(r)| == 1 { OneValue(q(r)[0]); }
    JoinUnit(Parens(Trimmed(Meaning(f, q, vars))));
    assert [Val(Null)] + [] == [Val(Null)];
  }

  lemma OneValue(v: Value)
    ensures Parens(Trimmed(Some([Val(v)]))) == Some([Char('('), Val(v), Char(')')])
    ensures Join(Some([Val(v)]), Some([])) == Some([Val(v)])
    ensures Join(Some([Char('('), Val(v), Char(')')]), Some([])) == Some([Char('('), Val(v), Char(')')])
  {
    var t := [Val(v)];
    assert TrimStart(t) == t && TrimEnd(t) == t;
    assert [Char('(')] + t + [Char(')')] == [Char('('), Val(v), Char(')')];
    JoinUnit(Some(t));
    JoinUnit(Some([Char('('), Val(v), Char(')')]));
  }
}
