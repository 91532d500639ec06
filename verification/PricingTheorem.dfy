// The rewriting of a pricing expression preserves its meaning.
module PricingTheorem {
  import opened Text
  import opened PricingScanner
  import opened PricingTree
  import opened PricingLexing
  import opened PricingTrim
  import opened PricingKeys
  import opened PricingSearch
  import opened PricingPlug
  import opened PricingMeaning
  import opened PricingTermination
  import opened PricingRewrite

  // ----- placeholders -----

  lemma NameInjective(a: nat, b: nat)
    requires Name(a) == Name(b)
    ensures a == b
  {
    assert Name(a)[|REF_VAR_PREFIX|..] == Decimal(a) && Name(b)[|REF_VAR_PREFIX|..] == Decimal(b);
    DecimalRoundTrip(a);
    DecimalRoundTrip(b);
  }

  // Every variable is a placeholder numbered from lo up to, but not, hi.
  ghost predicate NamesIn(vars: Vars, lo: nat, hi: nat) {
    forall x :: x in vars ==> exists n: nat :: lo <= n < hi && x == Name(n)
  }

  lemma NamesDisjoint(a: Vars, b: Vars, m: nat, n: nat)
    requires NamesIn(a, 0, m) && NamesIn(b, m, n)
    ensures Extends(a, a + b) && Extends(b, a + b)
    ensures m <= n ==> NamesIn(a + b, 0, n)
  {
    hide Name;
    forall x | x in a && x in b ensures false {
      var i: nat :| i < m && x == Name(i);
      var j: nat :| m <= j < n && x == Name(j);
      NameInjective(i, j);
    }
    forall x | x in a + b ensures m <= n ==> exists k: nat :: k < n && x == Name(k) {
      if x in a { var i: nat :| i < m && x == Name(i); }
      else { var j: nat :| m <= j < n && x == Name(j); }
    }
  }

  // ----- the primary of a call -----

  lemma {:induction false} ResolveNil(refs: seq<string>, q: Query, p: Primary)
    requires !p.anyNil
    ensures ResolveRefs(refs, q, p).anyNil <==> AnyMissing(refs, q)
    ensures ResolveRefs(refs, q, p).next >= p.next
    decreases |refs|
  {
    hide Name;
    if |refs| > 0 && !Missing(q, refs[0]) {
      ResolveNil(refs[1..], q, Bind(p, refs[0], q(refs[0])[0]));
      assert refs == [refs[0]] + refs[1..];
    }
  }

  // The text after the first-occurrence replacements.
  function Substituted(s: string, refs: seq<string>, k: nat): string
    decreases |refs|
  {
    if refs == [] then s else Substituted(ReplaceFirst(s, refs[0], Name(k)), refs[1..], k + 1)
  }

  lemma {:induction false} ResolveBinds(refs: seq<string>, q: Query, p: Primary, lo: nat)
    requires !AnyMissing(refs, q) && lo <= p.next && NamesIn(p.vars, lo, p.next)
    ensures var r := ResolveRefs(refs, q, p);
      && r.next == p.next + |refs| && NamesIn(r.vars, lo, r.next)
      && Extends(p.vars, r.vars) && Holds(r.vars, p.next, refs, q)
      && r.text == Substituted(p.text, refs, p.next)
    decreases |refs|
  {
    hide Name, ReplaceFirst, NamesIn, Extends, Bind, HoldsAt;
    if |refs| > 0 {
      assert refs[0] in refs && forall r <- refs[1..] :: r in refs;
      var v := q(refs[0])[0];
      var p' := Bind(p, refs[0], v);
      BindNames(p, refs[0], v, lo);
      BindHolds(p, refs[0], q);
      ResolveBinds(refs[1..], q, p', lo);
      var r := ResolveRefs(refs, q, p);
      ExtendsOn(p.vars, p'.vars, r.vars, p.next, refs[0], q);
      HoldsMore(r.vars, p.next, refs, q);
    } else {
      ExtendsItself(p.vars);
    }
  }

  lemma BindHolds(p: Primary, ref: string, q: Query)
    requires !Missing(q, ref)
    ensures var p' := Bind(p, ref, q(ref)[0]);
      && HoldsAt(p'.vars, p.next, ref, q) && p'.next == p.next + 1
      && p'.text == ReplaceFirst(p.text, ref, Name(p.next))
  {
    hide Name, ReplaceFirst;
  }

  lemma ExtendsItself(vars: Vars)
    ensures Extends(vars, vars)
  {}

  lemma ExtendsOn(a: Vars, b: Vars, c: Vars, n: nat, r: string, q: Query)
    requires Extends(a, b) && Extends(b, c) && HoldsAt(b, n, r, q)
    ensures Extends(a, c) && HoldsAt(c, n, r, q)
  {
    hide Name;
  }

  lemma HoldsMore(vars: Vars, k: nat, refs: seq<string>, q: Query)
    requires |refs| > 0 && HoldsAt(vars, k, refs[0], q) && Holds(vars, k + 1, refs[1..], q)
    ensures Holds(vars, k, refs, q)
  {
    hide HoldsAt;
    forall i | 0 <= i < |refs| ensures HoldsAt(vars, k + i, refs[i], q) {
      if i > 0 { assert refs[i] == refs[1..][i - 1] && HoldsAt(vars, k + 1 + (i - 1), refs[1..][i - 1], q); }
    }
  }

  lemma BindNames(p: Primary, ref: string, v: Value, lo: nat)
    requires NamesIn(p.vars, lo, p.next) && lo <= p.next
    ensures NamesIn(Bind(p, ref, v).vars, lo, p.next + 1) && Extends(p.vars, Bind(p, ref, v).vars)
  {
    hide Name, ReplaceFirst;
    if Name(p.next) in p.vars {
      var n: nat :| n < p.next && Name(p.next) == Name(n);
      NameInjective(p.next, n);
    }
    forall x | x in Bind(p, ref, v).vars ensures exists n: nat :: lo <= n < p.next + 1 && x == Name(n) {
      if x in p.vars { var n: nat :| lo <= n < p.next && x == Name(n); }
    }
  }

  // ----- each replacement hits its own reference -----

  lemma {:induction false} FirstAfterPlain(pre: string, pattern: string, post: string, y: string)
    requires pattern != "" && pattern[0] == '$' && '$' !in pre
    ensures ReplaceFirst(pre + pattern + post, pattern, y) == pre + y + post
    decreases |pre|
  {
    var s := pre + pattern + post;
    if pre == "" {
      assert s == pattern + post;
      assert s[|pattern|..] == post && s[..|pattern|] == pattern;
    } else {
      assert s[0] == pre[0] && pre[0] in pre;
      assert s[1..] == pre[1..] + pattern + post;
      FirstAfterPlain(pre[1..], pattern, post, y);
    }
  }

  // The replacements, made one after the other from the left, turn the printed
  // tree into the printed filled tree.
  lemma {:induction false} SubstitutedOn(pre: string, e: Expr, post: string, more: seq<string>, k: nat,
                                         word: string, place: Context)
    requires WellFormed(e, word, place) && Calls(e) == 0 && '$' !in pre
    ensures Substituted(pre + Print(e) + post, Refs(e) + more, k)
         == Substituted(pre + Print(Fill(e, k)) + post, more, k + |Refs(e)|)
    ensures '$' !in Print(Fill(e, k))
    decreases e
  {
    hide Name, ReplaceFirst, IsPlaceholder, RefEndsBefore, IsRefText, Substituted, Print, Fill;
    match e
    case End => SubstitutedAtEnd(k);
      assert Refs(e) + more == more;
    case Ch(c, rest) =>
      SubstitutedOn(pre + [c], rest, post, more, k, if IsIdentChar(c) then word + [c] else "", place);
      SubstitutedAtCopy(pre, [c], e, post, more, k);
    case Ref(r, rest) =>
      RefFirst(r);
      NameChars(k);
      SubstitutedOn(pre + Name(k), rest, post, more, k + 1, "", place);
      SubstitutedAtRef(pre, r, rest, post, more, k);
    case Hole(m, rest) =>
      NameChars(m);
      SubstitutedOn(pre + Name(m), rest, post, more, k, "", place);
      SubstitutedAtCopy(pre, Name(m), e, post, more, k);
    case Group(b, rest) =>
      SubstitutedInGroup(pre, b, rest, post, more, k, place);
  }

  lemma SubstitutedAtEnd(k: nat)
    ensures Fill(End, k) == End && Print(End) == ""
  {}

  lemma SubstitutedAtCopy(pre: string, t: string, e: Expr, post: string, more: seq<string>, k: nat)
    requires (e.Ch? && t == [e.c]) || (e.Hole? && t == Name(e.k))
    requires Substituted((pre + t) + Print(e.rest) + post, Refs(e.rest) + more, k)
         == Substituted((pre + t) + Print(Fill(e.rest, k)) + post, more, k + |Refs(e.rest)|)
    ensures Substituted(pre + Print(e) + post, Refs(e) + more, k)
         == Substituted(pre + Print(Fill(e, k)) + post, more, k + |Refs(e)|)
    ensures '$' !in t && '$' !in Print(Fill(e.rest, k)) ==> '$' !in Print(Fill(e, k))
  {
    CopyPrints(t, e, k);
    hide Name, Substituted, Print, Fill, Refs;
    Around(pre, t, Print(e.rest), post);
    Around(pre, t, Print(Fill(e.rest, k)), post);
  }

  lemma Around(pre: string, t: string, u: string, post: string)
    ensures pre + (t + u) + post == (pre + t) + u + post
  {}

  lemma SubstitutedAtRef(pre: string, r: string, rest: Expr, post: string, more: seq<string>, k: nat)
    requires r != "" && r[0] == '$' && '$' !in pre
    requires Substituted((pre + Name(k)) + Print(rest) + post, Refs(rest) + more, k + 1)
         == Substituted((pre + Name(k)) + Print(Fill(rest, k + 1)) + post, more, k + 1 + |Refs(rest)|)
    ensures var e := Ref(r, rest);
      Substituted(pre + Print(e) + post, Refs(e) + more, k)
         == Substituted(pre + Print(Fill(e, k)) + post, more, k + |Refs(e)|)
    ensures '$' !in Name(k) && '$' !in Print(Fill(rest, k + 1)) ==> '$' !in Print(Fill(Ref(r, rest), k))
  {
    RefPrints(r, rest, k);
    hide Name, ReplaceFirst, Substituted, Print, Fill, Refs;
    var tail := Print(rest) + post;
    FirstAfterPlain(pre, r, tail, Name(k));
    Tailed(pre, r, Print(rest), post);
    Tailed(pre, Name(k), Print(rest), post);
    SubstituteOne(pre + r + tail, r, Refs(rest) + more, k);
    assert Refs(Ref(r, rest)) + more == [r] + (Refs(rest) + more);
    MoveLeft(pre, Name(k), rest, post, k + 1);
  }

  lemma RefPrints(r: string, rest: Expr, k: nat)
    ensures Print(Ref(r, rest)) == r + Print(rest) && Refs(Ref(r, rest)) == [r] + Refs(rest)
    ensures Print(Fill(Ref(r, rest), k)) == Name(k) + Print(Fill(rest, k + 1))
  {
    hide Name;
  }

  lemma Tailed(pre: string, t: string, u: string, post: string)
    ensures pre + (t + u) + post == pre + t + (u + post) == (pre + t) + u + post
  {}

  lemma SubstitutedInGroup(pre: string, b: Expr, rest: Expr, post: string, more: seq<string>, k: nat, place: Context)
    requires WellFormed(b, "", Nested(place)) && WellFormed(rest, "", place) && Calls(b) == 0 && Calls(rest) == 0 && '$' !in pre
    ensures var e := Group(b, rest);
      && Substituted(pre + Print(e) + post, Refs(e) + more, k)
         == Substituted(pre + Print(Fill(e, k)) + post, more, k + |Refs(e)|)
      && '$' !in Print(Fill(e, k))
    decreases Group(b, rest), 0
  {
    hide Name, ReplaceFirst, IsPlaceholder, WellFormed, Substituted, Print, Fill, Refs, Calls;
    var e := Group(b, rest);
    var m := k + |Refs(b)|;
    var fb, fr := Print(Fill(b, k)), Print(Fill(rest, m));
    var tail := ")" + Print(rest) + post;
    SubstitutedOn(pre + "(", b, tail, Refs(rest) + more, k, "", Nested(place));
    var pre2 := pre + "(" + fb + ")";
    SubstitutedOn(pre2, rest, post, more, m, "", place);
    GroupPrints(b, rest, k);
    AroundGroup(pre, Print(b), Print(rest), post);
    AroundGroup(pre, fb, Print(rest), post);
    AroundGroup(pre, fb, fr, post);
    assert Refs(e) + more == Refs(b) + (Refs(rest) + more);
  }

  lemma GroupPrints(b: Expr, rest: Expr, k: nat)
    ensures var e := Group(b, rest);
      && Print(e) == "(" + Print(b) + ")" + Print(rest) && Refs(e) == Refs(b) + Refs(rest)
      && Print(Fill(e, k)) == "(" + Print(Fill(b, k)) + ")" + Print(Fill(rest, k + |Refs(b)|))
  {}

  lemma AroundGroup(pre: string, b: string, r: string, post: string)
    ensures pre + ("(" + b + ")" + r) + post == (pre + "(") + b + (")" + r + post)
    ensures pre + ("(" + b + ")" + r) + post == (pre + "(" + b + ")") + r + post
  {}

  lemma RefFirst(r: string)
    requires IsRefText(r)
    ensures r != "" && r[0] == '$'
  {}

  lemma SubstituteOne(s: string, r: string, refs: seq<string>, k: nat)
    ensures Substituted(s, [r] + refs, k) == Substituted(ReplaceFirst(s, r, Name(k)), refs, k + 1)
  {
    assert ([r] + refs)[1..] == refs;
  }

  lemma MoveLeft(pre: string, t: string, rest: Expr, post: string, k: nat)
    ensures pre + (t + Print(rest)) + post == (pre + t) + Print(rest) + post
    ensures pre + (t + Print(Fill(rest, k))) + post == (pre + t) + Print(Fill(rest, k)) + post
  {}

  lemma SubstitutedWhole(e: Expr, k: nat, place: Context)
    requires WellFormed(e, "", place) && Calls(e) == 0
    ensures Substituted(Print(e), Refs(e), k) == Print(Fill(e, k))
  {
    hide Print, Substituted, ReplaceFirst, WellFormed;
    SubstitutedOn("", e, "", [], k, "", place);
    assert "" + Print(e) + "" == Print(e) && "" + Print(Fill(e, k)) + "" == Print(Fill(e, k));
    assert Refs(e) + [] == Refs(e);
    NothingLeft(Print(Fill(e, k)), k + |Refs(e)|);
  }

  lemma NothingLeft(s: string, k: nat)
    ensures Substituted(s, [], k) == s
  {}

  // ----- one pass, on trees -----

  // The state stands for the tree: it is its text, every placeholder is bound,
  // and each occurs at most once.
  ghost predicate StandsFor(st: State, e: Expr) {
    && WellFormed(e, "", Outside) && Readable(e, Outside, "", true) && st.text == Print(e)
    && NamesIn(st.vars, 0, st.next) && Bound(e, st.vars)
    && forall n: nat :: Holes(e, n) <= if n < st.next then 1 else 0
  }

  // The tree that takes the call's place, and the state's new variables.
  function Picked(c: Call, q: Query, next: nat): Expr {
    var a := TrimTree(c.arg);
    if Refs(a) == [] then a
    else if AnyMissing(Refs(a), q) then TrimTree(c.fallback)
    else Fill(a, next)
  }

  lemma PrimaryRefs(a: Expr, place: Context)
    requires WellFormed(a, "", place)
    ensures PlainRefs(Print(a), 0) == Refs(a)
  {
    hide Print, WellFormed;
    StandsAlone(a);
    PlainRefsOn(Print(a), 0, a, "", place);
  }

  // What the pass does to the primary, in terms of its tree.
  lemma PrimaryOnTree(st: State, q: Query, m: Match, a: Expr)
    requires WellFormed(a, "", Argument) && Calls(a) == 0 && m.arg == Print(a)
    ensures var p := ResolvePrimary(st, q, m);
      && PlainRefs(m.arg, 0) == Refs(a) && p.next >= st.next
      && p.anyNil == AnyMissing(Refs(a), q)
      && (!p.anyNil ==>
            && p.next == st.next + |Refs(a)| && NamesIn(p.vars, st.next, p.next)
            && Holds(p.vars, st.next, Refs(a), q) && p.text == Print(Fill(a, st.next)))
  {
    hide Print, WellFormed, ResolveRefs, Substituted, Fill, Refs, PlainRefs, Calls;
    PrimaryRefs(a, Argument);
    var p0 := Primary(false, m.arg, st.next, map[], map[]);
    ResolveNil(Refs(a), q, p0);
    if !AnyMissing(Refs(a), q) {
      ResolveBinds(Refs(a), q, p0, st.next);
      SubstitutedWhole(a, st.next, Argument);
    }
  }

  // The facts about an innermost call that a pass rests on.
  lemma CallFacts(e: Expr)
    requires WellFormed(e, "", Outside) && Readable(e, Outside, "", true) && Calls(e) > 0
    ensures var c := InnerCall(e);
      var a, f := TrimTree(c.arg), TrimTree(c.fallback);
      && WellFormed(a, "", Argument) && WellFormed(f, "", Inside)
      && Calls(a) == Calls(c.arg) == 0 && Calls(f) == Calls(c.fallback) == 0
      && FindInnermost(Print(e)) == Some(Match(Print(a), Print(f), c.at, c.at + Width(c.arg, c.fallback)))
  {
    hide Print, WellFormed, FindInnermost, TrimTree, Trim, Calls, CallStandsAt, After, InnerCall, CallEnd, Refs, Holes,
      Readable;
    var c := InnerCall(e);
    FindInnermostOnTree(e, Outside);
    TrimText(c.arg, Argument);
    TrimText(c.fallback, Inside);
    TrimKeeps(c.arg, Argument);
    TrimKeeps(c.fallback, Inside);
    AfterAll(c);
  }

  lemma AfterAll(c: Call)
    ensures CallEnd(0 + c.at, c.arg, c.fallback) == c.at + Width(c.arg, c.fallback)
  {}

  lemma PickedKeeps(c: Call, q: Query, k: nat)
    requires CallWellFormed(c) && Calls(c.arg) == 0 && Calls(c.fallback) == 0
    ensures TakesPlace(Picked(c, q, k), c.fallback)
  {
    hide WellFormed, TrimTree, Fill, AnyMissing, Calls, Readable, IsClear;
    TrimKeeps(c.arg, Argument);
    TrimKeeps(c.fallback, Inside);
    Wider(TrimTree(c.arg), "", Argument, Inside);
    FillKeeps(TrimTree(c.arg), k, "", Inside);
    var g := Picked(c, q, k);
    if Refs(g) == [] {
      ClearReadable(g, Inside, "", true);
      ClearReadable(g, Inside, "", false);
    } else {
      if Readable(c.fallback, Inside, "", true) { TrimReadable(c.fallback, Inside, true); }
      if Readable(c.fallback, Inside, "", false) { TrimReadable(c.fallback, Inside, false); }
    }
  }

  // Placeholders of the new tree: those of the old one, and the fresh ones.
  lemma PickedHoles(e: Expr, q: Query, k: nat, n: nat)
    requires WellFormed(e, "", Outside) && Calls(e) > 0
    ensures var c := InnerCall(e);
      var t := Plug(e, Picked(c, q, k));
      var added := if AnyMissing(Refs(TrimTree(c.arg)), q) then 0 else |Refs(TrimTree(c.arg))|;
      Holes(t, n) <= Holes(e, n) + if k <= n < k + added then 1 else 0
  {
    hide WellFormed, Plug, Fill, AnyMissing, TrimTree, Refs, Holes;
    var c := InnerCall(e);
    InnerIsInner(e, "", Outside);
    TrimKeeps(c.arg, Argument);
    TrimKeeps(c.fallback, Inside);
    PlugHoles(e, Picked(c, q, k), n);
    FillHoles(TrimTree(c.arg), k, n);
  }

  lemma PickedMeaning(e: Expr, q: Query, k: nat, vars: Vars, more: Vars)
    requires WellFormed(e, "", Outside) && Calls(e) > 0 && Bound(e, vars) && Extends(vars, more)
    requires var a := TrimTree(InnerCall(e).arg);
      !AnyMissing(Refs(a), q) ==> Holds(more, k, Refs(a), q)
    ensures Meaning(Plug(e, Picked(InnerCall(e), q, k)), q, more) == Meaning(e, q, vars)
  {
    hide WellFormed, Plug, Fill, AnyMissing, TrimTree, Refs, Holes, Meaning, Nullish, Holds, Trimmed, Bound, Extends,
      InnerCall, Calls;
    var c := InnerCall(e);
    var a := TrimTree(c.arg);
    InnerIsInner(e, "", Outside);
    TrimKeeps(c.arg, Argument);
    TrimKeeps(c.fallback, Inside);
    TrimMeaning(c.arg, q, more, Argument);
    TrimMeaning(c.fallback, q, more, Inside);
    FlatNullish(a, q);
    if !AnyMissing(Refs(a), q) { FillMeaning(a, k, q, more); }
    NoneMissing(q);
    assert SameAsCall(Picked(c, q, k), c.arg, c.fallback, q, more);
    PlugMeaning(e, Picked(c, q, k), q, more);
    ExtendMeaning(e, q, vars, more);
  }

  lemma NoneMissing(q: Query)
    ensures !AnyMissing([], q)
  {}

  lemma PassOnTree(st: State, q: Query, e: Expr)
    requires StandsFor(st, e) && Calls(e) > 0
    ensures FindInnermost(st.text).Some?
    ensures var st' := Pass(st, q, FindInnermost(st.text).value);
      var t := Plug(e, Picked(InnerCall(e), q, st.next));
      && StandsFor(st', t) && Calls(t) == Calls(e) - 1
      && Meaning(t, q, st'.vars) == Meaning(e, q, st.vars)
  {
    hide WellFormed, Plug, Fill, AnyMissing, TrimTree, Refs, Holes, Meaning, Nullish, Holds, Extends, FindInnermost,
      InnerCall, Calls, Print, ResolvePrimary, PlainRefs, Picked, Spliced, NamesIn, Bound, Pass, CallWellFormed,
      Readable;
    var c := InnerCall(e);
    var g := Picked(c, q, st.next);
    CallFacts(e);
    InnerIsInner(e, "", Outside);
    PickedKeeps(c, q, st.next);
    PlugKeeps(e, g, "", Outside);
    PlugReadable(e, g, "", Outside, "", true);
    PassState(st, q, e);
    var st' := Pass(st, q, FindInnermost(st.text).value);
    PickedMeaning(e, q, st.next, st.vars, st'.vars);
    PassBound(st, q, e, st');
  }

  // What a pass makes of the state.
  lemma PassState(st: State, q: Query, e: Expr)
    requires StandsFor(st, e) && Calls(e) > 0
    ensures FindInnermost(st.text).Some?
    ensures var c := InnerCall(e);
      var a := TrimTree(c.arg);
      var st' := Pass(st, q, FindInnermost(st.text).value);
      && st'.text == Print(Plug(e, Picked(c, q, st.next)))
      && NamesIn(st'.vars, 0, st'.next) && Extends(st.vars, st'.vars)
      && st'.next >= st.next + (if AnyMissing(Refs(a), q) then 0 else |Refs(a)|)
      && (!AnyMissing(Refs(a), q) ==> Holds(st'.vars, st.next, Refs(a), q))
  {
    hide WellFormed, Plug, Fill, AnyMissing, TrimTree, Holes, Holds, FindInnermost, InnerCall, Calls, Print,
      ResolvePrimary, PlainRefs, Bound, NamesIn, Name;
    var c := InnerCall(e);
    var a := TrimTree(c.arg);
    CallFacts(e);
    var m := FindInnermost(st.text).value;
    PrimaryOnTree(st, q, m, a);
    PlugText(e, Picked(c, q, st.next));
    NoneMissing(q);
    var p := ResolvePrimary(st, q, m);
    NamesGrow(st.vars, st.next, p.next);
    if Refs(a) == [] {
      HoldsNone(st.vars, st.next, q);
    } else if !p.anyNil {
      NamesDisjoint(st.vars, p.vars, st.next, p.next);
      HoldsMonotone(p.vars, st.vars + p.vars, st.next, Refs(a), q);
    }
  }

  lemma NamesGrow(vars: Vars, k: nat, n: nat)
    requires NamesIn(vars, 0, k) && k <= n
    ensures NamesIn(vars, 0, n)
  {
    hide Name;
    forall x | x in vars ensures exists m: nat :: m < n && x == Name(m) { var m: nat :| m < k && x == Name(m); }
  }

  lemma HoldsNone(vars: Vars, k: nat, q: Query)
    ensures Holds(vars, k, [], q)
  {}

  lemma HoldsMonotone(vars: Vars, more: Vars, k: nat, refs: seq<string>, q: Query)
    requires Holds(vars, k, refs, q) && Extends(vars, more)
    ensures Holds(more, k, refs, q)
  {
    hide Name;
    forall i | 0 <= i < |refs| ensures HoldsAt(more, k + i, refs[i], q) { assert HoldsAt(vars, k + i, refs[i], q); }
  }

  lemma PassBound(st: State, q: Query, e: Expr, st': State)
    requires StandsFor(st, e) && Calls(e) > 0 && Extends(st.vars, st'.vars)
    requires var a := TrimTree(InnerCall(e).arg);
      && st'.next >= st.next + (if AnyMissing(Refs(a), q) then 0 else |Refs(a)|)
      && (!AnyMissing(Refs(a), q) ==> Holds(st'.vars, st.next, Refs(a), q))
    ensures var t := Plug(e, Picked(InnerCall(e), q, st.next));
      && Bound(t, st'.vars)
      && forall n: nat :: Holes(t, n) <= if n < st'.next then 1 else 0
  {
    hide WellFormed, Plug, AnyMissing, TrimTree, Refs, Holes, InnerCall, Calls, Print, Picked, NamesIn, Name;
    var a := TrimTree(InnerCall(e).arg);
    var t := Plug(e, Picked(InnerCall(e), q, st.next));
    forall n: nat
      ensures Holes(t, n) <= if n < st'.next then 1 else 0
      ensures Holes(t, n) > 0 ==> Name(n) in st'.vars
    {
      PickedHoles(e, q, st.next, n);
      assert Holes(e, n) <= if n < st.next then 1 else 0;
      if Holes(t, n) > 0 && n >= st.next {
        assert HoldsAt(st'.vars, st.next + (n - st.next), Refs(a)[n - st.next], q);
      }
    }
  }

  // ----- all passes -----

  lemma {:induction false} RewriteOnTree(st: State, q: Query, e: Expr) returns (t: Expr)
    requires StandsFor(st, e)
    ensures StandsFor(RewriteAll(st, q), t) && Calls(t) == 0
    ensures Meaning(t, q, RewriteAll(st, q).vars) == Meaning(e, q, st.vars)
    decreases Calls(e)
  {
    hide StandsFor, Plug, FindInnermost, InnerCall, Print, Picked, Pass, Meaning, Count;
    if Calls(e) == 0 {
      NothingFound(st, e);
      t := e;
    } else {
      PassOnTree(st, q, e);
      t := RewriteOnTree(Pass(st, q, FindInnermost(st.text).value), q, Plug(e, Picked(InnerCall(e), q, st.next)));
    }
  }

  lemma NothingFound(st: State, e: Expr)
    requires StandsFor(st, e) && Calls(e) == 0
    ensures FindInnermost(st.text).None?
  {
    hide FindInnermost, Print, WellFormed, Readable;
    FindInnermostOnTree(e, Outside);
  }

  // ----- the last replacement -----

  lemma {:induction false} CopyText(s: string, i: nat, j: nat, q: Query, out: State)
    requires i <= j <= |s| && forall k :: i <= k < j ==> s[k] != '$'
    ensures ReplaceAll(s, i, q, out) == ReplaceAll(s, j, q, out.(text := out.text + s[i..j]))
    decreases j - i
  {
    hide ReplaceAll;
    if i == j {
      assert out.text + s[i..j] == out.text;
    } else {
      var next := out.(text := out.text + [s[i]]);
      CopyOneStep(s, i, q, out);
      CopyText(s, i + 1, j, q, next);
      assert next.text + s[i + 1..j] == out.text + s[i..j];
    }
  }

  lemma CopyOneStep(s: string, i: nat, q: Query, out: State)
    requires i < |s| && s[i] != '$'
    ensures ReplaceAll(s, i, q, out) == ReplaceAll(s, i + 1, q, out.(text := out.text + [s[i]]))
  {}

  lemma CopyChars(s: string, i: nat, t: string, q: Query, out: State)
    requires At(s, i, t) && '$' !in t
    ensures ReplaceAll(s, i, q, out) == ReplaceAll(s, i + |t|, q, out.(text := out.text + t))
  {
    forall k | i <= k < i + |t| ensures s[k] != '$' { AtIndex(s, i, t, k - i); }
    CopyText(s, i, i + |t|, q, out);
  }

  lemma CopyOne(s: string, i: nat, c: char, q: Query, out: State)
    requires Is(s, i, c) && c != '$'
    ensures ReplaceAll(s, i, q, out) == ReplaceAll(s, i + 1, q, out.(text := out.text + [c]))
  {}

  lemma PlaceRef(s: string, i: nat, r: string, q: Query, out: State)
    requires At(s, i, r) && IsRefText(r) && RefStops(s, i + |r|, r)
    ensures ReplaceAll(s, i, q, out) ==
            if |q(r)| != 1 then None else ReplaceAll(s, i + |r|, q, Place(out, r, q(r)[0]))
  {
    hide Name, RefEnd, At;
    RefEndAt(s, i, r);
    AtIndex(s, i, r, 0);
  }

  // done is out after the tree e has been copied with its references placed.
  ghost predicate Placed(out: State, e: Expr, q: Query, done: State) {
    && done.text == out.text + Print(Fill(e, out.next)) && done.next == out.next + |Refs(e)|
    && NamesIn(done.vars, 0, done.next) && Extends(out.vars, done.vars)
    && Holds(done.vars, out.next, Refs(e), q)
  }

  ghost predicate Replaces(s: string, i: nat, j: nat, e: Expr, q: Query, out: State, done: State)
    requires i <= |s| && j <= |s|
  {
    if AllSingle(Refs(e), q)
    then ReplaceAll(s, i, q, out) == ReplaceAll(s, j, q, done) && Placed(out, e, q, done)
    else ReplaceAll(s, i, q, out) == None
  }

  lemma {:induction false} ReplaceAllOn(s: string, i: nat, e: Expr, word: string, place: Context,
                                        q: Query, out: State) returns (done: State)
    requires Stands(s, i, e) && WellFormed(e, word, place) && Calls(e) == 0 && NamesIn(out.vars, 0, out.next)
    ensures i <= |s| && After(e, i) <= |s| && Replaces(s, i, After(e, i), e, q, out, done)
    decreases e
  {
    hide At, Print, After, Stands, Name, ReplaceAll, IsPlaceholder, RefEnd, RefStops, RefEndsBefore, NamesIn,
      Extends, Holds, Placed, IsIdentChar, AllSingle;
    Bounded(s, i, e);
    done := out;
    match e
    case End =>
      EndStands(s, i);
      PlacedEnd(out, q);
      AllSingleParts([], [], q);
    case Ch(c, rest) =>
      ChStands(s, i, c, rest);
      CopyOne(s, i, c, q, out);
      var out' := out.(text := out.text + [c]);
      done := ReplaceAllOn(s, i + 1, rest, if IsIdentChar(c) then word + [c] else "", place, q, out');
      if AllSingle(Refs(e), q) { PlacedCopy([c], e, out, q, done); }
      assert Replaces(s, i, After(e, i), e, q, out, done);
    case Ref(r, rest) =>
      RefStands(s, i, r, rest);
      RefStopsBefore(s, i + |r|, r, rest);
      PlaceRef(s, i, r, q, out);
      AllSingleParts([r], Refs(rest), q);
      if |q(r)| == 1 {
        var out' := Place(out, r, q(r)[0]);
        PlaceNames(out, r, q(r)[0]);
        done := ReplaceAllOn(s, i + |r|, rest, "", place, q, out');
        if AllSingle(Refs(e), q) { PlacedRef(r, rest, out, q, done); }
      }
      assert Replaces(s, i, After(e, i), e, q, out, done);
    case Hole(k, rest) =>
      HoleStands(s, i, k, rest);
      NameChars(k);
      CopyChars(s, i, Name(k), q, out);
      var out' := out.(text := out.text + Name(k));
      done := ReplaceAllOn(s, i + |Name(k)|, rest, "", place, q, out');
      if AllSingle(Refs(e), q) { PlacedCopy(Name(k), e, out, q, done); }
      assert Replaces(s, i, After(e, i), e, q, out, done);
    case Group(b, rest) =>
      GroupStands(s, i, b, rest);
      CopyOne(s, i, '(', q, out);
      var out1 := out.(text := out.text + "(");
      var mid := ReplaceAllOn(s, i + 1, b, "", Nested(place), q, out1);
      AllSingleParts(Refs(b), Refs(rest), q);
      if AllSingle(Refs(b), q) {
        PlacedNames(out1, b, q, mid);
        CopyOne(s, After(b, i + 1), ')', q, mid);
        var out2 := mid.(text := mid.text + ")");
        done := ReplaceAllOn(s, After(b, i + 1) + 1, rest, "", place, q, out2);
        if AllSingle(Refs(e), q) { PlacedGroup(b, rest, out, mid, q, done); }
      }
      assert Replaces(s, i, After(e, i), e, q, out, done);
  }

  lemma AllSingleParts(a: seq<string>, b: seq<string>, q: Query)
    ensures AllSingle(a + b, q) <==> AllSingle(a, q) && AllSingle(b, q)
    ensures AllSingle([], q) && forall r :: AllSingle([r], q) <==> |q(r)| == 1
  {
    forall r ensures AllSingle([r], q) <==> |q(r)| == 1 { assert r in [r]; }
  }

  lemma PlacedEnd(out: State, q: Query)
    requires NamesIn(out.vars, 0, out.next)
    ensures Placed(out, End, q, out)
  {
    hide Name;
    assert out.text + "" == out.text;
  }

  lemma PlacedNames(out: State, e: Expr, q: Query, done: State)
    requires Placed(out, e, q, done)
    ensures NamesIn(done.vars, 0, done.next)
  {}

  lemma PlacedCopy(t: string, e: Expr, out: State, q: Query, done: State)
    requires (e.Ch? && t == [e.c]) || (e.Hole? && t == Name(e.k))
    requires Placed(out.(text := out.text + t), e.rest, q, done)
    ensures Placed(out, e, q, done)
  {
    CopyPrints(t, e, out.next);
    hide Name, NamesIn, Extends, Holds, Print, Fill, Refs;
    Associates(out.text, t, Print(Fill(e.rest, out.next)));
  }

  lemma Associates(a: string, b: string, c: string)
    ensures a + b + c == a + (b + c)
  {}

  lemma CopyPrints(t: string, e: Expr, k: nat)
    requires (e.Ch? && t == [e.c]) || (e.Hole? && t == Name(e.k))
    ensures Print(Fill(e, k)) == t + Print(Fill(e.rest, k)) && Refs(e) == Refs(e.rest)
  {
    hide Name;
  }

  lemma PlaceNames(out: State, r: string, v: Value)
    requires NamesIn(out.vars, 0, out.next)
    ensures NamesIn(Place(out, r, v).vars, 0, out.next + 1) && Extends(out.vars, Place(out, r, v).vars)
  {
    hide Name;
    BindNames(Primary(false, "", out.next, out.vars, map[]), r, v, 0);
  }

  lemma PlacedRef(r: string, rest: Expr, out: State, q: Query, done: State)
    requires |q(r)| == 1 && NamesIn(out.vars, 0, out.next) && Placed(Place(out, r, q(r)[0]), rest, q, done)
    ensures Placed(out, Ref(r, rest), q, done)
  {
    hide Name, NamesIn;
    PlaceNames(out, r, q(r)[0]);
    var f := Print(Fill(rest, out.next + 1));
    assert out.text + Name(out.next) + f == out.text + (Name(out.next) + f);
    var refs := [r] + Refs(rest);
    assert refs[1..] == Refs(rest);
    HoldsMore(done.vars, out.next, refs, q);
  }

  lemma PlacedGroup(b: Expr, rest: Expr, out: State, mid: State, q: Query, done: State)
    requires Placed(out.(text := out.text + "("), b, q, mid)
    requires Placed(mid.(text := mid.text + ")"), rest, q, done)
    ensures Placed(out, Group(b, rest), q, done)
  {
    hide Name, NamesIn, HoldsAt;
    var fb, fr := Print(Fill(b, out.next)), Print(Fill(rest, mid.next));
    assert out.text + "(" + fb + ")" + fr == out.text + ("(" + fb + ")" + fr);
    HoldsMonotone(mid.vars, done.vars, out.next, Refs(b), q);
    HoldsBoth(done.vars, out.next, Refs(b), Refs(rest), q);
  }

  lemma HoldsBoth(vars: Vars, k: nat, a: seq<string>, b: seq<string>, q: Query)
    requires Holds(vars, k, a, q) && Holds(vars, k + |a|, b, q)
    ensures Holds(vars, k, a + b, q)
  {
    hide HoldsAt;
    forall i | 0 <= i < |a + b| ensures HoldsAt(vars, k + i, (a + b)[i], q) {
      if i < |a| { assert HoldsAt(vars, k + i, a[i], q); }
      else { assert HoldsAt(vars, k + |a| + (i - |a|), b[i - |a|], q); }
    }
  }

  // ----- what the evaluator reads -----

  // word stands just before i, and is all there is of its identifier so far.
  ghost predicate Pending(s: string, i: nat, word: string) {
    |word| <= i && At(s, i - |word|, word) && forall c <- word :: IsIdentChar(c)
  }

  lemma {:induction false} IdentRun(s: string, i: nat, j: nat)
    requires i <= j <= |s| && forall k :: i <= k < j ==> IsIdentChar(s[k])
    requires j < |s| ==> !IsIdentChar(s[j])
    ensures IdentEnd(s, i) == j
    decreases j - i
  {
    if i < j { IdentRun(s, i + 1, j); }
  }

  // The identifier spelled by word ends at i.
  lemma ReadWord(s: string, i: nat, word: string, vars: Vars)
    requires Pending(s, i, word) && i <= |s| && (i < |s| ==> !IsIdentChar(s[i]))
    ensures Read(s, i - |word|, vars) ==
            (if word in vars && word != "" then [Val(vars[word])] else Chars(word)) + Read(s, i, vars)
  {
    var j := i - |word|;
    if word == "" {
      assert Chars(word) + Read(s, i, vars) == Read(s, i, vars);
    } else {
      AtChars(s, j, word);
      forall k | j <= k < i ensures IsIdentChar(s[k]) { assert s[k] == word[k - j]; assert word[k - j] in word; }
      IdentRun(s, j, i);
      assert s[j..i] == word;
    }
  }

  lemma ReadChar(s: string, i: nat, c: char, vars: Vars)
    requires Is(s, i, c) && !IsIdentChar(c)
    ensures Read(s, i, vars) == [Char(c)] + Read(s, i + 1, vars)
  {}

  lemma PendingMore(s: string, i: nat, word: string, c: char)
    requires Pending(s, i, word) && Is(s, i, c) && IsIdentChar(c)
    ensures Pending(s, i + 1, word + [c])
  {
    AtConcat(s, i - |word|, word, [c]);
    assert At(s, i, [c]);
  }

  lemma NothingPending(s: string, i: nat)
    requires i <= |s|
    ensures Pending(s, i, "")
  {}

  ghost predicate ReadsAs(s: string, i: nat, word: string, e: Expr, q: Query, vars: Vars)
    requires |word| <= i <= |s| && After(e, i) <= |s|
  {
    var m := Meaning(e, q, vars);
    m.Some? ==> Read(s, i - |word|, vars) == Chars(word) + m.value + Read(s, After(e, i), vars)
  }

  ghost predicate OnlyPlaceholders(vars: Vars) { forall x :: x in vars ==> IsPlaceholder(x) }

  lemma Flush(s: string, i: nat, word: string, vars: Vars)
    requires Pending(s, i, word) && i <= |s| && (i < |s| ==> !IsIdentChar(s[i]))
    requires OnlyPlaceholders(vars) && !IsPlaceholder(word)
    ensures Read(s, i - |word|, vars) == Chars(word) + Read(s, i, vars)
  {
    hide Read, Pending, IsPlaceholder;
    ReadWord(s, i, word, vars);
  }

  lemma Glue(w: seq<Token>, a: seq<Token>, b: seq<Token>, r: seq<Token>)
    ensures w + (a + (b + r)) == w + (a + b) + r
    ensures Chars("") + a + r == a + r
    ensures w + [] + r == w + r
  {
    assert Chars("") == [];
    assert Chars("") + a + r == a + r;
  }

  lemma {:induction false} ReadOn(s: string, i: nat, e: Expr, word: string, place: Context, q: Query, vars: Vars)
    requires Stands(s, i, e) && WellFormed(e, word, place) && Calls(e) == 0 && Refs(e) == []
    requires Pending(s, i, word) && OnlyPlaceholders(vars)
    ensures |word| <= i <= |s| && After(e, i) <= |s| && ReadsAs(s, i, word, e, q, vars)
    decreases e, 1
  {
    hide At, Print, After, Stands, Name, IsPlaceholder, IsRefText, Pending, IsIdentChar, OnlyPlaceholders, ReadsAs;
    Bounded(s, i, e);
    PendingFits(s, i, word);
    match e
    case End =>
      EndStands(s, i);
      CloserPlain(s, i);
      Flush(s, i, word, vars);
      ReadEnd(s, i, word, q, vars);
    case Ch(c, rest) => ReadOnCh(s, i, c, rest, word, place, q, vars);
    case Hole(k, rest) => ReadOnHole(s, i, k, rest, place, q, vars);
    case Group(b, rest) => ReadOnGroup(s, i, b, rest, word, place, q, vars);
  }

  lemma ReadOnCh(s: string, i: nat, c: char, rest: Expr, word: string, place: Context, q: Query, vars: Vars)
    requires Stands(s, i, Ch(c, rest)) && WellFormed(Ch(c, rest), word, place)
    requires Calls(rest) == 0 && Refs(rest) == [] && Pending(s, i, word) && OnlyPlaceholders(vars)
    ensures |word| <= i <= |s| && After(Ch(c, rest), i) <= |s| && ReadsAs(s, i, word, Ch(c, rest), q, vars)
    decreases Ch(c, rest), 0
  {
    hide At, Print, After, Stands, IsPlaceholder, Pending, IsIdentChar, OnlyPlaceholders, ReadsAs, Read;
    Bounded(s, i, Ch(c, rest));
    PendingFits(s, i, word);
    ChStands(s, i, c, rest);
    if IsIdentChar(c) {
      PendingMore(s, i, word, c);
      ReadOn(s, i + 1, rest, word + [c], place, q, vars);
      ReadLetter(s, i, word, c, rest, q, vars);
    } else {
      Flush(s, i, word, vars);
      ReadChar(s, i, c, vars);
      NothingPending(s, i + 1);
      ReadOn(s, i + 1, rest, "", place, q, vars);
      ReadSymbol(s, i, word, c, rest, q, vars);
    }
  }

  lemma ReadOnHole(s: string, i: nat, k: nat, rest: Expr, place: Context, q: Query, vars: Vars)
    requires Stands(s, i, Hole(k, rest)) && HoleEndsBefore(rest) && WellFormed(rest, "", place)
    requires Calls(rest) == 0 && Refs(rest) == [] && OnlyPlaceholders(vars)
    ensures i <= |s| && After(Hole(k, rest), i) <= |s| && ReadsAs(s, i, "", Hole(k, rest), q, vars)
    decreases Hole(k, rest), 0
  {
    hide At, Print, After, Stands, Name, IsPlaceholder, Pending, IsIdentChar, OnlyPlaceholders, ReadsAs, Read, WellFormed;
    Bounded(s, i, Hole(k, rest));
    HoleStands(s, i, k, rest);
    var j := i + |Name(k)|;
    Bounded(s, j, rest);
    HoleStops(s, j, rest, place);
    NamePending(s, i, k);
    ReadWord(s, j, Name(k), vars);
    NothingPending(s, j);
    ReadOn(s, j, rest, "", place, q, vars);
    ReadHole(s, i, k, rest, q, vars);
  }

  lemma ReadOnGroup(s: string, i: nat, b: Expr, rest: Expr, word: string, place: Context, q: Query, vars: Vars)
    requires Stands(s, i, Group(b, rest)) && WellFormed(b, "", Nested(place)) && WellFormed(rest, "", place)
    requires !IsPlaceholder(word) && Pending(s, i, word) && OnlyPlaceholders(vars)
    requires Calls(b) == 0 && Refs(b) == [] && Calls(rest) == 0 && Refs(rest) == []
    ensures |word| <= i <= |s| && After(Group(b, rest), i) <= |s| && ReadsAs(s, i, word, Group(b, rest), q, vars)
    decreases Group(b, rest), 0
  {
    hide At, Print, After, Stands, IsPlaceholder, Pending, IsIdentChar, OnlyPlaceholders, ReadsAs, Read, WellFormed;
    Bounded(s, i, Group(b, rest));
    PendingFits(s, i, word);
    GroupStands(s, i, b, rest);
    var j := After(b, i + 1);
    BracketsPlain();
    Flush(s, i, word, vars);
    ReadChar(s, i, '(', vars);
    NothingPending(s, i + 1);
    ReadOn(s, i + 1, b, "", Nested(place), q, vars);
    ReadChar(s, j, ')', vars);
    NothingPending(s, j + 1);
    ReadOn(s, j + 1, rest, "", place, q, vars);
    ReadGroup(s, i, word, b, rest, q, vars);
  }

  lemma PendingFits(s: string, i: nat, word: string)
    requires Pending(s, i, word)
    ensures |word| <= i
  {}

  lemma CloserPlain(s: string, i: nat)
    requires Closes(s, i)
    ensures i < |s| ==> !IsIdentChar(s[i])
  {}

  lemma BracketsPlain()
    ensures !IsIdentChar('(') && !IsIdentChar(')')
  {}

  lemma HoleStops(s: string, j: nat, rest: Expr, place: Context)
    requires Stands(s, j, rest) && HoleEndsBefore(rest)
    ensures j < |s| ==> !IsIdentChar(s[j])
  {
    hide IsIdentChar;
    BracketsPlain();
    match rest
    case End => EndStands(s, j); CloserPlain(s, j);
    case Ch(c, r) => ChStands(s, j, c, r);
    case Group(b, r) => GroupStands(s, j, b, r);
  }

  lemma NamePending(s: string, i: nat, k: nat)
    requires At(s, i, Name(k))
    ensures Pending(s, i + |Name(k)|, Name(k)) && Name(k) != ""
  {
    hide Name;
    NameChars(k);
  }

  lemma ReadEnd(s: string, i: nat, word: string, q: Query, vars: Vars)
    requires |word| <= i <= |s| && Read(s, i - |word|, vars) == Chars(word) + Read(s, i, vars)
    ensures After(End, i) == i && ReadsAs(s, i, word, End, q, vars)
  {
    hide Read;
    Glue(Chars(word), [], [], Read(s, i, vars));
  }

  lemma ReadLetter(s: string, i: nat, word: string, c: char, rest: Expr, q: Query, vars: Vars)
    requires |word| <= i < |s| && After(rest, i + 1) <= |s| && ReadsAs(s, i + 1, word + [c], rest, q, vars)
    ensures After(Ch(c, rest), i) == After(rest, i + 1) && ReadsAs(s, i, word, Ch(c, rest), q, vars)
  {
    hide Read;
    assert i + 1 - |word + [c]| == i - |word|;
    assert Chars(word + [c]) == Chars(word) + [Char(c)];
    var m := Meaning(rest, q, vars);
    var r := Read(s, After(rest, i + 1), vars);
    if m.Some? { assert Chars(word) + [Char(c)] + m.value + r == Chars(word) + ([Char(c)] + m.value) + r; }
  }

  lemma ReadSymbol(s: string, i: nat, word: string, c: char, rest: Expr, q: Query, vars: Vars)
    requires |word| <= i < |s| && After(rest, i + 1) <= |s| && ReadsAs(s, i + 1, "", rest, q, vars)
    requires Read(s, i - |word|, vars) == Chars(word) + ([Char(c)] + Read(s, i + 1, vars))
    ensures After(Ch(c, rest), i) == After(rest, i + 1) && ReadsAs(s, i, word, Ch(c, rest), q, vars)
  {
    hide Read;
    var m := Meaning(rest, q, vars);
    if m.Some? { Glue(Chars(word), [Char(c)], m.value, Read(s, After(rest, i + 1), vars));
                 Glue(Chars(word), m.value, [], Read(s, After(rest, i + 1), vars)); }
  }

  lemma ReadHole(s: string, i: nat, k: nat, rest: Expr, q: Query, vars: Vars)
    requires var j := i + |Name(k)|;
      && j <= |s| && After(rest, j) <= |s| && ReadsAs(s, j, "", rest, q, vars)
      && Read(s, i, vars) == (if Name(k) in vars then [Val(vars[Name(k)])] else Chars(Name(k))) + Read(s, j, vars)
    ensures After(Hole(k, rest), i) == After(rest, i + |Name(k)|) && ReadsAs(s, i, "", Hole(k, rest), q, vars)
  {
    HoleMeans(k, rest, q, vars);
    HoleAfter(i, k, rest);
    hide Read, Name, Meaning, After;
    var j := i + |Name(k)|;
    var m := Meaning(rest, q, vars);
    if Name(k) in vars && m.Some? {
      var v := [Val(vars[Name(k)])];
      Glue(Chars(""), v, m.value, Read(s, After(rest, j), vars));
      Glue([], m.value, [], Read(s, After(rest, j), vars));
      assert Chars("") == [] && i - |""| == i;
    }
  }

  lemma HoleMeans(k: nat, rest: Expr, q: Query, vars: Vars)
    ensures Meaning(Hole(k, rest), q, vars)
      == Join(if Name(k) in vars then Some([Val(vars[Name(k)])]) else None, Meaning(rest, q, vars))
  {
    hide Name;
  }

  lemma HoleAfter(i: nat, k: nat, rest: Expr)
    ensures After(Hole(k, rest), i) == After(rest, i + |Name(k)|)
  {
    hide Name;
  }

  lemma ReadGroup(s: string, i: nat, word: string, b: Expr, rest: Expr, q: Query, vars: Vars)
    requires var j := After(b, i + 1);
      && |word| <= i && i + 1 <= |s| && j + 1 <= |s| && After(rest, j + 1) <= |s|
      && ReadsAs(s, i + 1, "", b, q, vars) && ReadsAs(s, j + 1, "", rest, q, vars)
      && Read(s, i - |word|, vars) == Chars(word) + ([Char('(')] + Read(s, i + 1, vars))
      && Read(s, j, vars) == [Char(')')] + Read(s, j + 1, vars)
    ensures After(Group(b, rest), i) == After(rest, After(b, i + 1) + 1)
    ensures ReadsAs(s, i, word, Group(b, rest), q, vars)
  {
    hide Read, After;
    var j := After(b, i + 1);
    var mb, mr := Meaning(b, q, vars), Meaning(rest, q, vars);
    GroupEnd(b, rest, i);
    if mb.Some? && mr.Some? {
      var r := Read(s, After(rest, j + 1), vars);
      var w := Chars(word);
      assert Chars("") == [];
      assert Read(s, j + 1, vars) == mr.value + r;
      assert Read(s, i + 1, vars) == mb.value + ([Char(')')] + (mr.value + r));
      GlueGroup(w, [Char('(')], mb.value, [Char(')')], mr.value, r);
    }
  }

  lemma GroupEnd(b: Expr, rest: Expr, i: nat)
    ensures After(Group(b, rest), i) == After(rest, After(b, i + 1) + 1)
  {}

  lemma GlueGroup(w: seq<Token>, a: seq<Token>, b: seq<Token>, c: seq<Token>, d: seq<Token>, r: seq<Token>)
    ensures w + (a + (b + (c + (d + r)))) == w + (a + b + c + d) + r
  {}

  // ----- the theorem -----

  // A source tree means what its printed text evaluates to: the rewriting never
  // needs the references of a fallback it does not select, and fails exactly
  // when a live reference outside every coalesce does not select one value.
  lemma ResolveMeansTree(e: Expr, q: Query, eval: Evaluator)
    requires IsSource(e)
    ensures match Meaning(e, q, map[])
      case None => Resolve(Print(e), q, eval) == Unresolved
      case Some(ts) =>
        var o := Resolve(Print(e), q, eval);
        var v := eval(ts);
        if v.Number? then o.Coefficient? && o.x == v.x else o == Failed(v)
  {
    hide Print, WellFormed, Meaning, RewriteAll, ReplaceAll, Read, StandsFor;
    var st0 := State(Print(e), 0, map[], map[]);
    SourceStands(e);
    var t := RewriteOnTree(st0, q, e);
    ResolveRest(RewriteAll(st0, q), q, t, eval);
  }

  lemma SourceStands(e: Expr)
    requires IsSource(e)
    ensures StandsFor(State(Print(e), 0, map[], map[]), e)
  {
    hide Print, WellFormed, Name;
  }

  lemma ResolveRest(st: State, q: Query, t: Expr, eval: Evaluator)
    requires StandsFor(st, t) && Calls(t) == 0
    ensures var done := ReplaceAll(st.text, 0, q, st.(text := ""));
      match Meaning(t, q, st.vars)
      case None => done == None
      case Some(ts) => done.Some? && Read(done.value.text, 0, done.value.vars) == ts
  {
    hide Print, WellFormed, Meaning, ReplaceAll, Read, Fill, Refs, Calls, Bound, NamesIn, Extends, Holds, AllSingle, Stands;
    var out := st.(text := "");
    StandsAlone(t);
    FlatMeaning(t, q, st.vars);
    var done := ReplaceAllOn(st.text, 0, t, "", Outside, q, out);
    EndOfText(st.text, q, out, done);
    if AllSingle(Refs(t), q) {
      var f := Fill(t, out.next);
      assert done.text == Print(f) by { assert "" + Print(f) == Print(f); }
      FillKeeps(t, out.next, "", Outside);
      FillMeaning(t, out.next, q, done.vars);
      ExtendMeaning(t, q, st.vars, done.vars);
      ReadWhole(f, q, done.vars, done.next);
    }
  }

  lemma EndOfText(s: string, q: Query, out: State, done: State)
    ensures ReplaceAll(s, |s|, q, done) == Some(done)
  {}

  lemma ReadWhole(f: Expr, q: Query, vars: Vars, n: nat)
    requires WellFormed(f, "", Outside) && Calls(f) == 0 && Refs(f) == [] && NamesIn(vars, 0, n)
    ensures Meaning(f, q, vars).Some? ==> Read(Print(f), 0, vars) == Meaning(f, q, vars).value
  {
    hide Print, WellFormed, Meaning, Refs, Calls, Stands, Name, IsPlaceholder;
    StandsAlone(f);
    NothingPending(Print(f), 0);
    forall x | x in vars ensures IsPlaceholder(x) {
      var k: nat :| k < n && x == Name(k);
      NameChars(k);
    }
    ReadOn(Print(f), 0, f, "", Outside, q, vars);
    ReadNothing(Print(f), vars);
    var m := Meaning(f, q, vars);
    if m.Some? { Glue([], m.value, [], []); assert m.value + [] == m.value; }
  }

  lemma ReadNothing(s: string, vars: Vars)
    ensures Read(s, |s|, vars) == []
  {}
}
