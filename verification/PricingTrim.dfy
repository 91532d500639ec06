// Trimming the text of a tree is trimming the tree.
module PricingTrim {
  import opened Text
  import opened PricingScanner
  import opened PricingTree

  function TrimLeftTree(e: Expr): Expr {
    match e
    case Ch(c, rest) => if IsSpace(c) then TrimLeftTree(rest) else e
    case _ => e
  }

  function TrimRightTree(e: Expr): Expr {
    match e
    case End => End
    case Ch(c, rest) =>
      var r := TrimRightTree(rest);
      if r == End && IsSpace(c) then End else Ch(c, r)
    case Ref(r, rest) => Ref(r, TrimRightTree(rest))
    case Hole(k, rest) => Hole(k, TrimRightTree(rest))
    case Group(b, rest) => Group(b, TrimRightTree(rest))
    case Coalesce(a, f, rest) => Coalesce(a, f, TrimRightTree(rest))
  }

  function TrimTree(e: Expr): Expr { TrimRightTree(TrimLeftTree(e)) }

  // The white space that each function drops.
  function Lead(e: Expr): string {
    match e
    case Ch(c, rest) => if IsSpace(c) then [c] + Lead(rest) else ""
    case _ => ""
  }

  function Trail(e: Expr): string {
    match e
    case End => ""
    case Ch(c, rest) =>
      if TrimRightTree(rest) == End && IsSpace(c) then [c] + Trail(rest) else Trail(rest)
    case Ref(_, rest) => Trail(rest)
    case Hole(_, rest) => Trail(rest)
    case Group(_, rest) => Trail(rest)
    case Coalesce(_, _, rest) => Trail(rest)
  }

  // ----- the tree keeps its contents -----

  lemma {:induction false} LeftKeeps(e: Expr, place: Context)
    requires WellFormed(e, "", place)
    ensures var t := TrimLeftTree(e);
      && WellFormed(t, "", place) && Calls(t) == Calls(e) && Refs(t) == Refs(e) && (forall n :: Holes(t, n) == Holes(e, n))
      && (t.Ch? ==> !IsSpace(t.c))
  {
    match e
    case Ch(c, rest) => if IsSpace(c) { LeftKeeps(rest, place); }
    case _ =>
  }

  lemma {:induction false} RightKeeps(e: Expr, word: string, place: Context)
    requires WellFormed(e, word, place)
    ensures var t := TrimRightTree(e);
      && WellFormed(t, word, place) && Calls(t) == Calls(e) && Refs(t) == Refs(e) && (forall n :: Holes(t, n) == Holes(e, n))
    decreases e
  {
    hide IsPlaceholder, IsRefText, EndsInCoalesce, MayFollowRef;
    match e
    case End =>
    case Ch(c, rest) =>
      RightKeeps(rest, if IsIdentChar(c) then word + [c] else "", place);
    case Ref(r, rest) => RightKeeps(rest, "", place); HeadKept(rest);
    case Hole(k, rest) => RightKeeps(rest, "", place); HeadKept(rest);
    case Group(b, rest) => RightKeeps(rest, "", place);
    case Coalesce(a, f, rest) => RightKeeps(rest, "", place);
  }

  lemma HeadKept(e: Expr)
    ensures var t := TrimRightTree(e);
      (t == End || (t.Ch? && e.Ch? && t.c == e.c) || (t.Group? && e.Group?)
       || (t.Ref? && e.Ref?) || (t.Hole? && e.Hole?) || (t.Coalesce? && e.Coalesce?))
  {}

  lemma TrimKeeps(e: Expr, place: Context)
    requires WellFormed(e, "", place)
    ensures var t := TrimTree(e);
      && WellFormed(t, "", place) && Calls(t) == Calls(e) && Refs(t) == Refs(e) && (forall n :: Holes(t, n) == Holes(e, n))
  {
    LeftKeeps(e, place);
    RightKeeps(TrimLeftTree(e), "", place);
  }

  // ----- the text -----

  lemma {:induction false} LeadText(e: Expr)
    ensures Print(e) == Lead(e) + Print(TrimLeftTree(e))
    ensures Blank(Lead(e))
  {
    hide IsSpace, Print;
    if e.Ch? && IsSpace(e.c) {
      LeadText(e.rest);
      PrintCh(e.c, e.rest);
    } else {
      assert Lead(e) == "";
    }
  }

  lemma PrintCh(c: char, rest: Expr)
    ensures Print(Ch(c, rest)) == [c] + Print(rest)
  {}

  lemma {:induction false} TrailText(e: Expr)
    ensures Print(e) == Print(TrimRightTree(e)) + Trail(e) && Blank(Trail(e))
  {
    hide IsSpace, Name;
    match e
    case End =>
    case Ch(c, rest) => TrailText(rest);
    case Ref(_, rest) => TrailText(rest);
    case Hole(_, rest) => TrailText(rest);
    case Group(_, rest) => TrailText(rest);
    case Coalesce(_, _, rest) => TrailText(rest);
  }

  // The last character of a reference or placeholder is no white space.
  lemma {:induction false} StepsEndSolid(r: string, i: nat)
    requires i < |r| && StepsEnd(r, i) == |r|
    ensures !IsSpace(r[|r| - 1])
    decreases |r| - i
  {
    var e := StepEnd(r, i);
    if e < |r| { StepsEndSolid(r, e); }
    else if r[i] == '.' { RunChars(r, i + 1, WordOrDash); }
  }

  lemma RefSolid(r: string)
    requires IsRefText(r)
    ensures Solid(r)
  {
    StepsEndSolid(r, 1);
  }

  lemma NameSolid(k: nat)
    ensures Name(k) != "" && Solid(Name(k))
  {
    assert Name(k)[|Name(k)| - 1] == Decimal(k)[|Decimal(k)| - 1];
  }

  // The text ends, and not with white space.
  predicate EndsSolid(t: string) { t != "" && !IsSpace(t[|t| - 1]) }

  lemma SolidAfter(t: string, u: string)
    requires EndsSolid(t) && (u == "" || EndsSolid(u))
    ensures EndsSolid(t + u)
  {}

  // What is left after trimming is nothing, or solid.
  predicate SolidTree(t: Expr) { if t == End then Print(t) == "" else EndsSolid(Print(t)) }

  lemma SolidMore(t: Expr, prefix: string)
    requires t != End && SolidTree(t.rest) && EndsSolid(prefix) && Print(t) == prefix + Print(t.rest)
    ensures SolidTree(t)
  {
    hide Print, EndsSolid;
    SolidAfter(prefix, Print(t.rest));
  }

  lemma CharSolid(c: char, r: Expr)
    requires SolidTree(r) && (r == End ==> !IsSpace(c))
    ensures SolidTree(Ch(c, r))
  {
    hide IsSpace;
    var t := Ch(c, r);
    assert Print(t) == [c] + Print(r);
    if r != End { assert Print(t)[|Print(t)| - 1] == Print(r)[|Print(r)| - 1]; }
  }

  lemma {:induction false} LastSolid(e: Expr, word: string, place: Context)
    requires WellFormed(e, word, place)
    ensures SolidTree(TrimRightTree(e))
    decreases e
  {
    hide IsPlaceholder, RefEnd, IsSpace, Name, SolidTree, EndsSolid;
    match e
    case End => NothingSolid();
    case Ch(c, rest) =>
      LastSolid(rest, if IsIdentChar(c) then word + [c] else "", place);
      var r := TrimRightTree(rest);
      if r == End && IsSpace(c) { NothingSolid(); } else { CharSolid(c, r); }
    case Ref(r, rest) =>
      LastSolid(rest, "", place);
      RefIsSolid(r);
      SolidMore(TrimRightTree(e), r);
    case Hole(k, rest) =>
      LastSolid(rest, "", place);
      NameIsSolid(k);
      SolidMore(TrimRightTree(e), Name(k));
    case Group(b, rest) =>
      LastSolid(rest, "", place);
      ClosedSolid("(" + Print(b));
      SolidMore(TrimRightTree(e), "(" + Print(b) + ")");
    case Coalesce(a, f, rest) =>
      LastSolid(rest, "", place);
      ClosedSolid(COALESCE + Print(a) + "," + Print(f));
      SolidMore(TrimRightTree(e), COALESCE + Print(a) + "," + Print(f) + ")");
  }

  lemma NothingSolid()
    ensures SolidTree(End)
  {}

  lemma ClosedSolid(t: string)
    ensures EndsSolid(t + ")")
  {
    hide IsSpace;
    NotSpace(')');
  }

  lemma RefIsSolid(r: string)
    requires IsRefText(r)
    ensures EndsSolid(r)
  {
    hide IsSpace;
    RefSolid(r);
  }

  lemma NameIsSolid(k: nat)
    ensures EndsSolid(Name(k))
  {
    hide IsSpace;
    NameSolid(k);
  }

  lemma NotSpace(c: char)
    requires c == ')' || c == '(' || c == '$' || c == '_' || c == 'c'
    ensures !IsSpace(c)
  {}

  lemma FirstSolid(e: Expr, place: Context)
    requires WellFormed(e, "", place) && (e.Ch? ==> !IsSpace(e.c))
    ensures e == End || (Print(e) != "" && !IsSpace(Print(e)[0]))
  {
    hide IsPlaceholder, RefEnd, IsSpace, Name, TrimRightTree;
    match e
    case Ref(r, _) => RefSolid(r);
    case Hole(k, _) => NameSolid(k);
    case Group(_, _) => NotSpace('(');
    case Coalesce(_, _, _) => NotSpace('c');
    case _ =>
  }

  lemma TrimText(e: Expr, place: Context)
    requires WellFormed(e, "", place)
    ensures Trim(Print(e)) == Print(TrimTree(e))
  {
    hide Trim, IsSpace, Print;
    var l := TrimLeftTree(e);
    var t := TrimTree(e);
    LeftKeeps(e, place);
    RightKeeps(l, "", place);
    HeadKept(l);
    FirstSolid(t, place);
    LastSolid(l, "", place);
    LeadText(e);
    TrailText(l);
    TrimIs(Lead(e), Print(t), Trail(l));
    assert Print(e) == Lead(e) + Print(t) + Trail(l);
  }
}
