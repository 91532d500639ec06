// Pricing expressions as trees: how they are written, which trees are well
// formed, and what they mean for a given request and response.
module PricingTree {
  import opened Text
  import opened PricingScanner

  // A JSON value found by a JSONPath query; only null is told apart here.
  datatype Value = Null | Json(id: int)

  // The values a JSONPath reference selects in the evaluation context.
  type Query = string -> seq<Value>

  // One item and what follows it. A Hole is a reference already replaced by the
  // placeholder of its number; it does not occur in a source expression.
  datatype Expr =
    | End
    | Ch(c: char, rest: Expr)
    | Ref(ref: string, rest: Expr)
    | Hole(k: nat, rest: Expr)
    | Group(body: Expr, rest: Expr)
    | Coalesce(arg: Expr, fallback: Expr, rest: Expr)

  // ----- writing -----

  const REF_VAR_PREFIX := "__fm_ref_"

  function Name(k: nat): string { REF_VAR_PREFIX + Decimal(k) }

  function Print(e: Expr): string {
    match e
    case End => ""
    case Ch(c, rest) => [c] + Print(rest)
    case Ref(r, rest) => r + Print(rest)
    case Hole(k, rest) => Name(k) + Print(rest)
    case Group(b, rest) => "(" + Print(b) + ")" + Print(rest)
    case Coalesce(a, f, rest) => COALESCE + Print(a) + "," + Print(f) + ")" + Print(rest)
  }

  // ----- well-formed trees -----

  predicate IsPlaceholder(w: string) {
    |w| > |REF_VAR_PREFIX| && REF_VAR_PREFIX <= w && forall c <- w[|REF_VAR_PREFIX|..] :: IsDigit(c)
  }

  // A reference as JSONPATH_REF matches it.
  predicate IsRefText(r: string) { r != [] && RefEnd(r, 0) == |r| }

  // Where an expression stands: outside every call, directly in the argument of
  // one, or elsewhere in one.
  datatype Context = Outside | Argument | Inside

  // The context of a group's body.
  function Nested(place: Context): Context { if place == Outside then Outside else Inside }

  // The scanner counts the parentheses and commas in the quoted keys of a call:
  // they must be balanced, with no comma to be taken for that of the call.
  predicate RefFits(r: string, place: Context) { place == Outside || Kept(r, 0, 1, place == Inside) }

  // The character c after reference r leaves r a complete reference.
  predicate MayFollowRef(r: string, c: char)
    requires r != []
  {
    !IsIdentChar(c) && c != '.' && c != '[' && (c == '-' ==> r[|r| - 1] == ']')
  }

  predicate EndsInCoalesce(r: string) {
    |r| >= 9 && r[|r| - 8..] == "coalesce" && !IsIdentChar(r[|r| - 9])
  }

  // What stands directly after a reference or a placeholder.
  predicate RefEndsBefore(r: string, rest: Expr)
    requires r != []
  {
    match rest
    case End => true
    case Ch(c, _) => MayFollowRef(r, c)
    case Group(_, _) => !EndsInCoalesce(r)
    case _ => false
  }

  predicate HoleEndsBefore(rest: Expr) {
    match rest
    case End => true
    case Ch(c, _) => !IsIdentChar(c)
    case Group(_, _) => true
    case _ => false
  }

  // word: the part of an identifier written directly before e ("" if none);
  // place: the context of e; an argument holds no comma outside parentheses.
  predicate WellFormed(e: Expr, word: string, place: Context) {
    match e
    case End => !IsPlaceholder(word)
    case Ch(c, rest) =>
      && c != '(' && c != ')' && c != '$' && (c == ',' ==> place != Argument)
      && (if IsIdentChar(c) then WellFormed(rest, word + [c], place)
          else !IsPlaceholder(word) && WellFormed(rest, "", place))
    case Ref(r, rest) =>
      word == "" && IsRefText(r) && RefFits(r, place) && RefEndsBefore(r, rest) && WellFormed(rest, "", place)
    case Hole(_, rest) =>
      word == "" && HoleEndsBefore(rest) && WellFormed(rest, "", place)
    case Group(b, rest) =>
      && word != "coalesce" && !IsPlaceholder(word)
      && WellFormed(b, "", Nested(place)) && WellFormed(rest, "", place)
    case Coalesce(a, f, rest) =>
      word == "" && WellFormed(a, "", Argument) && WellFormed(f, "", Inside) && WellFormed(rest, "", place)
  }

  // How often placeholder n occurs in e.
  function Holes(e: Expr, n: nat): nat {
    match e
    case End => 0
    case Ch(_, rest) => Holes(rest, n)
    case Ref(_, rest) => Holes(rest, n)
    case Hole(k, rest) => (if k == n then 1 else 0) + Holes(rest, n)
    case Group(b, rest) => Holes(b, n) + Holes(rest, n)
    case Coalesce(a, f, rest) => Holes(a, n) + Holes(f, n) + Holes(rest, n)
  }

  // Every reference written in e, in order.
  function Refs(e: Expr): seq<string> {
    match e
    case End => []
    case Ch(_, rest) => Refs(rest)
    case Ref(r, rest) => [r] + Refs(rest)
    case Hole(_, rest) => Refs(rest)
    case Group(b, rest) => Refs(b) + Refs(rest)
    case Coalesce(a, f, rest) => Refs(a) + Refs(f) + Refs(rest)
  }

  // Number of coalesce calls in e.
  function Calls(e: Expr): nat {
    match e
    case End => 0
    case Ch(_, rest) => Calls(rest)
    case Ref(_, rest) => Calls(rest)
    case Hole(_, rest) => Calls(rest)
    case Group(b, rest) => Calls(b) + Calls(rest)
    case Coalesce(a, f, rest) => 1 + Calls(a) + Calls(f) + Calls(rest)
  }

  // ----- keys that hold opening tokens -----

  // The scanner sees no call in the reference, or in none of a tree.
  predicate IsClear(r: string) { NoneFree(r, |r|) }

  predicate Clear(e: Expr) { forall r <- Refs(e) :: IsClear(r) }

  // A search that comes upon reference r ends there. In a call r is balanced, so
  // that what stands behind it does not matter.
  predicate Stops(r: string, place: Context, behind: string) {
    ExtractCoalesce(if place == Outside then r + behind else r).None?
  }

  // The text behind the body of a group, as far as it matters.
  function Behind(place: Context, rest: Expr, post: string): string {
    if place == Outside then ")" + (Print(rest) + post) else ""
  }

  // The search finds its way in e, which is followed by post: it comes upon the
  // token in a key only when all calls that it must find first are rewritten, and
  // ends there. last: it need find none behind e.
  predicate Readable(e: Expr, place: Context, post: string, last: bool) {
    match e
    case End => true
    case Ch(_, rest) => Readable(rest, place, post, last)
    case Ref(r, rest) =>
      if IsClear(r) then Readable(rest, place, post, last)
      else last && Calls(rest) == 0 && Stops(r, place, Print(rest) + post)
    case Hole(_, rest) => Readable(rest, place, post, last)
    case Group(b, rest) =>
      && Readable(b, Nested(place), Behind(place, rest, post), last && Calls(rest) == 0)
      && ((Calls(b) == 0 && !Clear(b)) || Readable(rest, place, post, last))
    case Coalesce(a, f, rest) =>
      && Readable(a, Argument, "", Calls(f) == 0) && Readable(f, Inside, "", last && Calls(rest) == 0)
      && Readable(rest, place, post, last)
  }

  // A pricing expression as its author writes it.
  ghost predicate IsSource(e: Expr) {
    WellFormed(e, "", Outside) && Readable(e, Outside, "", true) && forall n :: Holes(e, n) == 0
  }

  // ----- meaning -----

  // What the expression evaluator sees: text with the values of variables in it.
  datatype Token = Char(c: char) | Val(v: Value)

  function Chars(s: string): (ts: seq<Token>)
    ensures |ts| == |s| && forall i :: 0 <= i < |s| ==> ts[i] == Char(s[i])
  {
    seq(|s|, i requires 0 <= i < |s| => Char(s[i]))
  }

  predicate Missing(q: Query, r: string) { |q(r)| != 1 || q(r)[0] == Null }

  // Some reference still live in e is absent or null.
  predicate Nullish(e: Expr, q: Query) {
    match e
    case End => false
    case Ch(_, rest) => Nullish(rest, q)
    case Ref(r, rest) => Missing(q, r) || Nullish(rest, q)
    case Hole(_, rest) => Nullish(rest, q)
    case Group(b, rest) => Nullish(b, q) || Nullish(rest, q)
    case Coalesce(a, f, rest) => (Nullish(a, q) && Nullish(f, q)) || Nullish(rest, q)
  }

  function Join(a: Option<seq<Token>>, b: Option<seq<Token>>): Option<seq<Token>> {
    if a.Some? && b.Some? then Some(a.value + b.value) else None
  }

  function Parens(a: Option<seq<Token>>): Option<seq<Token>> {
    if a.Some? then Some([Char('(')] + a.value + [Char(')')]) else None
  }

  predicate IsBlank(t: Token) { t.Char? && IsSpace(t.c) }

  function TrimStart(ts: seq<Token>): seq<Token> {
    if ts != [] && IsBlank(ts[0]) then TrimStart(ts[1..]) else ts
  }

  function TrimEnd(ts: seq<Token>): seq<Token> {
    if ts != [] && IsBlank(ts[|ts| - 1]) then TrimEnd(ts[..|ts| - 1]) else ts
  }

  function Trimmed(a: Option<seq<Token>>): Option<seq<Token>> {
    if a.Some? then Some(TrimEnd(TrimStart(a.value))) else None
  }

  type Vars = map<string, Value>

  // The text the evaluator must see; None when a live reference outside every
  // coalesce does not select exactly one value.
  function Meaning(e: Expr, q: Query, vars: Vars): Option<seq<Token>> {
    match e
    case End => Some([])
    case Ch(c, rest) => Join(Some([Char(c)]), Meaning(rest, q, vars))
    case Ref(r, rest) =>
      Join(if |q(r)| == 1 then Some([Val(q(r)[0])]) else None, Meaning(rest, q, vars))
    case Hole(k, rest) =>
      Join(if Name(k) in vars then Some([Val(vars[Name(k)])]) else None, Meaning(rest, q, vars))
    case Group(b, rest) => Join(Parens(Meaning(b, q, vars)), Meaning(rest, q, vars))
    case Coalesce(a, f, rest) =>
      Join(Parens(Trimmed(if Nullish(a, q) then Meaning(f, q, vars) else Meaning(a, q, vars))),
           Meaning(rest, q, vars))
  }
}
