// The evaluation of a pricing expression (resolveExpression in
// packages/middleware-openapi/src/evaluator.ts): coalesce calls are rewritten
// innermost first, references become placeholders, and the rest is evaluated.
module PricingRewrite {
  import opened Text
  import opened PricingScanner
  import opened PricingTree
  import opened PricingTermination

  // The local variables of the loop: bindings are keyed by reference.
  datatype State = State(text: string, next: nat, vars: Vars, bindings: Vars)

  // ----- one pass -----

  // The walk over the references of a coalesce's primary.
  datatype Primary = Primary(anyNil: bool, text: string, next: nat, vars: Vars, bindings: Vars)

  function Bind(p: Primary, ref: string, v: Value): Primary {
    var name := Name(p.next);
    Primary(false, ReplaceFirst(p.text, ref, name), p.next + 1, p.vars[name := v], p.bindings[ref := v])
  }

  function ResolveRefs(refs: seq<string>, q: Query, p: Primary): Primary
    decreases |refs|
  {
    if refs == [] then p
    else if Missing(q, refs[0]) then p.(anyNil := true)
    else ResolveRefs(refs[1..], q, Bind(p, refs[0], q(refs[0])[0]))
  }

  function ResolvePrimary(st: State, q: Query, m: Match): Primary {
    ResolveRefs(PlainRefs(m.arg, 0), q, Primary(false, m.arg, st.next, map[], map[]))
  }

  function Pass(st: State, q: Query, m: Match): State
    requires m.start <= m.end <= |st.text|
  {
    var p := ResolvePrimary(st, q, m);
    if PlainRefs(m.arg, 0) == [] then
      st.(text := Spliced(st.text, m, "(" + m.arg + ")"))
    else if p.anyNil then
      State(Spliced(st.text, m, "(" + m.fallback + ")"), p.next, st.vars, st.bindings)
    else
      State(Spliced(st.text, m, "(" + p.text + ")"), p.next, st.vars + p.vars, st.bindings + p.bindings)
  }

  lemma {:induction false} ResolveCount(refs: seq<string>, q: Query, p: Primary)
    ensures Count(ResolveRefs(refs, q, p).text) <= Count(p.text)
    decreases |refs|
  {
    hide Count, Name;
    if refs != [] && !Missing(q, refs[0]) {
      SubstitutionCount(p.text, refs[0], p.next);
      ResolveCount(refs[1..], q, Bind(p, refs[0], q(refs[0])[0]));
    }
  }

  // Every pass leaves fewer opening tokens than it found, on any text.
  lemma PassShrinks(st: State, q: Query)
    requires FindInnermost(st.text).Some?
    ensures Count(Pass(st, q, FindInnermost(st.text).value).text) < Count(st.text)
  {
    hide Count, InnermostFrom, IsCallOf, ResolveRefs, Spliced, PlainRefs;
    var m := FindInnermost(st.text).value;
    FoundIsCall(st.text, 0);
    ResolveCount(PlainRefs(m.arg, 0), q, Primary(false, m.arg, st.next, map[], map[]));
    PassDecreases(st.text, m, m.arg);
    PassDecreases(st.text, m, m.fallback);
    PassDecreases(st.text, m, ResolvePrimary(st, q, m).text);
  }

  function RewriteAll(st: State, q: Query): State
    decreases Count(st.text)
  {
    var m := FindInnermost(st.text);
    if m.None? then st
    else
      PassShrinks(st, q);
      RewriteAll(Pass(st, q, m.value), q)
  }

  // ----- the references that are left -----

  // The global replacement of references from position i on; out is what has
  // been produced so far. None: some reference does not select one value.
  function ReplaceAll(s: string, i: nat, q: Query, out: State): Option<State>
    requires i <= |s|
    decreases |s| - i
  {
    if i == |s| then Some(out)
    else
      var e := RefEnd(s, i);
      if e == i then ReplaceAll(s, i + 1, q, out.(text := out.text + [s[i]]))
      else if |q(s[i..e])| != 1 then None
      else ReplaceAll(s, e, q, Place(out, s[i..e], q(s[i..e])[0]))
  }

  function Place(out: State, ref: string, v: Value): State {
    var name := Name(out.next);
    State(out.text + name, out.next + 1, out.vars[name := v], out.bindings[ref := v])
  }

  // ----- evaluation -----

  function IdentEnd(s: string, i: nat): (j: nat)
    requires i <= |s|
    ensures i <= j <= |s| && (i < |s| && IsIdentChar(s[i]) ==> i < j)
    decreases |s| - i
  {
    if i < |s| && IsIdentChar(s[i]) then IdentEnd(s, i + 1) else i
  }

  // How the evaluator reads text: an identifier that is a variable is its value.
  function Read(s: string, i: nat, vars: Vars): seq<Token>
    requires i <= |s|
    decreases |s| - i
  {
    if i == |s| then []
    else if IsIdentChar(s[i]) then
      var w := s[i..IdentEnd(s, i)];
      (if w in vars then [Val(vars[w])] else Chars(w)) + Read(s, IdentEnd(s, i), vars)
    else [Char(s[i])] + Read(s, i + 1, vars)
  }

  datatype Evaluated = Number(x: real) | NonFinite | NonNumeric | Throws

  // The expression library: any function of the text it reads.
  type Evaluator = seq<Token> -> Evaluated

  datatype Outcome = Coefficient(x: real, bindings: Vars) | Unresolved | Failed(why: Evaluated)

  function Evaluate(st: State, eval: Evaluator): Outcome {
    var v := eval(Read(st.text, 0, st.vars));
    if v.Number? then Coefficient(v.x, st.bindings) else Failed(v)
  }

  function Resolve(expr: string, q: Query, eval: Evaluator): Outcome {
    var st := RewriteAll(State(expr, 0, map[], map[]), q);
    var done := ReplaceAll(st.text, 0, q, st.(text := ""));
    if done.None? then Unresolved else Evaluate(done.value, eval)
  }

  method ResolveExpression(expression: string, q: Query, eval: Evaluator) returns (o: Outcome)
    ensures o == Resolve(expression, q, eval)
  {
    hide Count, InnermostFrom, Read;
    var vars: Vars := map[];
    var bindings: Vars := map[];
    var varIndex := 0;
    var processed := expression;
    ghost var first := State(expression, 0, map[], map[]);
    while true
      invariant RewriteAll(State(processed, varIndex, vars, bindings), q) == RewriteAll(first, q)
      decreases Count(processed)
    {
      var coal := ScanFindInnermost(processed);
      if coal.None? { break; }
      var m := coal.value;
      ghost var st := State(processed, varIndex, vars, bindings);
      PassShrinks(st, q);
      var argRefs := ExtractPlainRefs(m.arg);
      var replacement;
      if |argRefs| == 0 {
        replacement := "(" + m.arg + ")";
      } else {
        var p := ResolveArgRefs(argRefs, q, m.arg, varIndex);
        varIndex := p.next;
        if p.anyNil {
          replacement := "(" + m.fallback + ")";
        } else {
          vars := vars + p.vars;
          bindings := bindings + p.bindings;
          replacement := "(" + p.text + ")";
        }
      }
      processed := processed[..m.start] + replacement + processed[m.end..];
      assert State(processed, varIndex, vars, bindings) == Pass(st, q, m);
    }
    o := ReplaceAndEvaluate(State(processed, varIndex, vars, bindings), q, eval);
  }

  // The inner loop: it stops at the first reference that is absent or null.
  method ResolveArgRefs(argRefs: seq<string>, q: Query, arg: string, varIndex: nat) returns (p: Primary)
    ensures p == ResolveRefs(argRefs, q, Primary(false, arg, varIndex, map[], map[]))
  {
    hide Name, ReplaceFirst;
    p := Primary(false, arg, varIndex, map[], map[]);
    ghost var start := p;
    var i := 0;
    while i < |argRefs|
      invariant i <= |argRefs| && !p.anyNil
      invariant ResolveRefs(argRefs, q, start) == ResolveRefs(argRefs[i..], q, p)
    {
      var values := q(argRefs[i]);
      if |values| != 1 || values[0] == Null {
        return p.(anyNil := true);
      }
      assert argRefs[i..][1..] == argRefs[i + 1..];
      p := Bind(p, argRefs[i], values[0]);
      i := i + 1;
    }
  }

  method ReplaceAndEvaluate(st: State, q: Query, eval: Evaluator) returns (o: Outcome)
    ensures var done := ReplaceAll(st.text, 0, q, st.(text := ""));
      o == if done.None? then Unresolved else Evaluate(done.value, eval)
  {
    hide Read, Name, RefEnd;
    var out := st.(text := "");
    var i := 0;
    while i < |st.text|
      invariant i <= |st.text|
      invariant ReplaceAll(st.text, 0, q, st.(text := "")) == ReplaceAll(st.text, i, q, out)
    {
      var e := RefEnd(st.text, i);
      if e == i {
        out := out.(text := out.text + [st.text[i]]);
        i := i + 1;
      } else {
        var values := q(st.text[i..e]);
        if |values| != 1 { return Unresolved; }
        out := Place(out, st.text[i..e], values[0]);
        i := e;
      }
    }
    o := Evaluate(out, eval);
  }
}
