// From a coefficient to token amounts, and the choice of the pricing rule
// (packages/middleware-openapi/src/evaluator.ts).
module PricingAmount {
  import opened Text
  import Rewrite = PricingRewrite

  const PRECISION := 15
  const SCALE: int := 1_000_000_000_000_000
  const EXPONENTIAL: real := 1_000_000_000_000_000_000_000.0

  // ----- the decimal text of a coefficient -----

  function Zeros(n: nat): (s: string)
    ensures |s| == n && forall i :: 0 <= i < n ==> s[i] == '0'
  {
    if n == 0 then "" else "0" + Zeros(n - 1)
  }

  // padEnd(n, "0")
  function PadEnd(s: string, n: nat): string {
    if |s| < n then s + Zeros(n - |s|) else s
  }

  // The integer n for which n / SCALE is nearest to x, the larger one of two.
  function Nearest(x: real): int { (x * SCALE as real + 0.5).Floor }

  // What toFixed(15) writes (ECMA-262, section 21.1.3.3). Of a text in
  // exponential notation only its notation matters.
  datatype Fixed = Plain(s: string) | Exponential

  function ToFixed(x: real): Fixed
    requires 0.0 <= x
  {
    if x >= EXPONENTIAL then Exponential
    else
      var digits := Decimal(Nearest(x));
      var m := if |digits| <= PRECISION then Zeros(PRECISION + 1 - |digits|) + digits else digits;
      Plain(m[..|m| - PRECISION] + "." + m[|m| - PRECISION..])
  }

  // The text before and after the first point.
  function SplitPoint(s: string): (string, string) {
    if s == "" then ("", "")
    else if s[0] == '.' then ("", s[1..])
    else var (a, b) := SplitPoint(s[1..]); ([s[0]] + a, b)
  }

  function MathRound(x: real): int { (x + 0.5).Floor }

  function ScaledBigInt(coefficient: real): int
    requires 0.0 <= coefficient
  {
    if coefficient == 0.0 then 0
    else
      var str := ToFixed(coefficient);
      if str.Exponential? then MathRound(coefficient) * SCALE
      else
        var (whole, frac) := SplitPoint(str.s);
        FixedReadsBack(coefficient);
        DecimalValue(whole + PadEnd(frac, PRECISION))
  }

  lemma {:induction false} LeadingZeros(n: nat, s: string)
    requires forall c <- s :: IsDigit(c)
    ensures DecimalValue(Zeros(n) + s) == DecimalValue(s)
    decreases n + |s|
  {
    var t := Zeros(n) + s;
    if s != "" {
      assert t[..|t| - 1] == Zeros(n) + s[..|s| - 1] && t[|t| - 1] == s[|s| - 1];
      LeadingZeros(n, s[..|s| - 1]);
    } else if n > 0 {
      assert t == Zeros(n) && t[..|t| - 1] == Zeros(n - 1) + "" by { ZerosEnd(n); }
      LeadingZeros(n - 1, "");
      assert t[|t| - 1] == '0';
    }
  }

  lemma ZerosEnd(n: nat)
    requires n > 0
    ensures Zeros(n)[..n - 1] == Zeros(n - 1)
  {
  }

  lemma {:induction false} SplitAt(a: string, b: string)
    requires '.' !in a
    ensures SplitPoint(a + "." + b) == (a, b)
    decreases |a|
  {
    var s := a + "." + b;
    if a == "" {
      assert s[1..] == b;
    } else {
      assert a[0] in a && s[1..] == a[1..] + "." + b && [a[0]] + a[1..] == a;
      SplitAt(a[1..], b);
    }
  }

  // Splitting the text, padding its fraction and reading it back loses nothing.
  lemma FixedReadsBack(c: real)
    requires 0.0 <= c < EXPONENTIAL
    ensures var (whole, frac) := SplitPoint(ToFixed(c).s);
      var digits := whole + PadEnd(frac, PRECISION);
      (forall x <- digits :: IsDigit(x)) && DecimalValue(digits) == Nearest(c)
  {
    hide Decimal, DecimalValue, SplitPoint, IsDigit;
    PointIsNoDigit();
    var digits := Decimal(Nearest(c));
    var n := if |digits| <= PRECISION then PRECISION + 1 - |digits| else 0;
    var m := Zeros(n) + digits;
    PadDigits(n, digits);
    var a, b := m[..|m| - PRECISION], m[|m| - PRECISION..];
    assert ToFixed(c).s == a + "." + b;
    assert '.' !in a by { assert forall x <- a :: x in m; }
    SplitAt(a, b);
    assert a + b == m;
    LeadingZeros(n, digits);
    DecimalRoundTrip(Nearest(c));
  }

  lemma PointIsNoDigit()
    ensures !IsDigit('.')
  {}

  lemma PadDigits(n: nat, s: string)
    requires forall x <- s :: IsDigit(x)
    ensures forall x <- Zeros(n) + s :: IsDigit(x)
  {
    var t := Zeros(n) + s;
    forall i | 0 <= i < |t| ensures IsDigit(t[i]) { if i >= n { assert t[i] == s[i - n] && s[i - n] in s; } }
  }

  lemma ScaledIs(c: real)
    requires 0.0 <= c
    ensures ScaledBigInt(c) == if c < EXPONENTIAL then Nearest(c) else MathRound(c) * SCALE
  {
    if 0.0 < c < EXPONENTIAL { FixedReadsBack(c); }
  }

  // ----- amounts -----

  type Rates = seq<(string, nat)>
  type Amounts = seq<(string, int)>

  // ceil(scaled * rate / SCALE), as the integer division computes it.
  function Ceiling(scaled: int, rate: nat): int { (scaled * rate + SCALE - 1) / SCALE }

  function Amount(coefficient: real, rate: nat): int
    requires 0.0 <= coefficient
  {
    Ceiling(ScaledBigInt(coefficient), rate)
  }

  // An amount for every rate, in the order of the rates.
  ghost predicate Prices(amounts: Amounts, coefficient: real, rates: Rates)
    requires 0.0 <= coefficient
  {
    |amounts| == |rates|
    && forall i :: 0 <= i < |rates| ==> amounts[i] == (rates[i].0, Amount(coefficient, rates[i].1))
  }

  // None: the coefficient is negative and the code throws.
  method BuildResult(coefficient: real, rates: Rates) returns (r: Option<Amounts>)
    ensures r.None? <==> coefficient < 0.0
    ensures r.Some? ==> Prices(r.value, coefficient, rates)
  {
    hide ScaledBigInt;
    if coefficient < 0.0 { return None; }
    var scaled := ScaledBigInt(coefficient);
    var amount: Amounts := [];
    var i := 0;
    while i < |rates|
      invariant i <= |rates| && Prices(amount, coefficient, rates[..i])
    {
      var (assetName, rate) := rates[i];
      amount := amount + [(assetName, (scaled * rate + SCALE - 1) / SCALE)];
      i := i + 1;
    }
    assert rates[..i] == rates;
    return Some(amount);
  }

  // What every double satisfies: from 2^53 on there are no fractions.
  predicate IsDouble(x: real) { x >= EXPONENTIAL ==> x == x.Floor as real }

  // The scaled integer is within one half of the scaled coefficient.
  lemma ScaledError(c: real)
    requires 0.0 <= c && IsDouble(c)
    ensures var s := ScaledBigInt(c) as real; var t := c * SCALE as real;
      t - 0.5 <= s <= t + 0.5 && 0.0 <= s
  {
    ScaledIs(c);
    hide ScaledBigInt;
    if c < EXPONENTIAL { NearestError(c); } else { WholeError(c); }
  }

  lemma NearestError(c: real)
    requires 0.0 <= c
    ensures var s := Nearest(c) as real; var t := c * SCALE as real;
      t - 0.5 <= s <= t + 0.5 && 0.0 <= s
  {}

  lemma WholeError(c: real)
    requires 0.0 <= c && c == c.Floor as real
    ensures (MathRound(c) * SCALE) as real == c * SCALE as real && MathRound(c) >= 0
  {
    Rounded(c.Floor);
    ScaledWhole(c.Floor);
  }

  lemma Rounded(n: int)
    ensures MathRound(n as real) == n
  {}

  lemma ScaledWhole(n: int)
    ensures (n * SCALE) as real == n as real * SCALE as real
  {}

  // Order and multiplication; the products are named by the caller.
  lemma Scale(x: real, y: real, k: real, xk: real, yk: real)
    requires x <= y && 0.0 <= k && xk == x * k && yk == y * k
    ensures xk <= yk
  {
    assert (y - x) * k >= 0.0;
  }

  lemma Unscale(x: real, y: real, k: real, xk: real, yk: real)
    requires 0.0 < k && xk == x * k && yk == y * k
    ensures xk <= yk ==> x <= y
    ensures xk < yk ==> x < y
  {
    if y < x { assert (x - y) * k > 0.0; }
  }

  lemma MulBounds(s: real, t: real, r: real, sr: real, tr: real)
    requires 0.0 <= r && t - 0.5 <= s <= t + 0.5 && sr == s * r && tr == t * r
    ensures tr - 0.5 * r <= sr <= tr + 0.5 * r
  {
    Scale(t - 0.5, s, r, tr - 0.5 * r, sr);
    Scale(s, t + 0.5, r, sr, tr + 0.5 * r);
  }

  lemma CeilingBounds(scaled: int, rate: nat)
    requires 0 <= scaled
    ensures scaled * rate <= Ceiling(scaled, rate) * SCALE < scaled * rate + SCALE
  {
    var n := scaled * rate + SCALE - 1;
    assert n == SCALE * (n / SCALE) + n % SCALE;
  }

  // The amount is within half a step of the scale, times the rate, of the exact
  // price, rounded up.
  lemma AmountBounds(c: real, rate: nat)
    requires 0.0 <= c && IsDouble(c)
    ensures var a := Amount(c, rate) as real; var r := rate as real; var half := r / (2 * SCALE) as real;
      c * r - half <= a < c * r + half + 1.0
  {
    hide ScaledBigInt;
    ScaledError(c);
    var s := ScaledBigInt(c);
    CeilingBounds(s, rate);
    Rescale(c, s, rate, Amount(c, rate));
  }

  lemma Rescale(c: real, s: int, rate: nat, a: int)
    requires c * SCALE as real - 0.5 <= s as real <= c * SCALE as real + 0.5
    requires s * rate <= a * SCALE < s * rate + SCALE
    ensures var r := rate as real; var half := r / (2 * SCALE) as real;
      c * r - half <= a as real < c * r + half + 1.0
  {
    var k, r := SCALE as real, rate as real;
    var u, v, t := s as real * r, a as real * k, (c * k) * r;
    InReals(s, rate, a);
    HalfStep(r);
    MulBounds(s as real, c * k, r, u, t);
    Steps(c * r, a as real, k, r / (2 * SCALE) as real, t, u, v, 0.5 * r);
  }

  lemma InReals(s: int, rate: nat, a: int)
    requires s * rate <= a * SCALE < s * rate + SCALE
    ensures s as real * rate as real <= a as real * SCALE as real < s as real * rate as real + SCALE as real
  {
    var m, n := s * rate, a * SCALE;
    assert m as real == s as real * rate as real;
    assert n as real == a as real * SCALE as real;
    assert m as real <= n as real < (m + SCALE) as real == m as real + SCALE as real;
  }

  // t is the scaled exact price p, u the scaled price charged for, v the scaled
  // amount a, and h the scaled half step.
  lemma Steps(p: real, a: real, k: real, half: real, t: real, u: real, v: real, h: real)
    requires 0.0 < k && t == p * k && v == a * k && h == half * k
    requires t - h <= u <= t + h && u <= v < u + k
    ensures p - half <= a < p + half + 1.0
  {
    var low, high := p - half, p + half + 1.0;
    assert low * k == t - h && high * k == t + h + k;
    Unscale(low, a, k, t - h, v);
    Unscale(a, high, k, v, t + h + k);
  }

  lemma HalfStep(r: real)
    ensures r / (2 * SCALE) as real * SCALE as real == 0.5 * r
  {
    assert (2 * SCALE) as real == 2.0 * SCALE as real;
  }

  // A coefficient with at most fifteen decimals is scaled exactly.
  lemma ScaledExactly(c: real)
    requires 0.0 <= c && IsDouble(c) && (c * SCALE as real).Floor as real == c * SCALE as real
    ensures ScaledBigInt(c) as real == c * SCALE as real && ScaledBigInt(c) >= 0
  {
    hide ScaledBigInt;
    ScaledError(c);
    var t := c * SCALE as real;
    SameInteger(ScaledBigInt(c), t.Floor);
  }

  lemma SameInteger(s: int, t: int)
    requires t as real - 0.5 <= s as real <= t as real + 0.5
    ensures s == t
  {}

  // A coefficient with at most fifteen decimals is priced exactly, rounded up.
  lemma ExactCoefficient(c: real, rate: nat)
    requires 0.0 <= c && IsDouble(c) && (c * SCALE as real).Floor as real == c * SCALE as real
    ensures var a := Amount(c, rate) as real; var price := c * rate as real;
      price <= a < price + 1.0
  {
    hide ScaledBigInt, IsDouble;
    ScaledExactly(c);
    var s := ScaledBigInt(c);
    CeilingBounds(s, rate);
    var k := SCALE as real;
    var r := rate as real;
    var a := Amount(c, rate);
    InReals(s, rate, a);
    var t, v := (c * r) * k, a as real * k;
    assert s as real * r == t;
    Unscale(c * r, a as real, k, t, v);
    Unscale(a as real, c * r + 1.0, k, v, t + k);
  }

  lemma ScaledMonotone(c: real, d: real)
    requires 0.0 <= c <= d
    ensures 0 <= ScaledBigInt(c) <= ScaledBigInt(d)
  {
    hide ScaledBigInt;
    ScaledIs(c);
    ScaledIs(d);
    if c < EXPONENTIAL <= d {
      assert Nearest(c) <= 1_000_000_000_000_000_000_000 * SCALE;
      assert 1_000_000_000_000_000_000_000 <= MathRound(d);
    }
  }

  // More coefficient or a higher rate never costs less, also across the two
  // notations of the coefficient's text.
  lemma AmountMonotone(c: real, d: real, rate: nat, higher: nat)
    requires 0.0 <= c <= d && rate <= higher
    ensures 0 <= Amount(c, rate) <= Amount(d, higher)
  {
    hide ScaledBigInt;
    ScaledMonotone(c, d);
    var s, t := ScaledBigInt(c), ScaledBigInt(d);
    assert s * rate <= t * higher by { assert s * rate <= t * rate <= t * higher; }
    CeilingMonotone(s * rate, t * higher);
  }

  lemma CeilingMonotone(m: int, n: int)
    requires 0 <= m <= n
    ensures 0 <= (m + SCALE - 1) / SCALE <= (n + SCALE - 1) / SCALE
  {}

  // ----- the choice of the rule -----

  datatype Rule = Rule(match_: string, authorize: Option<string>, capture: string)

  datatype Phase = Authorize | Capture

  // Whether a match expression selects anything in the request. The response is
  // no part of what it sees, in either phase.
  type Matcher = string -> bool

  // What an expression evaluates to in the context of the phase.
  type Pricer = string -> Rewrite.Outcome

  datatype Priced =
    | Unmatched
    | NoExpression
    | Priced(rule: nat, coefficient: real, amounts: Amounts, hasAuthorize: bool)
    | Thrown

  function FirstMatch(rules: seq<Rule>, i: nat, matches: Matcher): (r: Option<nat>)
    requires i <= |rules|
    ensures r.Some? ==> i <= r.value < |rules| && matches(rules[r.value].match_)
    ensures forall j :: i <= j < (if r.Some? then r.value else |rules|) ==> !matches(rules[j].match_)
    decreases |rules| - i
  {
    if i == |rules| then None
    else if matches(rules[i].match_) then Some(i)
    else FirstMatch(rules, i + 1, matches)
  }

  // The expression of the rule that the phase evaluates; "" when there is none.
  function Expression(rule: Rule, phase: Phase): string {
    if phase == Capture then rule.capture
    else if rule.authorize.None? || rule.authorize.value == "" then rule.capture
    else rule.authorize.value
  }

  // The result of the phase: the first rule that matches is priced by its
  // expression, and an expression that fails or is negative throws.
  ghost predicate IsPriceOf(p: Priced, rules: seq<Rule>, rates: Rates, phase: Phase, matches: Matcher, value: Pricer) {
    var i := FirstMatch(rules, 0, matches);
    if i.None? then p == Unmatched
    else
      var expr := Expression(rules[i.value], phase);
      if expr == "" then p == NoExpression
      else
        var o := value(expr);
        if !o.Coefficient? || o.x < 0.0 then p == Thrown
        else p.Priced? && p.rule == i.value && p.coefficient == o.x && Prices(p.amounts, o.x, rates)
             && p.hasAuthorize == (phase == Authorize && rules[i.value].authorize.Some?)
  }

  method EvaluateRules(rules: seq<Rule>, rates: Rates, phase: Phase, matches: Matcher, value: Pricer)
    returns (p: Priced)
    ensures IsPriceOf(p, rules, rates, phase, matches, value)
  {
    hide Amount;
    var i := 0;
    while i < |rules|
      invariant i <= |rules|
      invariant FirstMatch(rules, 0, matches) == FirstMatch(rules, i, matches)
    {
      var rule := rules[i];
      if matches(rule.match_) {
        var expr := if phase == Authorize then (if rule.authorize.Some? then rule.authorize.value else "") else rule.capture;
        if expr == "" && phase == Authorize { expr := rule.capture; }
        if expr == "" { return NoExpression; }
        var o := value(expr);
        if !o.Coefficient? { return Thrown; }
        var amounts := BuildResult(o.x, rates);
        if amounts.None? { return Thrown; }
        return Priced(i, o.x, amounts.value, phase == Authorize && rule.authorize.Some?);
      }
      i := i + 1;
    }
    return Unmatched;
  }

  // What p is when rule i is priced by the expression expr.
  ghost predicate PricedBy(p: Priced, i: nat, expr: string, rates: Rates, value: Pricer) {
    if expr == "" then p == NoExpression
    else
      var o := value(expr);
      if !o.Coefficient? || o.x < 0.0 then p == Thrown
      else
        && p.Priced? && p.rule == i && p.coefficient == o.x && |p.amounts| == |rates|
        && forall k :: 0 <= k < |rates| ==> p.amounts[k] == (rates[k].0, Amount(o.x, rates[k].1))
  }

  // The first rule that matches prices both phases: the capture by its capture
  // expression, and the request by its authorize expression or, if that is absent
  // or empty, by its capture expression too. Without one, nothing is priced.
  lemma PhaseExpression(p: Priced, rules: seq<Rule>, rates: Rates, phase: Phase, matches: Matcher, value: Pricer, i: nat)
    requires IsPriceOf(p, rules, rates, phase, matches, value)
    requires i < |rules| && matches(rules[i].match_) && forall j :: 0 <= j < i ==> !matches(rules[j].match_)
    ensures phase == Capture ==> PricedBy(p, i, rules[i].capture, rates, value)
    ensures phase == Authorize ==>
      var own := rules[i].authorize;
      PricedBy(p, i, if own.Some? && own.value != "" then own.value else rules[i].capture, rates, value)
    ensures p.Priced? ==> (p.hasAuthorize <==> phase == Authorize && rules[i].authorize.Some?)
  {
    hide Amount, FirstMatch;
    assert FirstMatch(rules, 0, matches) == Some(i);
  }

  lemma UnmatchedIff(p: Priced, rules: seq<Rule>, rates: Rates, phase: Phase, matches: Matcher, value: Pricer)
    requires IsPriceOf(p, rules, rates, phase, matches, value)
    ensures p.Unmatched? <==> forall j :: 0 <= j < |rules| ==> !matches(rules[j].match_)
  {
    hide Amount, FirstMatch;
  }

  // Both phases of a request price the same rule, and a capture whose
  // coefficient is no larger than the authorised one costs no more in any asset.
  lemma CaptureWithinAuthorization(a: Priced, c: Priced, rules: seq<Rule>, rates: Rates, matches: Matcher,
                                   before: Pricer, later: Pricer)
    requires IsPriceOf(a, rules, rates, Authorize, matches, before)
    requires IsPriceOf(c, rules, rates, Capture, matches, later)
    ensures a.Unmatched? <==> c.Unmatched?
    ensures a.Priced? && c.Priced? ==> a.rule == c.rule && |a.amounts| == |c.amounts|
    ensures a.Priced? && c.Priced? && c.coefficient <= a.coefficient ==>
      forall i :: 0 <= i < |c.amounts| ==>
        c.amounts[i].0 == a.amounts[i].0 && 0 <= c.amounts[i].1 <= a.amounts[i].1
  {
    hide Amount, FirstMatch;
    if a.Priced? && c.Priced? && c.coefficient <= a.coefficient {
      forall i | 0 <= i < |c.amounts|
        ensures c.amounts[i].0 == a.amounts[i].0 && 0 <= c.amounts[i].1 <= a.amounts[i].1
      {
        AmountMonotone(c.coefficient, a.coefficient, rates[i].1, rates[i].1);
      }
    }
  }

  // An amount is zero exactly when the rate is, or the coefficient rounds to zero.
  lemma ZeroAmount(c: real, rate: nat)
    requires 0.0 <= c
    ensures Amount(c, rate) == 0 <==> rate == 0 || c * SCALE as real < 0.5
  {
    hide ScaledBigInt;
    ScaledIs(c);
    var s := ScaledBigInt(c);
    assert s == 0 <==> c * SCALE as real < 0.5;
    ScaledMonotone(c, c);
    CeilingBounds(s, rate);
    if s > 0 && rate > 0 { assert s * rate > 0; }
  }
}
