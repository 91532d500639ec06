// The two-phase payment gateway (packages/middleware-openapi/src/handler.ts),
// its protocol dispatch (packages/middleware/src/common.ts) and the retry
// contract of /response (apps/sidecar/src/app.ts).
module Gateway {
  import opened Text
  import opened PricingAmount

  // ----- prices -----

  datatype Asset = Asset(chain: string, token: string, recipient: string)
  datatype Pricing = Pricing(amount: int, token: string, chain: string, recipient: string, description: string)

  // Zero amounts and unknown assets carry no price.
  function ToPricing(amounts: Amounts, assets: map<string, Asset>): seq<Pricing> {
    if amounts == [] then []
    else
      var (name, qty) := amounts[0];
      (if qty == 0 || name !in assets then []
       else [Pricing(qty, assets[name].token, assets[name].chain, assets[name].recipient, name)])
      + ToPricing(amounts[1..], assets)
  }

  function AmountsOf(p: Priced): Amounts { if p.Priced? then p.amounts else [] }

  predicate HasAuthorize(p: Priced) { p.Priced? && p.hasAuthorize }

  // What the rate keys of a loaded specification satisfy (validateRateKeys).
  predicate KnownAssets(p: Priced, assets: map<string, Asset>) {
    forall a <- AmountsOf(p) :: a.0 in assets && a.1 >= 0
  }

  // ----- dispatch -----

  datatype Protocol = V1 | V2 | Mpp

  // The gateway: which handlers it has, which x402 versions it speaks, which
  // MPP methods have a handler that can verify.
  datatype Config = Config(x402: bool, mpp: bool, v1: bool, v2: bool, verifies: set<string>,
                           assets: map<string, Asset>, onAuthorize: bool, onCapture: bool)

  datatype Credential = Credential(method_: string, digest: Option<string>)

  // What the headers and the body of the client's request present.
  datatype Request = Request(credential: Option<Credential>, payment: Option<Protocol>, bodyDigest: Option<string>)

  // The answer of a facilitator to one call; Crash: the call throws.
  datatype Call = Done | Refused | Crash

  // What the outside world does while one phase is handled: whether resolving
  // the x402 requirements works, whether one matches the payment, and how the
  // facilitator answers.
  datatype World = World(resolves: bool, matched: bool, verify: Call, settle: Call)

  datatype Route = Throw | Reply(status: nat) | Handle(protocol: Protocol, canVerify: bool)

  function Dispatch(cfg: Config, rq: Request, w: World): Route {
    if cfg.x402 && !w.resolves then Throw
    else if cfg.mpp && rq.credential.Some? then
      var cred := rq.credential.value;
      if cred.digest != rq.bodyDigest then Reply(402)
      else Handle(Mpp, cred.method_ in cfg.verifies)
    else if rq.payment.None? || rq.payment.value == Mpp then Reply(402)
    else if (if rq.payment.value == V2 then !cfg.v2 else !cfg.v1) then Reply(400)
    else if !cfg.x402 then Reply(400)
    else if !w.matched then Reply(402)
    else Handle(rq.payment.value, true)
  }

  // ----- one phase -----

  datatype Phase = AtRequest | AtResponse

  datatype Settlement = Settlement(phase: Phase, pricing: seq<Pricing>)
  datatype Report = Report(phase: Phase, settled: bool, amount: Amounts)

  // Status of the reply; None: the handler throws.
  datatype Step = Step(status: Option<nat>, settlements: seq<Settlement>, reports: seq<Report>, authorized: bool)

  function Plain(status: nat): Step { Step(Some(status), [], [], false) }
  const THROWN := Step(None, [], [], false)

  // A payment is verified now and settled later, if that is possible at all.
  predicate Defers(a: Priced, canVerify: bool) { HasAuthorize(a) && canVerify }

  function RequestStep(cfg: Config, rq: Request, a: Priced, w: World): Step {
    var pricing := ToPricing(AmountsOf(a), cfg.assets);
    if a.Thrown? then THROWN
    else if pricing == [] then Plain(200)
    else
      match Dispatch(cfg, rq, w)
      case Throw => THROWN
      case Reply(status) => Plain(status)
      case Handle(_, canVerify) =>
        var call := if Defers(a, canVerify) then w.verify else w.settle;
        if call == Crash then THROWN
        else if call == Refused then Plain(402)
        else if Defers(a, canVerify) then Step(Some(200), [], [], cfg.onAuthorize)
        else
          Step(Some(200), [Settlement(AtRequest, pricing)],
               if cfg.onCapture then [Report(AtRequest, true, AmountsOf(a))] else [], false)
  }

  predicate HasCaptureAmount(amounts: Amounts) { exists a <- amounts :: a.1 > 0 }

  // The reply and the report of a response phase that has to settle.
  function Capture(cfg: Config, c: Priced, settled: bool, failed: bool, settlements: seq<Settlement>): Step {
    var report := cfg.onCapture && HasCaptureAmount(AmountsOf(c)) && (settled || failed);
    Step(Some(if settled then 200 else 500), settlements,
         if report then [Report(AtResponse, settled, AmountsOf(c))] else [], false)
  }

  function ResponseStep(cfg: Config, rq: Request, a: Priced, c: Priced, w: World): Step {
    var pricing := ToPricing(AmountsOf(c), cfg.assets);
    if c.Thrown? || a.Thrown? then THROWN
    else if a.Unmatched? || !HasAuthorize(a) then Plain(200)
    else if pricing == [] then Capture(cfg, c, true, false, [])
    else
      match Dispatch(cfg, rq, w)
      case Throw => THROWN
      case Reply(_) => Capture(cfg, c, false, false, [])
      case Handle(protocol, canVerify) =>
        if protocol == Mpp && !canVerify then Plain(200)
        else if w.settle == Crash then THROWN
        else Capture(cfg, c, w.settle == Done, w.settle == Refused,
                     if w.settle == Done then [Settlement(AtResponse, pricing)] else [])
  }

  // The handler object. The logs belong to the outside: what the facilitators
  // settled, what onCapture was told, how often onAuthorize was called.
  class Handler {
    const cfg: Config
    var settlements: seq<Settlement>
    var reports: seq<Report>
    var authorizations: nat

    constructor (cfg: Config)
      ensures this.cfg == cfg && settlements == [] && reports == [] && authorizations == 0
    {
      this.cfg := cfg;
      settlements, reports, authorizations := [], [], 0;
    }

    // What a step adds to the logs.
    twostate predicate Logs(s: Step)
      reads this
    {
      && settlements == old(settlements) + s.settlements
      && reports == old(reports) + s.reports
      && authorizations == old(authorizations) + (if s.authorized then 1 else 0)
    }

    method Settle(phase: Phase, pricing: seq<Pricing>, call: Call)
      modifies this`settlements
      ensures settlements == old(settlements) + if call == Done then [Settlement(phase, pricing)] else []
    {
      if call == Done { settlements := settlements + [Settlement(phase, pricing)]; }
    }

    method HandleRequest(rq: Request, a: Priced, w: World) returns (status: Option<nat>)
      modifies this
      ensures status == RequestStep(cfg, rq, a, w).status && Logs(RequestStep(cfg, rq, a, w))
    {
      if a.Thrown? { return None; }
      var pricing := ToPricing(AmountsOf(a), cfg.assets);
      if a.Unmatched? || pricing == [] { return Some(200); }
      var settledAtRequest, authorized := false, false;
      match Dispatch(cfg, rq, w) {
        case Throw => return None;
        case Reply(s) => return Some(s);
        case Handle(_, canVerify) =>
          if HasAuthorize(a) && canVerify {
            if w.verify == Crash { return None; }
            if w.verify == Refused { return Some(402); }
            authorized := true;
          } else {
            Settle(AtRequest, pricing, w.settle);
            if w.settle == Crash { return None; }
            if w.settle == Refused { return Some(402); }
            settledAtRequest := true;
          }
      }
      if cfg.onAuthorize && authorized { authorizations := authorizations + 1; }
      if cfg.onCapture && settledAtRequest { reports := reports + [Report(AtRequest, true, AmountsOf(a))]; }
      return Some(200);
    }

    method HandleResponse(rq: Request, a: Priced, c: Priced, w: World) returns (status: Option<nat>)
      modifies this
      ensures status == ResponseStep(cfg, rq, a, c, w).status && Logs(ResponseStep(cfg, rq, a, c, w))
    {
      if c.Thrown? || a.Thrown? { return None; }
      if a.Unmatched? { return Some(200); }
      var paymentSettled, settlementError, alreadySettledAtRequest := false, false, false;
      if HasAuthorize(a) {
        var pricing := ToPricing(AmountsOf(c), cfg.assets);
        if pricing == [] {
          paymentSettled := true;
        } else {
          match Dispatch(cfg, rq, w) {
            case Throw => return None;
            case Reply(_) =>
            case Handle(protocol, canVerify) =>
              if protocol == Mpp && !canVerify {
                alreadySettledAtRequest := true;
              } else {
                Settle(AtResponse, pricing, w.settle);
                if w.settle == Crash { return None; }
                paymentSettled := w.settle == Done;
                settlementError := w.settle == Refused;
              }
          }
        }
      }
      if !HasAuthorize(a) || alreadySettledAtRequest { return Some(200); }
      var hasCaptureAmount := AnyPositive(AmountsOf(c));
      var settlementAttempted := paymentSettled || settlementError;
      if cfg.onCapture && hasCaptureAmount && settlementAttempted {
        reports := reports + [Report(AtResponse, paymentSettled, AmountsOf(c))];
      }
      return Some(if paymentSettled then 200 else 500);
    }

    method AnyPositive(amounts: Amounts) returns (found: bool)
      ensures found == HasCaptureAmount(amounts)
    {
      found := exists a <- amounts :: a.1 > 0;
    }
  }

  // ----- runs -----

  // What reaches the /response route.
  datatype Arrival = Malformed | Invalid | Valid(w: World)

  predicate IsSuccess(status: nat) { 200 <= status < 300 }

  // The transport status of /response: every failure is outside 2xx, so that the
  // gateway keeps the capture and tries again.
  function ResponseStatus(m: Arrival, s: Step): nat {
    if !m.Valid? then 500 else if s.status.None? then 422 else s.status.value
  }

  function Attempt(cfg: Config, rq: Request, a: Priced, c: Priced, m: Arrival): Step {
    if m.Valid? then ResponseStep(cfg, rq, a, c, m.w) else THROWN
  }

  // The attempts made: one after the other, up to the first that is answered 2xx.
  function Attempts(cfg: Config, rq: Request, a: Priced, c: Priced, ms: seq<Arrival>): seq<Step> {
    if ms == [] then []
    else
      var s := Attempt(cfg, rq, a, c, ms[0]);
      if IsSuccess(ResponseStatus(ms[0], s)) then [s] else [s] + Attempts(cfg, rq, a, c, ms[1..])
  }

  function SettledBy(steps: seq<Step>): seq<Settlement> {
    if steps == [] then [] else steps[0].settlements + SettledBy(steps[1..])
  }

  function ReportedBy(steps: seq<Step>): seq<Report> {
    if steps == [] then [] else steps[0].reports + ReportedBy(steps[1..])
  }

  // A run: one request, then its response attempts.
  datatype Run = Run(cfg: Config, rq: Request, a: Priced, c: Priced, w: World, ms: seq<Arrival>) {
    function Request(): Step { RequestStep(cfg, rq, a, w) }

    function Steps(): seq<Step> { [Request()] + Attempts(cfg, rq, a, c, ms) }

    function Settled(): seq<Settlement> { SettledBy(Steps()) }

    // Both phases ended in 200: the request, and the last response attempt.
    predicate Completed() {
      var tries := Attempts(cfg, rq, a, c, ms);
      Request().status == Some(200) && tries != [] && tries[|tries| - 1].status == Some(200)
    }

    function AuthorizePricing(): seq<Pricing> { ToPricing(AmountsOf(a), cfg.assets) }

    function CapturePricing(): seq<Pricing> { ToPricing(AmountsOf(c), cfg.assets) }

    // The client pays with an MPP method that no handler can verify.
    predicate MppWithoutVerify() {
      cfg.mpp && rq.credential.Some? && rq.credential.value.method_ !in cfg.verifies
    }
  }

  // ----- what every run keeps -----

  // A response attempt settles at most once, and only if it is answered 200.
  lemma AttemptSettles(r: Run, m: Arrival)
    ensures var s := Attempt(r.cfg, r.rq, r.a, r.c, m);
      && |s.settlements| <= 1
      && (s.settlements != [] ==>
            s.status == Some(200) && HasAuthorize(r.a) && !r.MppWithoutVerify()
            && s.settlements == [Settlement(AtResponse, r.CapturePricing())])
  {}

  lemma {:induction false} AttemptsSettle(r: Run)
    ensures var settled := SettledBy(Attempts(r.cfg, r.rq, r.a, r.c, r.ms));
      && |settled| <= 1
      && (settled != [] ==> HasAuthorize(r.a) && !r.MppWithoutVerify()
                            && settled == [Settlement(AtResponse, r.CapturePricing())])
    decreases |r.ms|
  {
    if r.ms != [] {
      AttemptSettles(r, r.ms[0]);
      AttemptsSettle(r.(ms := r.ms[1..]));
    }
  }

  // The request settles at once when it cannot verify first.
  lemma RequestSettles(r: Run)
    ensures r.Request().settlements != [] ==>
      && r.Request().settlements == [Settlement(AtRequest, r.AuthorizePricing())]
      && (HasAuthorize(r.a) ==> r.MppWithoutVerify())
  {}

  // Over one request and any number of retried responses, at most one payment is
  // settled: what was authorised at the request, or what was captured at the
  // response.
  lemma AtMostOneSettlement(r: Run)
    ensures |r.Settled()| <= 1
    ensures r.Settled() == [] || r.Settled() == [Settlement(AtRequest, r.AuthorizePricing())]
         || (r.Settled() == [Settlement(AtResponse, r.CapturePricing())] && HasAuthorize(r.a))
  {
    AttemptsSettle(r);
    RequestSettles(r);
  }

  // ----- completed runs -----

  // Whether a completed run settled at its request, or at its response.
  predicate SettlesFirst(r: Run) {
    r.AuthorizePricing() != [] && (!HasAuthorize(r.a) || r.MppWithoutVerify())
  }

  predicate SettlesLast(r: Run) {
    r.CapturePricing() != [] && HasAuthorize(r.a) && !r.MppWithoutVerify()
  }

  lemma RequestCompleted(r: Run)
    requires r.Request().status == Some(200)
    ensures r.Request().settlements ==
            if SettlesFirst(r) then [Settlement(AtRequest, r.AuthorizePricing())] else []
  {}

  // An attempt answered 200 has settled what there was to settle.
  lemma AttemptCompleted(r: Run, m: Arrival)
    ensures var s := Attempt(r.cfg, r.rq, r.a, r.c, m);
      IsSuccess(ResponseStatus(m, s)) ==>
        s.status == Some(200)
        && s.settlements == if SettlesLast(r) then [Settlement(AtResponse, r.CapturePricing())] else []
  {}

  lemma {:induction false} AttemptsCompleted(r: Run)
    requires var tries := Attempts(r.cfg, r.rq, r.a, r.c, r.ms);
      tries != [] && tries[|tries| - 1].status == Some(200)
    ensures SettledBy(Attempts(r.cfg, r.rq, r.a, r.c, r.ms)) ==
            if SettlesLast(r) then [Settlement(AtResponse, r.CapturePricing())] else []
    decreases |r.ms|
  {
    var tries := Attempts(r.cfg, r.rq, r.a, r.c, r.ms);
    AttemptCompleted(r, r.ms[0]);
    AttemptSettles(r, r.ms[0]);
    if |tries| == 1 {
      assert SettledBy(tries[1..]) == [];
    } else {
      var rest := r.(ms := r.ms[1..]);
      assert tries[1..] == Attempts(r.cfg, r.rq, r.a, r.c, rest.ms);
      AttemptsCompleted(rest);
    }
  }

  // Exactly what a completed run has settled.
  lemma CompletedRun(r: Run)
    requires r.Completed()
    ensures r.Settled() ==
            (if SettlesFirst(r) then [Settlement(AtRequest, r.AuthorizePricing())] else [])
            + (if SettlesLast(r) then [Settlement(AtResponse, r.CapturePricing())] else [])
  {
    RequestCompleted(r);
    AttemptsCompleted(r);
    assert r.Steps()[1..] == Attempts(r.cfg, r.rq, r.a, r.c, r.ms);
  }

  // When both prices are non-zero and both phases end in 200, exactly one payment
  // is settled, whatever the protocol and whether or not it can verify.
  lemma ExactlyOneSettlement(r: Run)
    requires r.Completed() && r.AuthorizePricing() != [] && r.CapturePricing() != []
    ensures |r.Settled()| == 1
  {
    CompletedRun(r);
  }

  // Without a price to authorise, a completed run with a price to capture is paid
  // exactly when it is a two-phase rule whose payment can be verified.
  lemma ZeroAuthorization(r: Run)
    requires r.Completed() && r.AuthorizePricing() == [] && r.CapturePricing() != []
    ensures |r.Settled()| == 1 <==> HasAuthorize(r.a) && !r.MppWithoutVerify()
  {
    CompletedRun(r);
  }

  // A run that completes unpaid although there is a price to capture: authorised
  // at zero, paid with an MPP method whose handler cannot verify.
  lemma ZeroAuthorizationUnpaid() returns (r: Run)
    ensures r.Completed() && HasAuthorize(r.a) && r.CapturePricing() != [] && r.Settled() == []
  {
    var cfg := Config(false, true, false, false, {}, map["usdc" := Asset("c", "t", "p")], true, true);
    var rq := Request(Some(Credential("m", None)), None, None);
    var w := World(true, true, Done, Done);
    var a := Priced(0, 0.0, [("usdc", 0)], true);
    var c := Priced(0, 1.0, [("usdc", 5)], false);
    r := Run(cfg, rq, a, c, w, [Valid(w)]);
    OnePrice("usdc", 0, cfg.assets);
    OnePrice("usdc", 5, cfg.assets);
    var s := Attempt(cfg, rq, a, c, Valid(w));
    assert s == Plain(200);
    assert Attempts(cfg, rq, a, c, [Valid(w)]) == [s];
    CompletedRun(r);
  }

  lemma OnePrice(name: string, qty: int, assets: map<string, Asset>)
    requires name in assets
    ensures ToPricing([(name, qty)], assets) != [] <==> qty != 0
  {
    assert [(name, qty)][1..] == [];
  }

  // ----- reports -----

  // The reports that say a payment was settled.
  function SettledReports(rs: seq<Report>): seq<Report> {
    if rs == [] then [] else (if rs[0].settled then [rs[0]] else []) + SettledReports(rs[1..])
  }

  lemma {:induction false} PricedOrZero(amounts: Amounts, assets: map<string, Asset>)
    requires forall a <- amounts :: a.0 in assets && a.1 >= 0
    ensures ToPricing(amounts, assets) != [] <==> HasCaptureAmount(amounts)
  {
    if amounts != [] {
      assert amounts == [amounts[0]] + amounts[1..];
      PricedOrZero(amounts[1..], assets);
    }
  }

  // What a phase charges: the authorised amounts, or the captured ones.
  function Charged(r: Run, phase: Phase): Amounts { AmountsOf(if phase == AtRequest then r.a else r.c) }

  // For each settlement the report of its phase and amounts.
  function ReportsFor(r: Run, settled: seq<Settlement>): seq<Report> {
    seq(|settled|, i requires 0 <= i < |settled| => Report(settled[i].phase, true, Charged(r, settled[i].phase)))
  }

  lemma StepReports(r: Run, s: Step, m: Arrival)
    requires KnownAssets(r.a, r.cfg.assets) && KnownAssets(r.c, r.cfg.assets) && r.cfg.onCapture
    requires s == r.Request() || s == Attempt(r.cfg, r.rq, r.a, r.c, m)
    ensures SettledReports(s.reports) == ReportsFor(r, s.settlements)
  {
    PricedOrZero(AmountsOf(r.c), r.cfg.assets);
    if s.reports != [] { assert s.reports[1..] == []; }
  }

  lemma {:induction false} ReportsSum(a: seq<Report>, b: seq<Report>)
    ensures SettledReports(a + b) == SettledReports(a) + SettledReports(b)
    decreases |a|
  {
    if a == [] { assert a + b == b; } else { assert (a + b)[1..] == a[1..] + b; ReportsSum(a[1..], b); }
  }

  lemma ForSum(r: Run, a: seq<Settlement>, b: seq<Settlement>)
    ensures ReportsFor(r, a + b) == ReportsFor(r, a) + ReportsFor(r, b)
  {}

  lemma {:induction false} AttemptsReport(r: Run, ms: seq<Arrival>)
    requires KnownAssets(r.a, r.cfg.assets) && KnownAssets(r.c, r.cfg.assets) && r.cfg.onCapture
    ensures var tries := Attempts(r.cfg, r.rq, r.a, r.c, ms);
      SettledReports(ReportedBy(tries)) == ReportsFor(r, SettledBy(tries))
    decreases |ms|
  {
    hide Attempt, SettledReports, ReportsFor, ResponseStatus, KnownAssets;
    NoReports(r);
    if ms != [] {
      var s := Attempt(r.cfg, r.rq, r.a, r.c, ms[0]);
      StepReports(r, s, ms[0]);
      var rest := if IsSuccess(ResponseStatus(ms[0], s)) then [] else ms[1..];
      AttemptsReport(r, rest);
      var later := Attempts(r.cfg, r.rq, r.a, r.c, rest);
      assert Attempts(r.cfg, r.rq, r.a, r.c, ms) == [s] + later && ([s] + later)[1..] == later;
      ReportsSum(s.reports, ReportedBy(later));
      ForSum(r, s.settlements, SettledBy(later));
    }
  }

  lemma NoReports(r: Run)
    ensures SettledReports([]) == ReportsFor(r, [])
  {}

  // With a hook, and rates only for known assets, the settlements of a run are
  // reported one by one, each with its phase and the amounts whose price was
  // settled, and nothing else is reported as settled.
  lemma SettlementsAreReported(r: Run)
    requires KnownAssets(r.a, r.cfg.assets) && KnownAssets(r.c, r.cfg.assets) && r.cfg.onCapture
    ensures SettledReports(ReportedBy(r.Steps())) == ReportsFor(r, r.Settled())
    ensures forall s <- r.Settled() :: s.pricing == ToPricing(Charged(r, s.phase), r.cfg.assets)
  {
    hide SettledReports, ReportsFor, KnownAssets, Attempts, RequestStep;
    var tries := Attempts(r.cfg, r.rq, r.a, r.c, r.ms);
    StepReports(r, r.Request(), Malformed);
    AttemptsReport(r, r.ms);
    assert r.Steps()[1..] == tries;
    ReportsSum(r.Request().reports, ReportedBy(tries));
    ForSum(r, r.Request().settlements, SettledBy(tries));
    AtMostOneSettlement(r);
  }

  // ----- what a run charges -----

  // The price of some asset in the amounts, and no less.
  ghost predicate Covered(p: Pricing, amounts: Amounts) {
    exists x <- amounts :: x.0 == p.description && 0 < p.amount <= x.1
  }

  lemma {:induction false} PricedWithin(c: Amounts, a: Amounts, assets: map<string, Asset>)
    requires |c| == |a|
    requires forall i :: 0 <= i < |c| ==> c[i].0 == a[i].0 && 0 <= c[i].1 <= a[i].1
    ensures forall p <- ToPricing(c, assets) :: Covered(p, a)
  {
    if c != [] {
      PricedWithin(c[1..], a[1..], assets);
      forall p | p in ToPricing(c, assets) ensures Covered(p, a) {
        if p in ToPricing(c[1..], assets) {
          var x :| x in a[1..] && x.0 == p.description && 0 < p.amount <= x.1;
          assert x in a;
        } else {
          assert a[0] in a;
        }
      }
    }
  }

  // When a capture's coefficient is no larger than the authorised one, no run
  // charges more in any asset than was authorised for it.
  lemma NeverMoreThanAuthorized(r: Run, rules: seq<Rule>, rates: Rates, matches: Matcher, before: Pricer, later: Pricer)
    requires IsPriceOf(r.a, rules, rates, Authorize, matches, before)
    requires IsPriceOf(r.c, rules, rates, PricingAmount.Phase.Capture, matches, later)
    requires r.a.Priced? && r.c.Priced? && r.c.coefficient <= r.a.coefficient
    ensures forall s <- r.Settled() :: forall p <- s.pricing :: Covered(p, r.a.amounts)
  {
    hide Amount, ToPricing, Covered;
    CaptureWithinAuthorization(r.a, r.c, rules, rates, matches, before, later);
    AtMostOneSettlement(r);
    PricedWithin(r.c.amounts, r.a.amounts, r.cfg.assets);
    forall i | 0 <= i < |r.a.amounts| ensures 0 <= r.a.amounts[i].1 {
      AmountMonotone(r.a.coefficient, r.a.coefficient, rates[i].1, rates[i].1);
    }
    PricedWithin(r.a.amounts, r.a.amounts, r.cfg.assets);
  }
}
