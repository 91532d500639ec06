// What the gateway answers, phase by phase: when a payment reaches a handler, and
// what the answer of its facilitator makes of the request and of the response.
module GatewayAnswers {
  import opened Text
  import opened PricingAmount
  import opened Gateway

  // ----- reaching a handler -----

  predicate PaysMpp(cfg: Config, rq: Request) { cfg.mpp && rq.credential.Some? }

  // The payment reaches a handler: an MPP credential made for this very body, or
  // an x402 payment in a version that is spoken and for a requirement that matches.
  predicate Reaches(cfg: Config, rq: Request, w: World) {
    if PaysMpp(cfg, rq) then
      rq.credential.value.digest == rq.bodyDigest && (cfg.x402 ==> w.resolves)
    else
      && cfg.x402 && w.resolves && w.matched
      && ((rq.payment == Some(V1) && cfg.v1) || (rq.payment == Some(V2) && cfg.v2))
  }

  // An x402 payment that nobody here can take, whatever it says.
  predicate Unspoken(cfg: Config, rq: Request) {
    && !PaysMpp(cfg, rq)
    && ((rq.payment == Some(V1) && !(cfg.v1 && cfg.x402)) || (rq.payment == Some(V2) && !(cfg.v2 && cfg.x402)))
  }

  // Who handles which payment, and what is answered when nobody does.
  lemma HandledIff(cfg: Config, rq: Request, w: World)
    ensures var d := Dispatch(cfg, rq, w);
      && (d.Handle? <==> Reaches(cfg, rq, w))
      && (d.Handle? ==>
            && (d.protocol == Mpp <==> PaysMpp(cfg, rq)) && (d.protocol != Mpp ==> rq.payment == Some(d.protocol))
            && (d.canVerify <==> (PaysMpp(cfg, rq) ==> rq.credential.value.method_ in cfg.verifies)))
      && (d.Throw? <==> cfg.x402 && !w.resolves)
      && (d.Reply? ==> d.status == if Unspoken(cfg, rq) then 400 else 402)
  {}

  // ----- the request -----

  // The payment is verified at the request and settled at the response.
  predicate Deferred(r: Run) { HasAuthorize(r.a) && !r.MppWithoutVerify() }

  // Without a price, or without a rule, a request passes and costs nothing.
  lemma FreeRequest(r: Run)
    requires !r.a.Thrown? && r.AuthorizePricing() == []
    ensures r.Request() == Step(Some(200), [], [], false)
  {}

  // An expression that fails makes it throw.
  lemma FailedRequest(r: Run)
    requires r.a.Thrown?
    ensures r.Request() == Step(None, [], [], false)
  {}

  // With a price the answer is that of the facilitator.
  lemma RequestAnswers(r: Run)
    requires !r.a.Thrown? && r.AuthorizePricing() != []
    ensures var s, call := r.Request(), if Deferred(r) then r.w.verify else r.w.settle;
      var reached := Reaches(r.cfg, r.rq, r.w);
      var paid := reached && !Deferred(r) && r.w.settle == Done;
      && (reached ==> s.status == match call case Done => Some(200) case Refused => Some(402) case Crash => None)
      && (!reached && r.cfg.x402 && !r.w.resolves ==> s.status == None)
      && (!reached && (r.cfg.x402 ==> r.w.resolves) ==> s.status == Some(if Unspoken(r.cfg, r.rq) then 400 else 402))
      && s.settlements == (if paid then [Settlement(AtRequest, r.AuthorizePricing())] else [])
      && s.reports == (if paid && r.cfg.onCapture then [Report(AtRequest, true, AmountsOf(r.a))] else [])
      && (s.authorized <==> r.cfg.onAuthorize && reached && Deferred(r) && r.w.verify == Done)
  {
    hide ToPricing;
    HandledIff(r.cfg, r.rq, r.w);
  }

  // A request that has a price and passes is paid, or was verified, and its
  // payment reached a handler.
  lemma AdmittedIsPaidOrVerified(r: Run)
    requires r.Request().status == Some(200) && r.AuthorizePricing() != []
    ensures Reaches(r.cfg, r.rq, r.w)
    ensures if Deferred(r) then r.w.verify == Done && r.Request().settlements == []
            else r.w.settle == Done && r.Request().settlements == [Settlement(AtRequest, r.AuthorizePricing())]
  {
    hide ToPricing;
    RequestAnswers(r);
  }

  // The hook is told of an authorization only if it was given.
  lemma AuthorizedWasVerified(r: Run)
    requires r.Request().authorized
    ensures r.w.verify == Done && Reaches(r.cfg, r.rq, r.w) && Deferred(r) && r.Request().status == Some(200)
  {
    hide ToPricing;
    if r.AuthorizePricing() == [] { FreeRequest(r); } else { RequestAnswers(r); }
  }

  // ----- the response -----

  // There is something to settle at the response.
  predicate Due(r: Run) { Deferred(r) && r.CapturePricing() != [] }

  predicate Evaluated(r: Run) { !r.a.Thrown? && !r.c.Thrown? }

  // An attempt with nothing to settle passes; nothing is settled twice.
  lemma NothingDue(r: Run, w: World)
    requires Evaluated(r) && !HasAuthorize(r.a)
    ensures Attempt(r.cfg, r.rq, r.a, r.c, Valid(w)) == Step(Some(200), [], [], false)
  {}

  // An attempt for a two-phase rule is answered as its facilitator answers, and
  // what it did is reported, settled or not, if it had an amount.
  lemma AttemptAnswers(r: Run, w: World)
    requires Evaluated(r) && Due(r)
    ensures var s := Attempt(r.cfg, r.rq, r.a, r.c, Valid(w));
      var reached := Reaches(r.cfg, r.rq, w);
      && (reached ==> s.status == match w.settle case Done => Some(200) case Refused => Some(500) case Crash => None)
      && (!reached ==> s.status == if r.cfg.x402 && !w.resolves then None else Some(500))
      && s.settlements == (if reached && w.settle == Done then [Settlement(AtResponse, r.CapturePricing())] else [])
      && s.reports == (if reached && w.settle != Crash && r.cfg.onCapture && HasCaptureAmount(AmountsOf(r.c))
                       then [Report(AtResponse, w.settle == Done, AmountsOf(r.c))] else [])
      && !s.authorized
  {
    hide ToPricing, HasCaptureAmount;
    HandledIff(r.cfg, r.rq, w);
  }

  // With a price of zero an attempt passes without asking anyone; a payment that
  // cannot be verified was settled at the request.
  lemma AttemptPasses(r: Run, w: World)
    requires Evaluated(r) && HasAuthorize(r.a)
    requires r.CapturePricing() == [] || (r.MppWithoutVerify() && Reaches(r.cfg, r.rq, w))
    ensures var s := Attempt(r.cfg, r.rq, r.a, r.c, Valid(w));
      s.status == Some(200) && s.settlements == []
  {
    hide ToPricing, HasCaptureAmount;
    HandledIff(r.cfg, r.rq, w);
  }

  // An expression that fails, in either phase, makes the attempt throw.
  lemma FailedAttempt(r: Run, w: World)
    requires !Evaluated(r)
    ensures Attempt(r.cfg, r.rq, r.a, r.c, Valid(w)) == Step(None, [], [], false)
  {}

  // ----- runs -----

  // What is settled at the response was verified at the request, if the
  // authorised price is not zero.
  lemma CaptureWasVerified(r: Run)
    requires r.Completed() && r.AuthorizePricing() != []
    requires exists s <- r.Settled() :: s.phase == AtResponse
    ensures r.w.verify == Done && Deferred(r) && Reaches(r.cfg, r.rq, r.w)
  {
    hide ToPricing;
    CompletedRun(r);
    AdmittedIsPaidOrVerified(r);
  }

  // If any of the attempts could be settled, the payment is: by that attempt, or
  // by one before it.
  lemma {:induction false} AttemptCaptures(r: Run, k: nat)
    requires Evaluated(r) && Due(r) && k < |r.ms| && r.ms[k].Valid?
    requires Reaches(r.cfg, r.rq, r.ms[k].w) && r.ms[k].w.settle == Done
    ensures SettledBy(Attempts(r.cfg, r.rq, r.a, r.c, r.ms)) == [Settlement(AtResponse, r.CapturePricing())]
    decreases k
  {
    hide ToPricing, Attempt;
    var s := Attempt(r.cfg, r.rq, r.a, r.c, r.ms[0]);
    AttemptCompleted(r, r.ms[0]);
    FailedSettlesNothing(r, r.ms[0]);
    if k == 0 { AttemptAnswers(r, r.ms[0].w); }
    if IsSuccess(ResponseStatus(r.ms[0], s)) {
      assert Attempts(r.cfg, r.rq, r.a, r.c, r.ms) == [s] && SettledBy([s][1..]) == [];
    } else {
      var rest := r.(ms := r.ms[1..]);
      AttemptCaptures(rest, k - 1);
      var later := Attempts(r.cfg, r.rq, r.a, r.c, rest.ms);
      assert ([s] + later)[1..] == later;
    }
  }

  lemma FailedSettlesNothing(r: Run, m: Arrival)
    ensures var s := Attempt(r.cfg, r.rq, r.a, r.c, m); !IsSuccess(ResponseStatus(m, s)) ==> s.settlements == []
  {
    hide ToPricing;
    AttemptSettles(r, m);
  }

  lemma PaymentIsCaptured(r: Run, k: nat)
    requires Evaluated(r) && Due(r) && k < |r.ms| && r.ms[k].Valid?
    requires Reaches(r.cfg, r.rq, r.ms[k].w) && r.ms[k].w.settle == Done
    ensures r.Settled() == [Settlement(AtResponse, r.CapturePricing())]
  {
    hide ToPricing;
    AttemptCaptures(r, k);
    RequestSettles(r);
    assert r.Steps()[1..] == Attempts(r.cfg, r.rq, r.a, r.c, r.ms);
  }

  // ----- prices -----

  // The price of an amount: its asset's token, chain and recipient.
  predicate IsPriceIn(p: Pricing, amount: (string, int), assets: map<string, Asset>) {
    && amount.0 in assets
    && p.description == amount.0 && p.amount == amount.1 != 0
    && p.token == assets[amount.0].token && p.chain == assets[amount.0].chain
    && p.recipient == assets[amount.0].recipient
  }

  // One price, in order, for every amount that is not zero and has an asset.
  ghost predicate ArePrices(ps: seq<Pricing>, amounts: Amounts, assets: map<string, Asset>) {
    if amounts == [] then ps == []
    else if amounts[0].1 != 0 && amounts[0].0 in assets then
      ps != [] && IsPriceIn(ps[0], amounts[0], assets) && ArePrices(ps[1..], amounts[1..], assets)
    else ArePrices(ps, amounts[1..], assets)
  }

  lemma {:induction false} PricesAre(amounts: Amounts, assets: map<string, Asset>)
    ensures ArePrices(ToPricing(amounts, assets), amounts, assets)
  {
    if amounts != [] {
      PricesAre(amounts[1..], assets);
      var rest := ToPricing(amounts[1..], assets);
      var ps := ToPricing(amounts, assets);
      assert ps == rest || ps[1..] == rest;
      assert [] + rest == rest;
    }
  }
}
