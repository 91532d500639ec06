// How client and server agree on the requirement that is paid
// (packages/fetch/src/internal.ts, packages/middleware/src/common.ts,
// packages/types/src/x402-adapters.ts).
module Negotiation {
  import opened Text
  import opened Networks

  datatype Resource = Resource(url: string, description: Option<string>, mimeType: Option<string>)

  datatype Requirements = Requirements(
    scheme: string, network: string, amount: string, asset: string, payTo: string, timeout: int)

  datatype RequirementsV1 = RequirementsV1(
    scheme: string, network: string, maxAmountRequired: string, resource: string, description: string,
    mimeType: string, payTo: string, timeout: int, asset: string)

  // ----- adapters -----

  function AdaptV1ToV2(r: RequirementsV1, t: Tables): Requirements {
    Requirements(r.scheme, NormalizeNetworkId(t, r.network), r.maxAmountRequired, r.asset, r.payTo, r.timeout)
  }

  // As the server calls it, without a network translator.
  function AdaptV2ToV1(r: Requirements, resource: Resource): RequirementsV1 {
    RequirementsV1(r.scheme, r.network, r.amount, resource.url,
      if resource.description.Some? then resource.description.value else "",
      if resource.mimeType.Some? then resource.mimeType.value else "",
      r.payTo, r.timeout, r.asset)
  }

  function AllToV1(accepts: seq<Requirements>, resource: Resource): seq<RequirementsV1> {
    seq(|accepts|, i requires 0 <= i < |accepts| => AdaptV2ToV1(accepts[i], resource))
  }

  function AllToV2(accepts: seq<RequirementsV1>, t: Tables): seq<Requirements> {
    seq(|accepts|, i requires 0 <= i < |accepts| => AdaptV1ToV2(accepts[i], t))
  }

  // ----- findMatching -----

  datatype Criteria = Criteria(scheme: string, network: string, asset: Option<string>)

  function OfV2(r: Requirements): Criteria { Criteria(r.scheme, r.network, Some(r.asset)) }

  function OfV1(r: RequirementsV1): Criteria { Criteria(r.scheme, r.network, Some(r.asset)) }

  // What an offer, seen as criteria itself, must meet.
  predicate Meets(t: Tables, offer: Criteria, c: Criteria) {
    && NormalizeNetworkId(t, offer.network) == NormalizeNetworkId(t, c.network)
    && offer.scheme == c.scheme
    && (c.asset.Some? ==> offer.asset == c.asset)
  }

  // The index of the first of the offers that remain after filtering.
  function FindMatching(t: Tables, offers: seq<Criteria>, c: Criteria, from: nat): (r: Option<nat>)
    ensures r.Some? ==> from <= r.value < |offers| && Meets(t, offers[r.value], c)
    ensures r.Some? ==> forall i :: from <= i < r.value ==> !Meets(t, offers[i], c)
    ensures r.None? ==> forall i :: from <= i < |offers| ==> !Meets(t, offers[i], c)
    decreases |offers| - from
  {
    if from >= |offers| then None
    else if Meets(t, offers[from], c) then Some(from) else FindMatching(t, offers, c, from + 1)
  }

  function OffersV2(accepts: seq<Requirements>): seq<Criteria> {
    seq(|accepts|, i requires 0 <= i < |accepts| => OfV2(accepts[i]))
  }

  function OffersV1(accepts: seq<RequirementsV1>): seq<Criteria> {
    seq(|accepts|, i requires 0 <= i < |accepts| => OfV1(accepts[i]))
  }

  // ----- the server -----

  datatype Versions = Versions(v1: bool, v2: bool)

  // The 402 response; the header of version 2 goes before the body of version 1.
  datatype Challenge = HeaderV2(accepts: seq<Requirements>) | BodyV1(accepts1: seq<RequirementsV1>) | Bare

  function Challenged(versions: Versions, accepts: seq<Requirements>, resource: Resource): Challenge {
    if versions.v2 then HeaderV2(accepts) else if versions.v1 then BodyV1(AllToV1(accepts, resource)) else Bare
  }

  datatype Payment =
    | PaymentV2(accepted: Requirements)
    | PaymentV1(scheme: string, network: string, asset: Option<string>)

  datatype Decision =
    | Settles(index: nat)        // the version 2 requirement that goes to the glue layer
    | NoMatch                    // a 402 response again
    | NoCorrespondingV2          // the branch that logs an error
    | Unsupported                // a 400 response

  function Decide(t: Tables, versions: Versions, accepts: seq<Requirements>, resource: Resource, p: Payment): Decision {
    match p
    case PaymentV2(accepted) =>
      if !versions.v2 then Unsupported
      else
        var m := FindMatching(t, OffersV2(accepts), OfV2(accepted), 0);
        if m.None? then NoMatch else Settles(m.value)
    case PaymentV1(scheme, network, asset) =>
      if !versions.v1 then Unsupported
      else
        var offers := AllToV1(accepts, resource);
        var m := FindMatching(t, OffersV1(offers), Criteria(scheme, network, asset), 0);
        if m.None? then NoMatch
        else
          var n := FindMatching(t, OffersV2(accepts), OfV1(offers[m.value]), 0);
          if n.None? then NoCorrespondingV2 else Settles(n.value)
  }

  // ----- the client -----

  // A handler offers payers, each for some requirements. Its contract is that
  // these are among the ones it was shown, as far as matching goes.
  type Handler = seq<Requirements> -> seq<Requirements>

  predicate OneOf(accepts: seq<Requirements>, r: Requirements) {
    exists i :: 0 <= i < |accepts| && OfV2(accepts[i]) == OfV2(r)
  }

  ghost predicate Honest(h: Handler) { forall accepts, r :: r in h(accepts) ==> OneOf(accepts, r) }

  function Offered(handlers: seq<Handler>, accepts: seq<Requirements>): seq<Requirements> {
    if handlers == [] then []
    else Offered(handlers[..|handlers| - 1], accepts) + handlers[|handlers| - 1](accepts)
  }

  function Shown(t: Tables, c: Challenge): seq<Requirements> {
    match c
    case HeaderV2(accepts) => accepts
    case BodyV1(accepts1) => AllToV2(accepts1, t)
    case Bare => []
  }

  function PaymentFor(t: Tables, c: Challenge, r: Requirements): Payment {
    if c.HeaderV2? then PaymentV2(r)
    else PaymentV1(r.scheme, TranslateNetworkToLegacy(t, r.network), Some(r.asset))
  }

  // A chooser picks one of the payers; None: it throws.
  type Chooser = seq<Requirements> -> Option<Requirements>

  function ChooseFirstAvailable(payers: seq<Requirements>): Option<Requirements> {
    if payers == [] then None else Some(payers[0])
  }

  // None: it throws, as it does when the response is no challenge.
  method ProcessPaymentRequiredResponse(t: Tables, c: Challenge, handlers: seq<Handler>, choose: Chooser)
    returns (r: Option<(Requirements, Payment)>)
    ensures var payers := Offered(handlers, Shown(t, c));
      && (r.Some? <==> !c.Bare? && choose(payers).Some?)
      && (r.Some? ==> r.value.0 == choose(payers).value && r.value.1 == PaymentFor(t, c, r.value.0))
  {
    if c.Bare? { return None; }
    var v2Accepts := Shown(t, c);
    var possiblePayers: seq<Requirements> := [];
    for i := 0 to |handlers|
      invariant possiblePayers == Offered(handlers[..i], v2Accepts)
    {
      assert handlers[..i + 1][..i] == handlers[..i];
      possiblePayers := possiblePayers + handlers[i](v2Accepts);
    }
    assert handlers[..|handlers|] == handlers;
    var payer := choose(possiblePayers);
    if payer.None? { return None; }
    return Some((payer.value, PaymentFor(t, c, payer.value)));
  }

  // ----- agreement -----

  // For a payment of version 1, whatever is in it, the version 2 requirement
  // that is settled is the one at the index of the version 1 requirement that
  // was matched: the branch for a missing one cannot be reached.
  lemma SameIndex(t: Tables, versions: Versions, accepts: seq<Requirements>, resource: Resource, p: Payment)
    requires p.PaymentV1?
    ensures var d := Decide(t, versions, accepts, resource, p);
      var m := FindMatching(t, OffersV1(AllToV1(accepts, resource)), Criteria(p.scheme, p.network, p.asset), 0);
      && !d.NoCorrespondingV2?
      && (versions.v1 ==> d == if m.None? then NoMatch else Settles(m.value))
  {
    hide NormalizeNetworkId;
    var offers := AllToV1(accepts, resource);
    assert OffersV1(offers) == OffersV2(accepts);
    var c := Criteria(p.scheme, p.network, p.asset);
    var m := FindMatching(t, OffersV1(offers), c, 0);
    if m.Some? {
      var c' := OfV1(offers[m.value]);
      assert OffersV1(offers)[m.value] == c';
      forall i | 0 <= i < m.value ensures !Meets(t, OffersV2(accepts)[i], c') {
        assert Meets(t, OffersV2(accepts)[i], c') ==> Meets(t, OffersV1(offers)[i], c);
      }
      FirstIs(t, OffersV2(accepts), c', m.value);
    }
  }

  lemma FirstIs(t: Tables, offers: seq<Criteria>, c: Criteria, i: nat)
    requires i < |offers| && Meets(t, offers[i], c) && forall j :: 0 <= j < i ==> !Meets(t, offers[j], c)
    ensures FindMatching(t, offers, c, 0) == Some(i)
  {
    hide Meets;
  }

  lemma {:induction false} OfferedIsShown(handlers: seq<Handler>, accepts: seq<Requirements>, r: Requirements)
    requires (forall h <- handlers :: Honest(h)) && r in Offered(handlers, accepts)
    ensures OneOf(accepts, r)
  {
    var last := handlers[|handlers| - 1];
    assert last in handlers;
    if r in last(accepts) {
      assert Honest(last) && r in last(accepts);
    } else {
      OfferedIsShown(handlers[..|handlers| - 1], accepts, r);
    }
  }

  // A chooser that picks from what it is given, as the default one does.
  ghost predicate Picks(choose: Chooser) {
    forall payers :: choose(payers).Some? ==> choose(payers).value in payers
  }

  // Whatever payer is chosen, the server settles its payment.
  lemma ChosenIsSettled(t: Tables, versions: Versions, accepts: seq<Requirements>, resource: Resource,
      handlers: seq<Handler>, choose: Chooser)
    requires ProperTables(t) && Picks(choose) && forall h <- handlers :: Honest(h)
    requires var c := Challenged(versions, accepts, resource);
      !c.Bare? && choose(Offered(handlers, Shown(t, c))).Some?
    ensures var c := Challenged(versions, accepts, resource);
      var r := choose(Offered(handlers, Shown(t, c))).value;
      Decide(t, versions, accepts, resource, PaymentFor(t, c, r)).Settles?
  {
    hide ProperTables, Honest, Offered, Shown, Challenged, Decide;
    var c := Challenged(versions, accepts, resource);
    PaymentIsSettled(t, versions, accepts, resource, handlers, choose(Offered(handlers, Shown(t, c))).value);
  }

  // Without a chooser of the client's own the first payer is taken, and the
  // payment settled whenever any handler offers one.
  lemma FirstIsSettled(t: Tables, versions: Versions, accepts: seq<Requirements>, resource: Resource, handlers: seq<Handler>)
    requires ProperTables(t) && forall h <- handlers :: Honest(h)
    requires var c := Challenged(versions, accepts, resource);
      !c.Bare? && Offered(handlers, Shown(t, c)) != []
    ensures var c := Challenged(versions, accepts, resource);
      var r := ChooseFirstAvailable(Offered(handlers, Shown(t, c)));
      r.Some? && Decide(t, versions, accepts, resource, PaymentFor(t, c, r.value)).Settles?
  {
    hide ProperTables, Honest, Offered, Shown, Challenged, Decide;
    ChosenIsSettled(t, versions, accepts, resource, handlers, ChooseFirstAvailable);
  }

  // The payment that a client builds for any of the requirements it was shown
  // is matched by the server to one of the same scheme, network and asset, and
  // that one is settled.
  lemma PaymentIsSettled(t: Tables, versions: Versions, accepts: seq<Requirements>, resource: Resource,
      handlers: seq<Handler>, r: Requirements)
    requires ProperTables(t) && forall h <- handlers :: Honest(h)
    requires var c := Challenged(versions, accepts, resource);
      !c.Bare? && r in Offered(handlers, Shown(t, c))
    ensures var c := Challenged(versions, accepts, resource);
      Fits(t, accepts, Decide(t, versions, accepts, resource, PaymentFor(t, c, r)), r)
  {
    hide Offered, Shown, Challenged, Decide, Fits, OneOf;
    OfferedIsShown(handlers, Shown(t, Challenged(versions, accepts, resource)), r);
    ShownIsSettled(t, versions, accepts, resource, r);
  }

  // The decision settles a requirement that is r's as far as matching goes.
  predicate Fits(t: Tables, accepts: seq<Requirements>, d: Decision, r: Requirements) {
    && d.Settles? && d.index < |accepts|
    && accepts[d.index].scheme == r.scheme && accepts[d.index].asset == r.asset
    && NormalizeNetworkId(t, accepts[d.index].network) == NormalizeNetworkId(t, r.network)
  }

  lemma ShownIsSettled(t: Tables, versions: Versions, accepts: seq<Requirements>, resource: Resource, r: Requirements)
    requires ProperTables(t)
    requires var c := Challenged(versions, accepts, resource); !c.Bare? && OneOf(Shown(t, c), r)
    ensures var c := Challenged(versions, accepts, resource);
      Fits(t, accepts, Decide(t, versions, accepts, resource, PaymentFor(t, c, r)), r)
  {
    hide NormalizeNetworkId, TranslateNetworkToLegacy, ProperTables;
    if versions.v2 {
      var k :| 0 <= k < |accepts| && OfV2(accepts[k]) == OfV2(r);
      assert Meets(t, OffersV2(accepts)[k], OfV2(r));
    } else {
      SettledV1(t, accepts, resource, r);
    }
  }

  // No two requirements have scheme, network and asset in common.
  predicate Distinct(t: Tables, accepts: seq<Requirements>) {
    forall i, j :: 0 <= i < j < |accepts| ==> !Meets(t, OfV2(accepts[i]), OfV2(accepts[j]))
  }

  // If the advertised requirements can be told apart, the one that is settled is
  // the very one that the client was shown and built its payment for.
  lemma SameIsSettled(t: Tables, versions: Versions, accepts: seq<Requirements>, resource: Resource, r: Requirements, k: nat)
    requires ProperTables(t) && Distinct(t, accepts)
    requires var c := Challenged(versions, accepts, resource);
      !c.Bare? && k < |Shown(t, c)| && OfV2(Shown(t, c)[k]) == OfV2(r)
    ensures var c := Challenged(versions, accepts, resource);
      k < |accepts| && Decide(t, versions, accepts, resource, PaymentFor(t, c, r)) == Settles(k)
  {
    hide NormalizeNetworkId, TranslateNetworkToLegacy, ProperTables, Decide;
    var c := Challenged(versions, accepts, resource);
    var d := Decide(t, versions, accepts, resource, PaymentFor(t, c, r));
    ShownIsSettled(t, versions, accepts, resource, r);
    ShownNetwork(t, versions, accepts, resource, k);
    assert Fits(t, accepts, d, r);
    var m, n := OfV2(accepts[d.index]), OfV2(accepts[k]);
    assert Meets(t, m, n) && Meets(t, n, m);
  }

  // What is shown at an index is what is advertised there, its network normalised.
  lemma ShownNetwork(t: Tables, versions: Versions, accepts: seq<Requirements>, resource: Resource, k: nat)
    requires ProperTables(t)
    requires var c := Challenged(versions, accepts, resource); !c.Bare? && k < |Shown(t, c)|
    ensures var shown := Shown(t, Challenged(versions, accepts, resource));
      && |shown| == |accepts| && shown[k].scheme == accepts[k].scheme && shown[k].asset == accepts[k].asset
      && NormalizeNetworkId(t, shown[k].network) == NormalizeNetworkId(t, accepts[k].network)
  {
    hide NormalizeNetworkId, ProperTables;
    if !versions.v2 { IsNormal(t, accepts[k].network); }
  }

  lemma SettledV1(t: Tables, accepts: seq<Requirements>, resource: Resource, r: Requirements)
    requires ProperTables(t)
    requires OneOf(AllToV2(AllToV1(accepts, resource), t), r)
    ensures var p := PaymentV1(r.scheme, TranslateNetworkToLegacy(t, r.network), Some(r.asset));
      Fits(t, accepts, Decide(t, Versions(true, false), accepts, resource, p), r)
  {
    hide NormalizeNetworkId, TranslateNetworkToLegacy, ProperTables;
    var shown := AllToV2(AllToV1(accepts, resource), t);
    var k :| 0 <= k < |shown| && OfV2(shown[k]) == OfV2(r);
    NormalizationSurvives(t, accepts[k].network);
    IsNormal(t, accepts[k].network);
    var p := PaymentV1(r.scheme, TranslateNetworkToLegacy(t, r.network), Some(r.asset));
    var c := Criteria(p.scheme, p.network, p.asset);
    var offers := OffersV1(AllToV1(accepts, resource));
    assert offers[k] == OfV2(accepts[k]);
    assert Meets(t, offers[k], c);
    SameIndex(t, Versions(true, false), accepts, resource, p);
    var m := FindMatching(t, offers, c, 0);
    assert offers[m.value] == OfV2(accepts[m.value]);
  }

  // ----- the terms -----

  // A version 1 requirement has the terms of r.
  predicate SameTerms(v: RequirementsV1, r: Requirements) {
    && v.scheme == r.scheme && v.network == r.network && v.asset == r.asset
    && v.maxAmountRequired == r.amount && v.payTo == r.payTo && v.timeout == r.timeout
  }

  // What is challenged with: the advertised requirements themselves in version 2,
  // and in version 1 one of the same terms for each, with the resource.
  lemma ChallengedTerms(versions: Versions, accepts: seq<Requirements>, resource: Resource)
    ensures var c := Challenged(versions, accepts, resource);
      && (versions.v2 ==> c == HeaderV2(accepts)) && (c.Bare? <==> !versions.v1 && !versions.v2)
      && (c.BodyV1? ==>
            && |c.accepts1| == |accepts|
            && forall k :: 0 <= k < |accepts| ==>
                 SameTerms(c.accepts1[k], accepts[k]) && Describes(c.accepts1[k], resource))
  {}

  predicate Describes(v: RequirementsV1, resource: Resource) {
    && v.resource == resource.url
    && v.description == (match resource.description case Some(d) => d case None => "")
    && v.mimeType == (match resource.mimeType case Some(m) => m case None => "")
  }

  // Without a chooser, the first payer of the first handler that offers any.
  lemma {:induction false} FirstOffer(handlers: seq<Handler>, shown: seq<Requirements>, i: nat)
    requires i < |handlers| && handlers[i](shown) != [] && forall j :: 0 <= j < i ==> handlers[j](shown) == []
    ensures ChooseFirstAvailable(Offered(handlers, shown)) == Some(handlers[i](shown)[0])
    decreases |handlers|
  {
    var n := |handlers| - 1;
    var before, last := handlers[..n], handlers[n](shown);
    OfferedLast(handlers, shown);
    hide Offered;
    if i < n {
      assert before[i] == handlers[i];
      FirstOffer(before, shown, i);
    } else {
      NothingOffered(before, shown);
      assert [] + last == last;
    }
  }

  lemma OfferedLast(handlers: seq<Handler>, shown: seq<Requirements>)
    requires handlers != []
    ensures Offered(handlers, shown) == Offered(handlers[..|handlers| - 1], shown) + handlers[|handlers| - 1](shown)
  {}

  lemma {:induction false} NothingOffered(handlers: seq<Handler>, shown: seq<Requirements>)
    requires forall j :: 0 <= j < |handlers| ==> handlers[j](shown) == []
    ensures Offered(handlers, shown) == []
    decreases |handlers|
  {
    if handlers != [] { NothingOffered(handlers[..|handlers| - 1], shown); }
  }

  // A payment in a version that the server does not speak is refused as such, and
  // no other is.
  lemma UnsupportedIff(t: Tables, versions: Versions, accepts: seq<Requirements>, resource: Resource, p: Payment)
    ensures Decide(t, versions, accepts, resource, p).Unsupported? <==> if p.PaymentV2? then !versions.v2 else !versions.v1
  {
    hide FindMatching;
  }

  // What the client makes of it: the advertised requirement, in version 1 with its
  // network normalised.
  lemma ShownTerms(t: Tables, versions: Versions, accepts: seq<Requirements>, resource: Resource, k: nat)
    requires var c := Challenged(versions, accepts, resource); !c.Bare? && k < |Shown(t, c)|
    ensures var c := Challenged(versions, accepts, resource);
      && |Shown(t, c)| == |accepts|
      && Shown(t, c)[k] ==
         if versions.v2 then accepts[k] else accepts[k].(network := NormalizeNetworkId(t, accepts[k].network))
  {
    hide NormalizeNetworkId;
  }

  // If the advertised requirements can be told apart, what is settled costs what
  // the client was shown, and goes to whom it was shown.
  lemma TermsAreSettled(t: Tables, versions: Versions, accepts: seq<Requirements>, resource: Resource, k: nat)
    requires ProperTables(t) && Distinct(t, accepts)
    requires var c := Challenged(versions, accepts, resource); !c.Bare? && k < |Shown(t, c)|
    ensures var c := Challenged(versions, accepts, resource);
      var shown := Shown(t, c)[k];
      var d := Decide(t, versions, accepts, resource, PaymentFor(t, c, shown));
      && d.Settles? && d.index < |accepts|
      && accepts[d.index].amount == shown.amount && accepts[d.index].payTo == shown.payTo
      && accepts[d.index].timeout == shown.timeout && accepts[d.index].asset == shown.asset
  {
    hide NormalizeNetworkId, Decide, Challenged, Shown, PaymentFor, Distinct;
    ShownTerms(t, versions, accepts, resource, k);
    SameIsSettled(t, versions, accepts, resource, Shown(t, Challenged(versions, accepts, resource))[k], k);
  }
}
