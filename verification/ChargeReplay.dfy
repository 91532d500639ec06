// MPP charge challenges and their replay store
// (packages/payment-solana/src/charge/server.ts and replay.ts).
module ChargeReplay {
  import opened Text
  import opened ChallengeParams
  import Base64Url
  import Utf8

  // ----- the replay store -----

  // Milliseconds; 0 stands for no expiry.
  type Entries = map<string, int>

  predicate Expired(expiresAt: int, now: int) { 0 < expiresAt <= now }

  function Pruned(store: Entries, now: int): Entries {
    map id | id in store && !Expired(store[id], now) :: store[id]
  }

  class ReplayStore {
    var store: Entries

    constructor ()
      ensures store == map[]
    {
      store := map[];
    }

    method Prune(now: int)
      modifies this
      ensures store == Pruned(old(store), now)
    {
      var ids := store.Keys;
      while ids != {}
        invariant ids <= store.Keys <= old(store).Keys
        invariant forall id <- store :: store[id] == old(store)[id]
        invariant forall id <- old(store) :: id !in ids ==> (id in store <==> !Expired(old(store)[id], now))
        decreases |ids|
      {
        var id :| id in ids;
        ids := ids - {id};
        if Expired(store[id], now) { store := store - {id}; }
      }
    }

    method Add(id: string, expiresAt: Option<int>, now: int)
      modifies this
      ensures store == Added(old(store), id, expiresAt, now)
    {
      Prune(now);
      store := store[id := if expiresAt.Some? then expiresAt.value else 0];
    }

    method Consume(id: string, now: int) returns (consumed: bool)
      modifies this
      ensures consumed <==> id in Pruned(old(store), now)
      ensures store == Pruned(old(store), now) - {id}
    {
      Prune(now);
      if id !in store { return false; }
      store := store - {id};
      return true;
    }
  }

  function Added(store: Entries, id: string, expiresAt: Option<int>, now: int): Entries {
    Pruned(store, now)[id := if expiresAt.Some? then expiresAt.value else 0]
  }

  // ----- challenge ids -----

  function OrEmpty(o: Option<string>): string { if o.Some? then o.value else "" }

  function Slots(c: Challenge): (s: seq<string>)
    ensures |s| == 7
  {
    [c.realm, c.methodName, c.intent, c.request, OrEmpty(c.expires), OrEmpty(c.digest), OrEmpty(c.opaqueData)]
  }

  function Joined(slots: seq<string>): string {
    if slots == [] then "" else if |slots| == 1 then slots[0] else slots[0] + "|" + Joined(slots[1..])
  }

  function Pipes(s: string): nat {
    if s == "" then 0 else (if s[0] == '|' then 1 else 0) + Pipes(s[1..])
  }

  predicate PipeFree(s: string) { forall k :: 0 <= k < |s| ==> s[k] != '|' }

  predicate AllPipeFree(slots: seq<string>) { forall i :: 0 <= i < |slots| ==> PipeFree(slots[i]) }

  lemma {:induction false} PipesOf(a: string, b: string)
    ensures Pipes(a + b) == Pipes(a) + Pipes(b) && (Pipes(a) == 0 <==> PipeFree(a))
  {
    if a == "" {
      assert a + b == b;
    } else {
      assert (a + b)[1..] == a[1..] + b;
      PipesOf(a[1..], b);
      assert PipeFree(a) ==> PipeFree(a[1..]);
      if PipeFree(a[1..]) && a[0] != '|' {
        forall k | 0 <= k < |a| ensures a[k] != '|' { assert k > 0 ==> a[k] == a[1..][k - 1]; }
      }
    }
  }

  // One separator between two slots, and those inside them.
  lemma {:induction false} JoinedPipes(slots: seq<string>)
    requires slots != []
    ensures Pipes(Joined(slots)) >= |slots| - 1
    ensures Pipes(Joined(slots)) == |slots| - 1 <==> AllPipeFree(slots)
  {
    PipesOf(slots[0], "");
    if |slots| > 1 {
      var rest := Joined(slots[1..]);
      JoinedPipes(slots[1..]);
      PipesOf(slots[0], "|" + rest);
      assert Pipes("|" + rest) == 1 + Pipes(rest) by { assert ("|" + rest)[1..] == rest; }
      assert Joined(slots) == slots[0] + ("|" + rest);
      assert AllPipeFree(slots) <==> PipeFree(slots[0]) && AllPipeFree(slots[1..]) by {
        if PipeFree(slots[0]) && AllPipeFree(slots[1..]) {
          assert forall i :: 0 < i < |slots| ==> slots[i] == slots[1..][i - 1];
        }
      }
    }
  }

  lemma FirstPipe(a: string, b: string, x: string, y: string)
    requires PipeFree(a) && PipeFree(b) && a + "|" + x == b + "|" + y
    ensures a == b && x == y
  {
    var s := a + "|" + x;
    assert s == b + "|" + y;
    assert s[|a|] == '|' && s[|b|] == '|';
    assert forall k :: 0 <= k < |b| ==> s[k] == b[k];
    assert forall k :: 0 <= k < |a| ==> s[k] == a[k];
    assert |a| == |b|;
    assert a == s[..|a|] == b;
    assert x == s[|a| + 1..] == y;
  }

  lemma {:induction false} SplitsBack(a: seq<string>, b: seq<string>)
    requires |a| == |b| > 0 && AllPipeFree(a) && AllPipeFree(b) && Joined(a) == Joined(b)
    ensures a == b
  {
    if |a| > 1 {
      FirstPipe(a[0], b[0], Joined(a[1..]), Joined(b[1..]));
      SplitsBack(a[1..], b[1..]);
      assert a == [a[0]] + a[1..] && b == [b[0]] + b[1..];
    } else {
      assert a == [a[0]] && b == [b[0]];
    }
  }

  // The joined text of pipe-free slots is that of no other slots, pipe-free or not.
  lemma JoinedInjective(a: seq<string>, b: seq<string>)
    requires |a| == |b| > 0 && AllPipeFree(a) && Joined(a) == Joined(b)
    ensures a == b
  {
    hide Joined, Pipes;
    JoinedPipes(a);
    JoinedPipes(b);
    SplitsBack(a, b);
  }

  // ----- the handler -----

  const TIMEOUT := 60000

  // hash: HMAC-SHA-256 under the secret key. number: Number(...), None for NaN.
  // accepts: the request decodes, is valid and is not for native SOL.
  datatype Config = Config(realm: string, hash: string -> string, number: string -> Option<int>, accepts: string -> bool)

  ghost predicate Injective(hash: string -> string) { forall a, b :: hash(a) == hash(b) ==> a == b }

  ghost predicate ReadsNumerals(number: string -> Option<int>) { forall n: nat :: number(Decimal(n)) == Some(n) }

  function ChallengeId(g: Config, c: Challenge): string { g.hash(Joined(Slots(c))) }

  // The challenge of getChallenge; body is the canonical JSON of the request.
  function Issued(g: Config, intent: string, body: string, digest: Option<string>, now: nat): Challenge {
    var c := Challenge("", g.realm, "solana", intent, Utf8.EncodeText(body),
      Some(Decimal((now + TIMEOUT) / 1000)), None, None, digest);
    c.(id := ChallengeId(g, c))
  }

  datatype Outcome = NotHandled | BadId | ExpiredChallenge | Consumed | Passed

  predicate Late(g: Config, c: Challenge, now: nat) {
    && c.expires.Some? && g.number(c.expires.value).Some?
    && var at := g.number(c.expires.value).value * 1000; 0 < at < now
  }

  // What handleSettle decides before it asks the replay store.
  function Checked(g: Config, c: Challenge, now: nat): Outcome {
    if c.methodName != "solana" || c.intent != "charge" || !g.accepts(c.request) then NotHandled
    else if ChallengeId(g, c) != c.id then BadId
    else if Late(g, c, now) then ExpiredChallenge
    else Passed
  }

  class ChargeHandler {
    const g: Config
    const replayStore: ReplayStore

    constructor (g: Config, replayStore: ReplayStore)
      ensures this.g == g && this.replayStore == replayStore
    {
      this.g := g;
      this.replayStore := replayStore;
    }

    method GetChallenge(intent: string, body: string, digest: Option<string>, now: nat) returns (c: Challenge)
      modifies replayStore
      ensures c == Issued(g, intent, body, digest, now)
      ensures replayStore.store == Next(g, old(replayStore.store), Issue(intent, body, digest, now))
    {
      var expiresAt := now + TIMEOUT;
      var expires := Decimal(expiresAt / 1000);
      var params := Challenge("", g.realm, "solana", intent, Utf8.EncodeText(body), Some(expires), None, None, digest);
      var id := ChallengeId(g, params);
      replayStore.Add(id, Some(expiresAt), now);
      return params.(id := id);
    }

    // Up to and with the consume step.
    method HandleSettle(challenge: Challenge, now: nat) returns (outcome: Outcome)
      modifies replayStore
      ensures outcome == Result(g, old(replayStore.store), Settle(challenge, now))
      ensures replayStore.store == Next(g, old(replayStore.store), Settle(challenge, now))
    {
      if challenge.methodName != "solana" { return NotHandled; }
      if challenge.intent != "charge" { return NotHandled; }
      if !g.accepts(challenge.request) { return NotHandled; }
      if ChallengeId(g, challenge) != challenge.id { return BadId; }
      if challenge.expires.Some? {
        var n := g.number(challenge.expires.value);
        if n.Some? && n.value * 1000 > 0 && now > n.value * 1000 { return ExpiredChallenge; }
      }
      var consumed := replayStore.Consume(challenge.id, now);
      if !consumed { return Consumed; }
      return Passed;
    }
  }

  // ----- runs -----

  datatype Event =
    | Issue(intent: string, body: string, digest: Option<string>, now: nat)
    | Settle(challenge: Challenge, now: nat)

  function Next(g: Config, store: Entries, e: Event): Entries {
    match e
    case Issue(intent, body, digest, now) =>
      Added(store, Issued(g, intent, body, digest, now).id, Some(now + TIMEOUT), now)
    case Settle(c, now) => if Checked(g, c, now) == Passed then Pruned(store, now) - {c.id} else store
  }

  function Result(g: Config, store: Entries, e: Event): Outcome
    requires e.Settle?
  {
    var r := Checked(g, e.challenge, e.now);
    if r == Passed && e.challenge.id !in Pruned(store, e.now) then Consumed else r
  }

  // The store after a run that began with an empty one.
  function StoreAfter(g: Config, run: seq<Event>): Entries {
    if run == [] then map[] else Next(g, StoreAfter(g, run[..|run| - 1]), run[|run| - 1])
  }

  predicate Issues(g: Config, e: Event, id: string) {
    e.Issue? && Issued(g, e.intent, e.body, e.digest, e.now).id == id
  }

  function IssueCount(g: Config, run: seq<Event>, id: string): nat {
    if run == [] then 0
    else IssueCount(g, run[..|run| - 1], id) + (if Issues(g, run[|run| - 1], id) then 1 else 0)
  }

  predicate PassesNow(g: Config, store: Entries, e: Event, id: string) {
    e.Settle? && e.challenge.id == id && Result(g, store, e) == Passed
  }

  function PassCount(g: Config, run: seq<Event>, id: string): nat {
    if run == [] then 0
    else
      var before := run[..|run| - 1];
      PassCount(g, before, id) + (if PassesNow(g, StoreAfter(g, before), run[|run| - 1], id) then 1 else 0)
  }

  // A challenge passes at most as often as it was issued; while its id is held
  // it can pass once more.
  lemma {:induction false} PassesNeverOutnumberIssues(g: Config, run: seq<Event>, id: string)
    ensures PassCount(g, run, id) + (if id in StoreAfter(g, run) then 1 else 0) <= IssueCount(g, run, id)
  {
    hide Issued, Checked;
    if run != [] { PassesNeverOutnumberIssues(g, run[..|run| - 1], id); }
  }

  // The issue to which a held id goes back.
  lemma {:induction false} HeldWasIssued(g: Config, run: seq<Event>, id: string) returns (k: nat)
    requires id in StoreAfter(g, run)
    ensures k < |run| && Issues(g, run[k], id) && StoreAfter(g, run)[id] == run[k].now + TIMEOUT
  {
    hide Issued, Checked;
    var n := |run| - 1;
    var before := run[..n];
    if Issues(g, run[n], id) {
      k := n;
    } else {
      k := HeldWasIssued(g, before, id);
      assert before[k] == run[k];
    }
  }

  lemma DecimalPipeFree(n: nat)
    ensures PipeFree(Decimal(n))
  {
    var s := Decimal(n);
    forall k | 0 <= k < |s| ensures s[k] != '|' { assert s[k] in s; }
  }

  lemma EncodedPipeFree(body: string)
    ensures PipeFree(Utf8.EncodeText(body))
  {
    hide Utf8.Encode, Base64Url.EncodeBytes;
    Base64Url.EncodedIs(Utf8.Encode(body));
    UrlPipeFree(Utf8.EncodeText(body));
  }

  lemma UrlPipeFree(s: string)
    requires forall c <- s :: Base64Url.IsUrlChar(c)
    ensures PipeFree(s)
  {
    forall k | 0 <= k < |s| ensures s[k] != '|' { assert s[k] in s; }
  }

  lemma IssuedPipeFree(g: Config, e: Event)
    requires e.Issue? && PipeFree(g.realm) && PipeFree(e.intent) && PipeFree(OrEmpty(e.digest))
    ensures AllPipeFree(Slots(Issued(g, e.intent, e.body, e.digest, e.now)))
  {
    hide Decimal, Utf8.EncodeText, PipeFree, ChallengeId;
    EncodedPipeFree(e.body);
    DecimalPipeFree((e.now + TIMEOUT) / 1000);
    assert PipeFree("solana") && PipeFree("") by { Constants(); }
  }

  lemma Constants()
    ensures PipeFree("solana") && PipeFree("")
  {}

  // What a client may put into a challenge that passes: what the server put
  // into one it issued, with an absent value counted as an empty one.
  predicate Carries(c: Challenge, issued: Challenge) {
    && c.id == issued.id && c.realm == issued.realm && c.methodName == issued.methodName
    && c.intent == issued.intent && c.request == issued.request && c.expires == issued.expires
    && OrEmpty(c.digest) == OrEmpty(issued.digest) && OrEmpty(c.opaqueData) == OrEmpty(issued.opaqueData)
  }

  // Whatever is interleaved, a settlement that passes the replay check carries
  // the values of a challenge that this server issued less than a minute before,
  // and does so no later than the expiry in it.
  lemma PassedWasIssued(g: Config, run: seq<Event>, n: nat) returns (k: nat)
    requires Injective(g.hash) && ReadsNumerals(g.number)
    requires PipeFree(g.realm)
    requires forall e <- run :: e.Issue? ==> PipeFree(e.intent) && PipeFree(OrEmpty(e.digest))
    requires n < |run| && run[n].Settle? && Result(g, StoreAfter(g, run[..n]), run[n]) == Passed
    ensures k < n && run[k].Issue?
    ensures Carries(run[n].challenge, Issued(g, run[k].intent, run[k].body, run[k].digest, run[k].now))
    ensures run[n].now < run[k].now + TIMEOUT && run[n].now <= (run[k].now + TIMEOUT) / 1000 * 1000
  {
    hide StoreAfter, Utf8.EncodeText, Decimal, PipeFree, Joined;
    var c, now := run[n].challenge, run[n].now;
    k := HeldWasIssued(g, run[..n], c.id);
    var e := run[..n][k];
    assert e == run[k] && e in run;
    var issued := Issued(g, e.intent, e.body, e.digest, e.now);
    IssuedPipeFree(g, e);
    SameSlots(g, c, issued);
    DecimalNotEmpty((e.now + TIMEOUT) / 1000);
    assert c.expires == issued.expires;
    NotLate(g, c, e.now, now);
  }

  lemma DecimalNotEmpty(n: nat)
    ensures Decimal(n) != ""
  {}

  lemma SameSlots(g: Config, c: Challenge, issued: Challenge)
    requires Injective(g.hash) && AllPipeFree(Slots(issued))
    requires c.id == issued.id == ChallengeId(g, c) == ChallengeId(g, issued)
    ensures c.realm == issued.realm && c.methodName == issued.methodName && c.intent == issued.intent
    ensures c.request == issued.request && OrEmpty(c.expires) == OrEmpty(issued.expires)
    ensures OrEmpty(c.digest) == OrEmpty(issued.digest) && OrEmpty(c.opaqueData) == OrEmpty(issued.opaqueData)
  {
    hide Joined, PipeFree, OrEmpty;
    JoinedInjective(Slots(issued), Slots(c));
    var a, b := Slots(issued), Slots(c);
    assert a[0] == b[0] && a[1] == b[1] && a[2] == b[2] && a[3] == b[3] && a[4] == b[4] && a[5] == b[5] && a[6] == b[6];
  }

  lemma NotLate(g: Config, c: Challenge, issuedAt: nat, now: nat)
    requires ReadsNumerals(g.number) && c.expires == Some(Decimal((issuedAt + TIMEOUT) / 1000)) && !Late(g, c, now)
    ensures now <= (issuedAt + TIMEOUT) / 1000 * 1000
  {
    var s := (issuedAt + TIMEOUT) / 1000;
    assert g.number(Decimal(s)) == Some(s);
    assert s > 0;
  }

  // ----- what passes -----

  // The clock of the challenge's expiry, as the number in it says.
  ghost predicate InTime(g: Config, c: Challenge, now: nat) {
    var seconds := if c.expires.Some? then g.number(c.expires.value) else None;
    seconds.Some? && seconds.value > 0 ==> now <= seconds.value * 1000
  }

  // The id is the one the server computes for these parameters.
  predicate Genuine(g: Config, c: Challenge) { c.id == g.hash(Joined(Slots(c))) }

  predicate IsCharge(g: Config, c: Challenge) { c.methodName == "solana" && c.intent == "charge" && g.accepts(c.request) }

  // A settlement passes exactly when the challenge is one for a charge, genuine,
  // in time by its own number and its id held and unexpired in the store; a
  // refusal names the first of these that is not so.
  lemma PassesIff(g: Config, store: Entries, c: Challenge, now: nat)
    ensures var held := c.id in store && !(0 < store[c.id] <= now);
      Result(g, store, Settle(c, now)) ==
        if !IsCharge(g, c) then NotHandled else if !Genuine(g, c) then BadId
        else if !InTime(g, c, now) then ExpiredChallenge else if !held then Consumed else Passed
  {
    hide Joined;
  }

  // Whatever the outcome, a settlement takes from the store only what has
  // expired and, if it passes, the id it carries.
  lemma SettleKeeps(g: Config, store: Entries, c: Challenge, now: nat, id: string)
    requires id in store && !(0 < store[id] <= now)
    ensures var e := Settle(c, now); var after := Next(g, store, e);
      (id in after <==> !(Result(g, store, e) == Passed && id == c.id)) && (id in after ==> after[id] == store[id])
  {
    hide Joined;
  }

  lemma OthersKeep(g: Config, store: Entries, e: Event, id: string)
    requires id in store && !(0 < store[id] <= e.now) && !Issues(g, e, id) && !PassesNow(g, store, e, id)
    ensures id in Next(g, store, e) && Next(g, store, e)[id] == store[id]
  {
    hide Joined, Issued, Result, Checked;
    if e.Settle? { SettleKeeps(g, store, e.challenge, e.now, id); }
  }

  // From its issue on the id is held, if all that happens is earlier than its
  // expiry, the clock does not go back to issue it again, and it does not pass.
  lemma {:induction false} StaysHeld(g: Config, run: seq<Event>, k: nat, id: string)
    requires k < |run| && Issues(g, run[k], id)
    requires forall j :: k < j < |run| ==>
      && run[j].now < run[k].now + TIMEOUT
      && (Issues(g, run[j], id) ==> run[j].now >= run[k].now)
      && !PassesNow(g, StoreAfter(g, run[..j]), run[j], id)
    ensures id in StoreAfter(g, run) && StoreAfter(g, run)[id] >= run[k].now + TIMEOUT
    ensures (forall j :: k < j < |run| ==> !Issues(g, run[j], id)) ==> StoreAfter(g, run)[id] == run[k].now + TIMEOUT
    decreases |run|
  {
    hide Issued, PassesNow, Checked, Pruned;
    var n := |run| - 1;
    var before := run[..n];
    if k < n {
      assert forall j :: 0 <= j <= n ==> before[..j] == run[..j];
      assert before[k] == run[k] && forall j :: 0 <= j < n ==> before[j] == run[j];
      StaysHeld(g, before, k, id);
      if !Issues(g, run[n], id) {
        assert before == run[..n] && run[n].now < run[k].now + TIMEOUT;
        OthersKeep(g, StoreAfter(g, before), run[n], id);
      }
    }
  }

  // The challenge of an issue.
  function IssuedBy(g: Config, e: Event): Challenge
    requires e.Issue?
  {
    Issued(g, e.intent, e.body, e.digest, e.now)
  }

  // Nothing keeps the challenge of run[k] from being settled at the end of the run.
  ghost predicate Unspent(g: Config, run: seq<Event>, k: nat)
    requires k < |run| && run[k].Issue?
  {
    forall j :: k < j < |run| ==>
      && run[j].now < run[k].now + TIMEOUT
      && (Issues(g, run[j], IssuedBy(g, run[k]).id) ==> run[j].now >= run[k].now)
      && !PassesNow(g, StoreAfter(g, run[..j]), run[j], IssuedBy(g, run[k]).id)
  }

  // Whatever is interleaved, the challenge of a charge that the server issued
  // passes when it is settled for the first time before its minute is over and no
  // later than the full second in which it ends.
  lemma IssuedPasses(g: Config, run: seq<Event>, k: nat, now: nat)
    requires ReadsNumerals(g.number) && k < |run| && run[k].Issue? && Unspent(g, run, k)
    requires IssuedBy(g, run[k]).intent == "charge" && g.accepts(IssuedBy(g, run[k]).request)
    requires now <= (run[k].now + TIMEOUT) / 1000 * 1000 && now < run[k].now + TIMEOUT
    ensures Result(g, StoreAfter(g, run), Settle(IssuedBy(g, run[k]), now)) == Passed
  {
    hide StoreAfter, Result, Issued, Genuine, InTime, Unspent;
    StaysUnspent(g, run, k);
    IssuedInTime(g, run[k], now);
    PassesIff(g, StoreAfter(g, run), IssuedBy(g, run[k]), now);
  }

  lemma StaysUnspent(g: Config, run: seq<Event>, k: nat)
    requires k < |run| && run[k].Issue? && Unspent(g, run, k)
    ensures var id := IssuedBy(g, run[k]).id;
      && id in StoreAfter(g, run) && StoreAfter(g, run)[id] >= run[k].now + TIMEOUT
      && ((forall j :: k < j < |run| ==> !Issues(g, run[j], id)) ==> StoreAfter(g, run)[id] == run[k].now + TIMEOUT)
  {
    hide StoreAfter, Issued, PassesNow;
    StaysHeld(g, run, k, IssuedBy(g, run[k]).id);
  }

  // Its time is over with the full second in which its minute ends.
  lemma IssuedInTime(g: Config, e: Event, now: nat)
    requires e.Issue? && ReadsNumerals(g.number)
    ensures var c := IssuedBy(g, e);
      Genuine(g, c) && c.methodName == "solana" && (InTime(g, c, now) <==> now <= (e.now + TIMEOUT) / 1000 * 1000)
  {
    hide Issued, Genuine;
    IssuedIs(g, e);
  }

  // And only then, unless the very same challenge was issued again since.
  lemma IssuedPassesIff(g: Config, run: seq<Event>, k: nat, now: nat)
    requires ReadsNumerals(g.number) && k < |run| && run[k].Issue? && Unspent(g, run, k)
    requires IssuedBy(g, run[k]).intent == "charge" && g.accepts(IssuedBy(g, run[k]).request)
    requires forall j :: k < j < |run| ==> !Issues(g, run[j], IssuedBy(g, run[k]).id)
    ensures Result(g, StoreAfter(g, run), Settle(IssuedBy(g, run[k]), now)) == Passed
      <==> now <= (run[k].now + TIMEOUT) / 1000 * 1000 && now < run[k].now + TIMEOUT
  {
    hide StoreAfter, Result, Issued, Genuine, InTime, Unspent;
    StaysUnspent(g, run, k);
    IssuedInTime(g, run[k], now);
    PassesIff(g, StoreAfter(g, run), IssuedBy(g, run[k]), now);
  }

  // What the server puts into a challenge: the realm, its method, the encoded
  // request, the second in which the minute ends, and the id of all that.
  lemma IssuedIs(g: Config, e: Event)
    requires e.Issue? && ReadsNumerals(g.number)
    ensures var c := IssuedBy(g, e);
      && c.realm == g.realm && c.methodName == "solana" && c.intent == e.intent && c.digest == e.digest
      && c.request == Utf8.EncodeText(e.body) && Genuine(g, c) && c.expires.Some?
      && g.number(c.expires.value) == Some((e.now + TIMEOUT) / 1000)
  {
    hide Joined, Decimal, Utf8.EncodeText;
  }

  // With every issue the store is rid of what has expired, and keeps the rest.
  lemma IssuePrunes(g: Config, store: Entries, e: Event)
    requires e.Issue?
    ensures var id := IssuedBy(g, e).id; var after := Next(g, store, e);
      && id in after && after[id] == e.now + TIMEOUT
      && forall k :: k != id ==>
           (k in after <==> k in store && !(0 < store[k] <= e.now)) && (k in after ==> after[k] == store[k])
  {
    hide Issued;
  }
}
