// Network identifiers: CAIP-2 and the legacy names of protocol version 1 (packages/info/src).
module Networks {
  import opened Text

  // A network and one of its legacy ids, in the order in which the tables list them.
  datatype Row = Row(caip2: string, legacy: string)

  const EVM_NETWORKS: seq<Row> := [
    Row("eip155:8453", "base"),
    Row("eip155:84532", "base-sepolia"),
    Row("eip155:1444673419", "skale-europa-testnet"),
    Row("eip155:137", "polygon"),
    Row("eip155:80002", "polygon-amoy"),
    Row("eip155:143", "monad"),
    Row("eip155:10143", "monad-testnet"),
    Row("eip155:324705682", "skale-base-sepolia"),
    Row("eip155:1187947933", "skale-base")]

  const SOLANA_NETWORKS: seq<Row> := [
    Row("solana:5eykt4UsFv8P8NJdTREpY1vzqKqZKvdp", "solana-mainnet-beta"),
    Row("solana:5eykt4UsFv8P8NJdTREpY1vzqKqZKvdp", "solana"),
    Row("solana:EtWTRABZaYq6iMfeYKouRu166VU2xqa1", "solana-devnet"),
    Row("solana:4uhcVJyU9pJkvQyS88uRDiswHXSCkY3z", "solana-testnet")]

  const EVM := "eip155:"
  const SOLANA := "solana:"

  datatype Tables = Tables(evm: seq<Row>, solana: seq<Row>)

  // The last row with the legacy id, as a map filled in order has it.
  function FromLegacy(ts: seq<Row>, id: string): Option<string> {
    if ts == [] then None
    else if ts[|ts| - 1].legacy == id then Some(ts[|ts| - 1].caip2)
    else FromLegacy(ts[..|ts| - 1], id)
  }

  // The first legacy id of the network.
  function ToLegacy(ts: seq<Row>, caip2: string): Option<string> {
    if ts == [] then None else if ts[0].caip2 == caip2 then Some(ts[0].legacy) else ToLegacy(ts[1..], caip2)
  }

  function NormalizeNetworkId(t: Tables, network: string): string {
    if EVM <= network then network
    else if FromLegacy(t.evm, network).Some? then FromLegacy(t.evm, network).value
    else if SOLANA <= network then network
    else if FromLegacy(t.solana, network).Some? then FromLegacy(t.solana, network).value
    else network
  }

  function TranslateNetworkToLegacy(t: Tables, network: string): string {
    if ToLegacy(t.evm, network).Some? then ToLegacy(t.evm, network).value
    else if ToLegacy(t.solana, network).Some? then ToLegacy(t.solana, network).value
    else network
  }

  // The networks carry the prefix, the legacy ids are different and carry neither prefix.
  predicate Proper(ts: seq<Row>, prefix: string) {
    && (forall r <- ts :: prefix <= r.caip2 && !(EVM <= r.legacy) && !(SOLANA <= r.legacy))
    && (forall i, j :: 0 <= i < j < |ts| ==> ts[i].legacy != ts[j].legacy)
  }

  predicate ProperTables(t: Tables) {
    && Proper(t.evm, EVM) && Proper(t.solana, SOLANA)
    && forall r <- t.evm, q <- t.solana :: r.legacy != q.legacy
  }

  lemma {:induction false} FromLegacyIs(ts: seq<Row>, id: string)
    ensures FromLegacy(ts, id).Some? ==> exists i :: 0 <= i < |ts| && ts[i] == Row(FromLegacy(ts, id).value, id)
    ensures FromLegacy(ts, id).None? ==> forall r <- ts :: r.legacy != id
  {
    if ts != [] {
      var init, last := ts[..|ts| - 1], ts[|ts| - 1];
      FromLegacyIs(init, id);
      assert ts == init + [last];
      assert forall i :: 0 <= i < |init| ==> init[i] == ts[i];
      if last.legacy == id { assert ts[|ts| - 1] == Row(last.caip2, id); }
    }
  }

  lemma {:induction false} ToLegacyIs(ts: seq<Row>, caip2: string)
    ensures ToLegacy(ts, caip2).Some? ==> exists i :: 0 <= i < |ts| && ts[i] == Row(caip2, ToLegacy(ts, caip2).value)
  {
    if ts != [] {
      ToLegacyIs(ts[1..], caip2);
      assert forall i :: 0 <= i < |ts[1..]| ==> ts[1..][i] == ts[i + 1];
      if ts[0].caip2 == caip2 { assert ts[0] == Row(caip2, ts[0].legacy); }
    }
  }

  // A known network survives the way to its legacy id and back.
  lemma KnownComesBack(ts: seq<Row>, caip2: string, prefix: string)
    requires Proper(ts, prefix) && ToLegacy(ts, caip2).Some?
    ensures var id := ToLegacy(ts, caip2).value;
      Row(caip2, id) in ts && FromLegacy(ts, id) == Some(caip2)
  {
    hide FromLegacy, ToLegacy;
    var id := ToLegacy(ts, caip2).value;
    ToLegacyIs(ts, caip2);
    FromLegacyIs(ts, id);
  }

  lemma PrefixesDiffer(s: string)
    ensures !(EVM <= s && SOLANA <= s)
  {
    assert EVM[0] == 'e' && SOLANA[0] == 's';
  }

  // Translating a normalised network and normalising it again changes nothing.
  lemma NormalizationSurvives(t: Tables, network: string)
    requires ProperTables(t)
    ensures var n := NormalizeNetworkId(t, network);
      NormalizeNetworkId(t, TranslateNetworkToLegacy(t, n)) == n
  {
    hide FromLegacy, ToLegacy;
    var n := NormalizeNetworkId(t, network);
    if ToLegacy(t.evm, n).Some? {
      KnownComesBack(t.evm, n, EVM);
    } else if ToLegacy(t.solana, n).Some? {
      var id := ToLegacy(t.solana, n).value;
      KnownComesBack(t.solana, n, SOLANA);
      FromLegacyIs(t.evm, id);
    } else {
      IsNormal(t, network);
    }
  }

  // A normalised network is left as it is.
  lemma IsNormal(t: Tables, network: string)
    requires ProperTables(t)
    ensures var n := NormalizeNetworkId(t, network); NormalizeNetworkId(t, n) == n
  {
    hide FromLegacy;
    var n := NormalizeNetworkId(t, network);
    FromLegacyIs(t.evm, network);
    FromLegacyIs(t.solana, network);
    FromLegacyIs(t.evm, n);
    PrefixesDiffer(n);
  }

  // ----- what the translations do -----

  predicate Prefixed(network: string) { EVM <= network || SOLANA <= network }

  // A legacy id is normalised to the network of its row, what carries a prefix is
  // left as it is, and so is what no row knows.
  lemma NormalizedIs(t: Tables, network: string)
    requires ProperTables(t)
    ensures forall r <- t.evm + t.solana :: r.legacy == network ==> NormalizeNetworkId(t, network) == r.caip2
    ensures Prefixed(network) || (forall r <- t.evm + t.solana :: r.legacy != network) ==>
      NormalizeNetworkId(t, network) == network
  {
    hide FromLegacy;
    FromLegacyIs(t.evm, network);
    FromLegacyIs(t.solana, network);
  }

  // A network is translated to the first legacy id that a row of it has, and is
  // left as it is if there is none.
  lemma TranslatedIs(t: Tables, network: string)
    ensures var id := TranslateNetworkToLegacy(t, network);
      if exists i :: IsFirstRow(t.evm + t.solana, i, network)
      then exists i :: IsFirstRow(t.evm + t.solana, i, network) && (t.evm + t.solana)[i].legacy == id
      else id == network
  {
    hide ToLegacy;
    FirstRow(t.evm, network);
    FirstRow(t.solana, network);
    var all := t.evm + t.solana;
    if i :| IsFirstRow(t.evm, i, network) {
      assert IsFirstRow(all, i, network);
    } else if i :| IsFirstRow(t.solana, i, network) {
      NotIn(t.evm, network);
      assert forall j: nat :: j < |t.evm| ==> all[j] == t.evm[j];
      assert forall j: nat :: j < |t.solana| ==> all[|t.evm| + j] == t.solana[j];
      assert IsFirstRow(all, |t.evm| + i, network);
    } else {
      NotIn(t.evm, network);
      NotIn(t.solana, network);
      forall i ensures !IsFirstRow(all, i, network) {
        assert 0 <= i < |all| ==> all[i] in t.evm || all[i] in t.solana;
      }
    }
  }

  predicate IsFirstRow(ts: seq<Row>, i: int, caip2: string) {
    0 <= i < |ts| && ts[i].caip2 == caip2 && forall j :: 0 <= j < i ==> ts[j].caip2 != caip2
  }

  lemma {:induction false} FirstRow(ts: seq<Row>, caip2: string)
    ensures ToLegacy(ts, caip2).Some? ==> exists i :: IsFirstRow(ts, i, caip2) && ts[i].legacy == ToLegacy(ts, caip2).value
    ensures ToLegacy(ts, caip2).None? ==> !exists i :: IsFirstRow(ts, i, caip2)
  {
    if ts != [] {
      FirstRow(ts[1..], caip2);
      if ts[0].caip2 == caip2 {
        assert IsFirstRow(ts, 0, caip2);
      } else {
        if i :| IsFirstRow(ts[1..], i, caip2) && ts[1..][i].legacy == ToLegacy(ts, caip2).value {
          assert forall j :: 0 < j < |ts| ==> ts[j] == ts[1..][j - 1];
          assert IsFirstRow(ts, i + 1, caip2);
        }
        if i :| IsFirstRow(ts, i, caip2) {
          assert forall j :: 0 <= j < |ts[1..]| ==> ts[1..][j] == ts[j + 1];
          assert IsFirstRow(ts[1..], i - 1, caip2);
        }
      }
    }
  }

  lemma {:induction false} NotIn(ts: seq<Row>, caip2: string)
    requires !exists i :: IsFirstRow(ts, i, caip2)
    ensures forall r <- ts :: r.caip2 != caip2
    decreases |ts|
  {
    if ts != [] {
      var init := ts[..|ts| - 1];
      if i :| IsFirstRow(init, i, caip2) { assert IsFirstRow(ts, i, caip2); }
      NotIn(init, caip2);
      assert forall j :: 0 <= j < |init| ==> init[j] == ts[j] && init[j] in init;
      if ts[|ts| - 1].caip2 == caip2 { assert IsFirstRow(ts, |ts| - 1, caip2); }
    }
  }

  // ----- the tables of the source are proper -----

  const TABLES := Tables(EVM_NETWORKS, SOLANA_NETWORKS)

  predicate Plain(id: string) { id != "" && id[0] != 'e' && (|id| > 6 ==> id[6] != ':') }

  lemma PlainIsUnprefixed(id: string)
    requires Plain(id)
    ensures !(EVM <= id) && !(SOLANA <= id)
  {
    assert EVM[0] == 'e' && SOLANA[6] == ':';
  }

  lemma EvmIds()
    ensures forall i :: 0 <= i < 9 ==> Plain(EVM_NETWORKS[i].legacy)
    ensures |EVM_NETWORKS| == 9
  {
    assert Plain("base") && Plain("base-sepolia") && Plain("skale-europa-testnet");
    assert Plain("polygon") && Plain("polygon-amoy") && Plain("monad") && Plain("monad-testnet");
    assert Plain("skale-base-sepolia") && Plain("skale-base");
    hide Plain;
  }

  lemma SolanaIds()
    ensures forall r <- SOLANA_NETWORKS :: Plain(r.legacy)
  {}

  lemma EvmCaip2()
    ensures forall r <- EVM_NETWORKS :: EVM <= r.caip2
  {}

  lemma SolanaCaip2()
    ensures forall r <- SOLANA_NETWORKS :: SOLANA <= r.caip2
  {}

  // Ids of different lengths, or with different first characters.
  predicate Differ(a: string, b: string) { |a| != |b| || (a != "" && b != "" && a[0] != b[0]) }

  lemma EvmDistinct()
    ensures forall i, j :: 0 <= i < j < |EVM_NETWORKS| ==> Differ(EVM_NETWORKS[i].legacy, EVM_NETWORKS[j].legacy)
  {
    assert |EVM_NETWORKS| == 9;
  }

  lemma SolanaDistinct()
    ensures forall i, j :: 0 <= i < j < |SOLANA_NETWORKS| ==> Differ(SOLANA_NETWORKS[i].legacy, SOLANA_NETWORKS[j].legacy)
  {}

  lemma TablesDistinct()
    ensures forall r <- EVM_NETWORKS, q <- SOLANA_NETWORKS :: Differ(r.legacy, q.legacy)
  {
    // A legacy id of Solana is as long as one of EVM only if that one begins with another letter.
    assert forall q <- SOLANA_NETWORKS :: q.legacy[0] == 's' && |q.legacy| in {19, 6, 13, 14};
    assert forall r <- EVM_NETWORKS :: r.legacy[0] != 's' || |r.legacy| in {20, 18, 10};
  }

  lemma TablesAreProper()
    ensures ProperTables(TABLES)
  {
    EvmIds();
    SolanaIds();
    EvmCaip2();
    SolanaCaip2();
    EvmDistinct();
    SolanaDistinct();
    TablesDistinct();
    ProperIf(EVM_NETWORKS, SOLANA_NETWORKS);
  }

  lemma ProperIf(evm: seq<Row>, solana: seq<Row>)
    requires forall r <- evm :: Plain(r.legacy) && EVM <= r.caip2
    requires forall r <- solana :: Plain(r.legacy) && SOLANA <= r.caip2
    requires forall i, j :: 0 <= i < j < |evm| ==> Differ(evm[i].legacy, evm[j].legacy)
    requires forall i, j :: 0 <= i < j < |solana| ==> Differ(solana[i].legacy, solana[j].legacy)
    requires forall r <- evm, q <- solana :: Differ(r.legacy, q.legacy)
    ensures ProperTables(Tables(evm, solana))
  {
    forall r | r in evm || r in solana
      ensures !(EVM <= r.legacy) && !(SOLANA <= r.legacy)
    {
      PlainIsUnprefixed(r.legacy);
    }
  }
}
