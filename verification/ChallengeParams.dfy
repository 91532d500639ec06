// The parameters of an MPP challenge (packages/types/src/mpp/types.ts).
module ChallengeParams {
  import opened Text

  datatype Challenge = Challenge(
    id: string, realm: string, methodName: string, intent: string, request: string,
    expires: Option<string>, description: Option<string>, opaqueData: Option<string>, digest: Option<string>)

  datatype Field = Field(name: string, value: Option<string>)

  // In the order in which formatWWWAuthenticate writes them.
  function Fields(c: Challenge): (fs: seq<Field>)
    ensures |fs| == 9
  {
    [ Field("id", Some(c.id)), Field("realm", Some(c.realm)), Field("method", Some(c.methodName)),
      Field("intent", Some(c.intent)), Field("request", Some(c.request)),
      Field("expires", c.expires), Field("description", c.description),
      Field("opaque", c.opaqueData), Field("digest", c.digest) ]
  }

  function Lookup(m: map<string, string>, k: string): Option<string> {
    if k in m then Some(m[k]) else None
  }

  // The validator: five required strings, four optional ones.
  function FromParams(m: map<string, string>): Option<Challenge> {
    if "id" in m && "realm" in m && "method" in m && "intent" in m && "request" in m then
      Some(Challenge(m["id"], m["realm"], m["method"], m["intent"], m["request"],
        Lookup(m, "expires"), Lookup(m, "description"), Lookup(m, "opaque"), Lookup(m, "digest")))
    else None
  }

  function Params(fs: seq<Field>): map<string, string> {
    if fs == [] then map[]
    else if fs[0].value.None? then Params(fs[1..])
    else Params(fs[1..])[fs[0].name := fs[0].value.value]
  }

  // Every name is a word of letters.
  predicate IsName(k: string) { k != "" && forall c <- k :: IsLetter(c) }

  predicate DistinctNames(fs: seq<Field>) {
    && (forall i, j :: 0 <= i < j < |fs| ==> fs[i].name != fs[j].name)
    && (forall f <- fs :: IsName(f.name))
  }

  lemma FieldsDistinct(c: Challenge)
    ensures DistinctNames(Fields(c))
  {
    hide IsName;
    var fs := Fields(c);
    RequiredNames();
    OptionalNames();
    assert fs[0].name == "id" && fs[1].name == "realm" && fs[2].name == "method" && fs[3].name == "intent";
    assert fs[4].name == "request" && fs[5].name == "expires" && fs[6].name == "description";
    assert fs[7].name == "opaque" && fs[8].name == "digest";
    assert fs[2].name[0] == 'm' && fs[3].name[0] == 'i' && fs[7].name[0] == 'o' && fs[8].name[0] == 'd';
    assert fs[4].name[0] == 'r' && fs[5].name[0] == 'e';
  }

  lemma RequiredNames()
    ensures IsName("id") && IsName("realm") && IsName("method") && IsName("intent") && IsName("request")
  {}

  lemma OptionalNames()
    ensures IsName("expires") && IsName("description") && IsName("opaque") && IsName("digest")
  {}

  lemma {:induction false} ParamOf(fs: seq<Field>, i: nat)
    requires DistinctNames(fs) && i < |fs|
    ensures Lookup(Params(fs), fs[i].name) == fs[i].value
  {
    hide IsName;
    assert DistinctNames(fs[1..]);
    if i > 0 {
      ParamOf(fs[1..], i - 1);
      assert fs[1..][i - 1] == fs[i];
    } else {
      OnlyNames(fs[1..], fs[0].name);
    }
  }

  lemma {:induction false} OnlyNames(fs: seq<Field>, k: string)
    requires forall f <- fs :: f.name != k
    ensures k !in Params(fs)
  {
    if fs != [] { OnlyNames(fs[1..], k); }
  }

  // The parameters of a challenge by name, the optional ones where they are.
  lemma ParamsAre(c: Challenge)
    ensures var m := Params(Fields(c));
      && Lookup(m, "id") == Some(c.id) && Lookup(m, "realm") == Some(c.realm) && Lookup(m, "method") == Some(c.methodName)
      && Lookup(m, "intent") == Some(c.intent) && Lookup(m, "request") == Some(c.request)
      && Lookup(m, "expires") == c.expires && Lookup(m, "description") == c.description
      && Lookup(m, "opaque") == c.opaqueData && Lookup(m, "digest") == c.digest
  {
    hide Params, DistinctNames;
    var fs := Fields(c);
    FieldsDistinct(c);
    ParamOf(fs, 0);
    ParamOf(fs, 1);
    ParamOf(fs, 2);
    ParamOf(fs, 3);
    ParamOf(fs, 4);
    ParamOf(fs, 5);
    ParamOf(fs, 6);
    ParamOf(fs, 7);
    ParamOf(fs, 8);
  }

  // The validator gives back the challenge whose parameters it is shown.
  lemma FromParamsOf(c: Challenge)
    ensures FromParams(Params(Fields(c))) == Some(c)
  {
    hide Params, Fields;
    ParamsAre(c);
  }
}
