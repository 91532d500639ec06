// serializeCredential and parseAuthorizationPayment (packages/types/src/mpp/encoding.ts).
module Credential {
  import opened Text
  import opened ChallengeParams
  import opened JsonText
  import opened CanonicalJson
  import Base64Url
  import Utf8

  datatype Credential = Credential(challenge: Challenge, source: Option<string>, payload: Members)

  const SOURCE := "source"
  const CHALLENGE := "challenge"
  const PAYLOAD := "payload"

  // ----- writing -----

  function MembersOf(fs: seq<Field>): Members {
    if fs == [] then NoMembers
    else if fs[0].value.None? then MembersOf(fs[1..])
    else Member(fs[0].name, Str(fs[0].value.value), MembersOf(fs[1..]))
  }

  function ToJson(c: Credential): Json {
    var payload := Member(PAYLOAD, Obj(c.payload), NoMembers);
    var rest := if c.source.None? then payload else Member(SOURCE, Str(c.source.value), payload);
    Obj(Member(CHALLENGE, Obj(MembersOf(Fields(c.challenge))), rest))
  }

  // None: canonicalizeSortedJSON throws.
  function Serialize(c: Credential): Option<string> {
    var t := Canonicalize(ToJson(c));
    if t.None? then None else Some(Utf8.EncodeText(t.value))
  }

  // ----- reading -----

  function Get(ms: Members, k: string): Option<Json> {
    match ms
    case NoMembers => None
    case Member(l, v, tail) => if l == k then Some(v) else Get(tail, k)
  }

  // The members that are strings.
  function Texts(ms: Members): map<string, string> {
    match ms
    case NoMembers => map[]
    case Member(k, v, tail) => if v.Str? then Texts(tail)[k := v.s] else Texts(tail) - {k}
  }

  // Absent, or a string.
  predicate MaybeText(ms: Members, k: string) { Get(ms, k).None? || Get(ms, k).value.Str? }

  function ToChallenge(ms: Members): Option<Challenge> {
    if MaybeText(ms, "expires") && MaybeText(ms, "description") && MaybeText(ms, "opaque") && MaybeText(ms, "digest")
    then FromParams(Texts(ms)) else None
  }

  // The validator.
  function FromJson(v: Json): Option<Credential> {
    if !v.Obj? then None
    else
      var ch, source, payload := Get(v.members, CHALLENGE), Get(v.members, SOURCE), Get(v.members, PAYLOAD);
      if ch.None? || !ch.value.Obj? || payload.None? || !payload.value.Obj? || !MaybeText(v.members, SOURCE) then None
      else
        var c := ToChallenge(ch.value.members);
        if c.None? then None
        else Some(Credential(c.value, if source.None? then None else Some(source.value.s), payload.value.members))
  }

  // toLowerCase, as far as it can give a letter of ASCII that this file compares.
  function Lower(s: string): string {
    seq(|s|, i requires 0 <= i < |s| => if 'A' <= s[i] <= 'Z' then (s[i] as int + 32) as char else s[i])
  }

  function ParseAuthorizationPayment(header: string): Option<Credential> {
    if |header| < 8 || Lower(header[..8]) != "payment " then None
    else
      var decoded := Utf8.DecodeText(Trim(header[8..]));
      if decoded.None? then None
      else
        var parsed := Parse(decoded.value);
        if parsed.None? then None else FromJson(parsed.value)
  }

  // ----- reading what was written -----

  lemma {:induction false} GetMeans(ms: Members, k: string)
    ensures Get(ms, k).Some? <==> k in MembersMean(ms, true)
    ensures Get(ms, k).Some? ==> Means(Get(ms, k).value, true) == MembersMean(ms, true)[k]
  {
    hide Means;
    if ms.Member? { GetMeans(ms.tail, k); }
  }

  // The meaning of an object of strings.
  function Quoted(m: map<string, string>): map<string, Meaning> { map k | k in m :: MStr(m[k]) }

  lemma {:induction false} FieldsMean(fs: seq<Field>)
    requires DistinctNames(fs)
    ensures MembersMean(MembersOf(fs), false) == Quoted(Params(fs))
    ensures ProperMembers(MembersOf(fs)) && FiniteMembers(MembersOf(fs))
  {
    if fs != [] {
      assert IsName(fs[0].name);
      assert fs[0].name != PROTO by { assert PROTO[0] == '_' && '_' in PROTO; }
      assert DistinctNames(fs[1..]);
      FieldsMean(fs[1..]);
      NotNamed(fs[1..], fs[0].name);
      if fs[0].value.Some? {
        var v := fs[0].value.value;
        assert Means(Str(v), false) == MStr(v) && Proper(Str(v)) && Finite(Str(v));
        assert MembersMean(MembersOf(fs), false) == MembersMean(MembersOf(fs[1..]), false)[fs[0].name := MStr(v)];
        assert Quoted(Params(fs)) == Quoted(Params(fs[1..]))[fs[0].name := MStr(v)];
      }
    }
  }

  lemma {:induction false} NotNamed(fs: seq<Field>, k: string)
    requires forall f <- fs :: f.name != k
    ensures !HasKey(MembersOf(fs), k)
  {
    if fs != [] { NotNamed(fs[1..], k); }
  }

  lemma {:induction false} TextsMean(ms: Members, k: string)
    ensures k in Texts(ms) <==> k in MembersMean(ms, true) && MembersMean(ms, true)[k].MStr?
    ensures k in Texts(ms) ==> MembersMean(ms, true)[k] == MStr(Texts(ms)[k])
  {
    if ms.Member? { TextsMean(ms.tail, k); }
  }

  // An object that means the parameters of a challenge is read as that challenge.
  lemma ToChallengeOf(ms: Members, c: Challenge)
    requires MembersMean(ms, true) == Quoted(Params(Fields(c)))
    ensures ToChallenge(ms) == Some(c)
  {
    hide MembersMean, Get, Texts, Fields, FromParams;
    var m := Params(Fields(c));
    forall k: string
      ensures (k in Texts(ms) <==> k in m) && (k in m ==> Texts(ms)[k] == m[k])
    {
      TextsMean(ms, k);
    }
    assert Texts(ms) == m;
    FromParamsOf(c);
    TextOnly(ms, "expires");
    TextOnly(ms, "description");
    TextOnly(ms, "opaque");
    TextOnly(ms, "digest");
  }

  lemma TextOnly(ms: Members, k: string)
    requires forall l <- MembersMean(ms, true) :: MembersMean(ms, true)[l].MStr?
    ensures MaybeText(ms, k)
  {
    GetMeans(ms, k);
  }

  // Every part of the object that means a credential.
  lemma WholeMeans(c: Credential)
    ensures ToJson(c).Obj?
    ensures var m := MembersMean(ToJson(c).members, false);
      && m.Keys == {CHALLENGE, PAYLOAD} + (if c.source.Some? then {SOURCE} else {})
      && m[CHALLENGE] == MObj(Quoted(Params(Fields(c.challenge))))
      && m[PAYLOAD] == MObj(MembersMean(c.payload, false))
      && (c.source.Some? ==> m[SOURCE] == MStr(c.source.value))
    ensures ProperMembers(c.payload) ==> Proper(ToJson(c))
    ensures Finite(ToJson(c)) <==> FiniteMembers(c.payload)
  {
    hide MembersOf, Fields, Params, DistinctNames;
    FieldsDistinct(c.challenge);
    FieldsMean(Fields(c.challenge));
    assert |SOURCE| == 6 && |CHALLENGE| == 9 && |PAYLOAD| == 7 && PROTO[0] == '_' && CHALLENGE[0] == 'c';
    var payload := Member(PAYLOAD, Obj(c.payload), NoMembers);
    assert MembersMean(payload, false) == map[PAYLOAD := MObj(MembersMean(c.payload, false))];
    assert Proper(Obj(c.payload)) <==> ProperMembers(c.payload);
    assert Finite(Obj(c.payload)) <==> FiniteMembers(c.payload);
    assert ProperMembers(c.payload) ==> ProperMembers(payload);
    assert FiniteMembers(payload) <==> FiniteMembers(c.payload);
    var rest := if c.source.None? then payload else Member(SOURCE, Str(c.source.value), payload);
    assert FiniteMembers(rest) <==> FiniteMembers(c.payload);
    assert !HasKey(payload, CHALLENGE) && !HasKey(payload, SOURCE) by { assert !HasKey(payload.tail, SOURCE); }
    assert !HasKey(rest, CHALLENGE);
    assert ProperMembers(c.payload) ==> ProperMembers(rest);
    var ch := MembersOf(Fields(c.challenge));
    assert Proper(Obj(ch)) && Finite(Obj(ch));
    assert Means(Obj(ch), false) == MObj(Quoted(Params(Fields(c.challenge))));
    var all := Member(CHALLENGE, Obj(ch), rest);
    assert ProperMembers(c.payload) ==> ProperMembers(all);
    assert Proper(Obj(all)) <==> ProperMembers(all);
    if c.source.Some? {
      assert Means(Str(c.source.value), false) == MStr(c.source.value);
      assert MembersMean(rest, false)[SOURCE] == MStr(c.source.value);
    }
  }

  // A JSON value with the meaning of a credential is validated as it.
  lemma FromJsonOf(v: Json, c: Credential)
    requires Means(v, true) == Means(ToJson(c), false)
    ensures FromJson(v).Some?
    ensures var r := FromJson(v).value;
      r.challenge == c.challenge && r.source == c.source
      && MembersMean(r.payload, true) == MembersMean(c.payload, false)
  {
    hide ToJson, MembersMean, Get, ToChallenge, Quoted, Fields, Params;
    WholeMeans(c);
    assert v.Obj? && MembersMean(v.members, true) == MembersMean(ToJson(c).members, false);
    GetMeans(v.members, CHALLENGE);
    GetMeans(v.members, SOURCE);
    GetMeans(v.members, PAYLOAD);
    assert |SOURCE| == 6 && |CHALLENGE| == 9 && |PAYLOAD| == 7;
    ToChallengeOf(Get(v.members, CHALLENGE).value.members, c.challenge);
  }

  lemma TrimNothing(s: string)
    requires forall c <- s :: !IsSpace(c)
    ensures Trim(s) == s
  {
    assert SkipSpace(s, 0) == 0;
    assert DropSpace(s, 0, |s|) == |s|;
    assert s[0..|s|] == s;
  }

  // What a server reads from the header of a client is the credential that the
  // client wrote, up to the order of the members of its payload; members named
  // __proto__ are lost, at every depth.
  lemma CredentialRoundTrip(c: Credential)
    requires ProperMembers(c.payload) && FiniteMembers(c.payload)
    ensures Serialize(c).Some?
    ensures var r := ParseAuthorizationPayment("Payment " + Serialize(c).value);
      && r.Some? && r.value.challenge == c.challenge && r.value.source == c.source
      && MembersMean(r.value.payload, true) == MembersMean(c.payload, false)
      && (MembersMean(r.value.payload, true) == MembersMean(c.payload, true) <==> NoProtoMembers(c.payload))
  {
    hide ToJson, Means, Canon, FromJson, Parse, Canonicalize, Utf8.EncodeText, Utf8.DecodeText, ReadBack, Trim, Proper, Finite;
    WholeMeans(c);
    var j := ToJson(c);
    var text := Serialized(c);
    var token := Utf8.EncodeText(text);
    var header := "Payment " + token;
    assert header[..8] == "Payment " && header[8..] == token;
    assert Lower("Payment ") == "payment ";
    TrimNothing(token);
    FromJsonOf(Canon(j), c);
    KeepNoMember(c.payload);
  }

  // The text under the encoding is a JSON object, so it has no byte order mark.
  lemma Serialized(c: Credential) returns (text: string)
    requires Proper(ToJson(c)) && Finite(ToJson(c))
    ensures Canonicalize(ToJson(c)) == Some(text) && Parse(text) == Some(Canon(ToJson(c)))
    ensures Means(Canon(ToJson(c)), true) == Means(ToJson(c), false)
    ensures Utf8.DecodeText(Utf8.EncodeText(text)) == Some(text)
    ensures forall ch <- Utf8.EncodeText(text) :: !IsSpace(ch)
  {
    hide Means, Parse, Utf8.DecodeText, Proper, Finite, Canon, Print;
    ReadsCanon(ToJson(c));
    text := Canonicalize(ToJson(c)).value;
    ObjectText(ToJson(c).members);
    Utf8.TextRoundTrip(text);
    NoSpace(Utf8.Encode(text));
  }

  lemma ObjectText(ms: Members)
    ensures Print(Canon(Obj(ms))) != "" && Print(Canon(Obj(ms)))[0] == '{'
  {}

  lemma NoSpace(bs: seq<Base64Url.Byte>)
    ensures forall c <- Base64Url.EncodeBytes(bs) :: !IsSpace(c)
  {
    Base64Url.EncodedIs(bs);
  }

  // ----- what is refused -----

  predicate HasText(m: map<string, Meaning>, k: string) { k in m && m[k].MStr? }

  predicate TextIfAny(m: map<string, Meaning>, k: string) { k in m ==> m[k].MStr? }

  // An object whose required members are strings, and the optional ones if there.
  predicate IsChallenge(m: map<string, Meaning>) {
    && HasText(m, "id") && HasText(m, "realm") && HasText(m, "method") && HasText(m, "intent") && HasText(m, "request")
    && TextIfAny(m, "expires") && TextIfAny(m, "description") && TextIfAny(m, "opaque") && TextIfAny(m, "digest")
  }

  lemma ToChallengeIff(ms: Members)
    ensures ToChallenge(ms).Some? <==> IsChallenge(MembersMean(ms, true))
  {
    hide MembersMean, Get, Texts;
    forall k: string
      ensures k in Texts(ms) <==> HasText(MembersMean(ms, true), k)
      ensures MaybeText(ms, k) <==> TextIfAny(MembersMean(ms, true), k)
    {
      TextsMean(ms, k);
      TextIff(ms, k);
    }
  }

  lemma TextIff(ms: Members, k: string)
    ensures MaybeText(ms, k) <==> TextIfAny(MembersMean(ms, true), k)
  {
    hide MembersMean, Get;
    GetMeans(ms, k);
    if Get(ms, k).Some? { StrIff(Get(ms, k).value); }
  }

  lemma StrIff(v: Json)
    ensures v.Str? <==> Means(v, true).MStr?
    ensures v.Obj? <==> Means(v, true).MObj?
    ensures v.Obj? ==> Means(v, true).members == MembersMean(v.members, true)
  {}

  // A JSON value is a credential exactly when it is an object with a challenge, an
  // object as its payload, and no source but a string.
  lemma FromJsonIff(v: Json)
    ensures FromJson(v).Some? <==>
      && Means(v, true).MObj?
      && var m := Means(v, true).members;
        && CHALLENGE in m && m[CHALLENGE].MObj? && IsChallenge(m[CHALLENGE].members)
        && PAYLOAD in m && m[PAYLOAD].MObj? && TextIfAny(m, SOURCE)
  {
    hide Means, MembersMean, Get, ToChallenge, IsChallenge, MaybeText, TextIfAny;
    StrIff(v);
    if v.Obj? {
      GetMeans(v.members, CHALLENGE);
      GetMeans(v.members, PAYLOAD);
      TextIff(v.members, SOURCE);
      var ch, payload := Get(v.members, CHALLENGE), Get(v.members, PAYLOAD);
      if payload.Some? { StrIff(payload.value); }
      if ch.Some? {
        StrIff(ch.value);
        if ch.value.Obj? { ToChallengeIff(ch.value.members); }
      }
    }
  }

  // The same letter in either case.
  predicate SameLetter(c: char, l: char) { c == l || ('a' <= l <= 'z' && c as int == l as int - 32) }

  predicate IsScheme(s: string) { |s| == 8 && forall i :: 0 <= i < 8 ==> SameLetter(s[i], "payment "[i]) }

  // The scheme is read in any case, and nothing else is.
  lemma SchemeIsRead(header: string)
    ensures if |header| >= 8 && IsScheme(header[..8])
            then ParseAuthorizationPayment(header) == ParseAuthorizationPayment("Payment " + header[8..])
            else ParseAuthorizationPayment(header) == None
  {
    hide Utf8.DecodeText, Parse, FromJson, Trim;
    var p := "Payment ";
    assert (p + (if |header| >= 8 then header[8..] else ""))[..8] == p;
    LowerIs(p);
    assert Lower(p) == "payment ";
    if |header| >= 8 {
      LowerIs(header[..8]);
      assert (p + header[8..])[8..] == header[8..];
    }
  }

  lemma LowerIs(s: string)
    requires |s| == 8
    ensures Lower(s) == "payment " <==> IsScheme(s)
  {
    var l := "payment ";
    assert forall i :: 0 <= i < 8 ==> l[i] == ' ' || 'a' <= l[i] <= 'z';
    if IsScheme(s) {
      forall i | 0 <= i < 8 ensures Lower(s)[i] == l[i] { assert SameLetter(s[i], l[i]); }
      assert Lower(s) == l;
    }
    if Lower(s) == l {
      forall i | 0 <= i < 8 ensures SameLetter(s[i], l[i]) { assert Lower(s)[i] == l[i]; }
    }
  }

  // White space around the token is no part of it.
  lemma SpacedToken(a: string, token: string, b: string)
    requires Blank(a) && Solid(token) && Blank(b)
    ensures ParseAuthorizationPayment("Payment " + (a + token + b)) == ParseAuthorizationPayment("Payment " + token)
  {
    hide Utf8.DecodeText, Parse, FromJson, Trim, Blank, Solid;
    var p := "Payment ";
    assert (p + (a + token + b))[8..] == a + token + b && (p + (a + token + b))[..8] == p;
    assert (p + token)[8..] == token && (p + token)[..8] == p;
    assert "" + token + "" == token && Blank("") by { NothingBlank(); }
    TrimIs(a, token, b);
    TrimIs("", token, "");
  }

  lemma NothingBlank()
    ensures Blank("")
  {}
}
