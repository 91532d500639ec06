// canonicalizeSortedJSON (packages/types/src/mpp/encoding.ts): JSON text that
// depends on the members of an object, not on their order.
module CanonicalJson {
  import opened Text
  import opened JsonText
  import opened KeyOrder

  const PROTO := "__proto__"

  // ----- the program -----

  // Object.keys(value).sort(), with the values that the keys have.
  function PutByUnits(k: string, v: Json, ms: Members): Members {
    match ms
    case NoMembers => Member(k, v, NoMembers)
    case Member(l, w, tail) =>
      if Less(Units(l), Units(k)) then Member(l, w, PutByUnits(k, v, tail)) else Member(k, v, ms)
  }

  function SortByUnits(ms: Members): Members {
    match ms
    case NoMembers => NoMembers
    case Member(k, v, tail) => PutByUnits(k, v, SortByUnits(tail))
  }

  // The members of an object, as it enumerates them, after sorted[k] = v with a
  // new k (section 10.1.11.1 of ECMA-262). Assigning to __proto__ makes no member:
  // it sets the prototype, or nothing at all.
  function Assign(ms: Members, k: string, v: Json): Members {
    if k == PROTO then ms else if IsIndex(k) then PutIndex(ms, k, v) else Append(ms, k, v)
  }

  function PutIndex(ms: Members, k: string, v: Json): Members
    requires IsIndex(k)
  {
    match ms
    case NoMembers => Member(k, v, NoMembers)
    case Member(l, w, tail) =>
      if IsIndex(l) && DecimalValue(l) < DecimalValue(k) then Member(l, w, PutIndex(tail, k, v)) else Member(k, v, ms)
  }

  function Append(ms: Members, k: string, v: Json): Members {
    match ms
    case NoMembers => Member(k, v, NoMembers)
    case Member(l, w, tail) => Member(l, w, Append(tail, k, v))
  }

  function AssignAll(ms: Members, keys: Members): Members
    decreases keys
  {
    match keys
    case NoMembers => ms
    case Member(k, v, tail) => AssignAll(Assign(ms, k, v), tail)
  }

  method Rebuild(value: Members) returns (sorted: Members)
    ensures sorted == AssignAll(NoMembers, SortByUnits(value))
  {
    sorted := NoMembers;
    var keys := SortByUnits(value);
    while keys != NoMembers
      invariant AssignAll(sorted, keys) == AssignAll(NoMembers, SortByUnits(value))
      decreases keys
    {
      sorted := Assign(sorted, keys.key, keys.value);
      keys := keys.tail;
    }
  }

  // The replacer at every depth.
  function Canon(v: Json): Json {
    match v
    case Arr(items) => Arr(CanonItems(items))
    case Obj(ms) => Obj(AssignAll(NoMembers, SortByUnits(CanonMembers(ms))))
    case _ => v
  }

  function CanonItems(items: Items): Items {
    match items
    case NoItems => NoItems
    case Item(v, tail) => Item(Canon(v), CanonItems(tail))
  }

  function CanonMembers(ms: Members): Members {
    match ms
    case NoMembers => NoMembers
    case Member(k, v, tail) => Member(k, Canon(v), CanonMembers(tail))
  }

  // No NaN and no infinity among the values the replacer visits.
  predicate Finite(v: Json) {
    match v
    case NotFinite => false
    case Arr(items) => FiniteItems(items)
    case Obj(ms) => FiniteMembers(ms)
    case _ => true
  }

  predicate FiniteItems(items: Items) {
    match items
    case NoItems => true
    case Item(v, tail) => Finite(v) && FiniteItems(tail)
  }

  predicate FiniteMembers(ms: Members) {
    match ms
    case NoMembers => true
    case Member(k, v, tail) => (k == PROTO || Finite(v)) && FiniteMembers(tail)
  }

  // None: the replacer throws.
  function Canonicalize(v: Json): Option<string> {
    if Finite(v) then Some(Print(Canon(v))) else None
  }

  // ----- what a JSON value means -----

  // An object is the map of its members.
  datatype Meaning = MNull | MBool(b: bool) | MNum(text: string) | MNotFinite | MStr(s: string)
    | MArr(items: seq<Meaning>) | MObj(members: map<string, Meaning>)

  // keep: members named __proto__ count as well.
  function Means(v: Json, keep: bool): Meaning {
    match v
    case Null => MNull
    case Bool(b) => MBool(b)
    case Num(t) => MNum(t)
    case NotFinite => MNotFinite
    case Str(s) => MStr(s)
    case Arr(items) => MArr(ItemsMean(items, keep))
    case Obj(ms) => MObj(MembersMean(ms, keep))
  }

  function ItemsMean(items: Items, keep: bool): seq<Meaning> {
    match items
    case NoItems => []
    case Item(v, tail) => [Means(v, keep)] + ItemsMean(tail, keep)
  }

  function MembersMean(ms: Members, keep: bool): map<string, Meaning> {
    match ms
    case NoMembers => map[]
    case Member(k, v, tail) =>
      if k == PROTO && !keep then MembersMean(tail, keep) else MembersMean(tail, keep)[k := Means(v, keep)]
  }

  // No object has a member named __proto__.
  predicate NoProto(v: Json) {
    match v
    case Arr(items) => NoProtoItems(items)
    case Obj(ms) => NoProtoMembers(ms)
    case _ => true
  }

  predicate NoProtoItems(items: Items) {
    match items
    case NoItems => true
    case Item(v, tail) => NoProto(v) && NoProtoItems(tail)
  }

  predicate NoProtoMembers(ms: Members) {
    match ms
    case NoMembers => true
    case Member(k, v, tail) => k != PROTO && NoProto(v) && NoProtoMembers(tail)
  }

  lemma {:induction false} MeansHas(ms: Members, keep: bool, k: string)
    ensures k in MembersMean(ms, keep) <==> HasKey(ms, k) && (keep || k != PROTO)
  {
    if ms != NoMembers { MeansHas(ms.tail, keep, k); }
  }

  // ----- canonical form -----

  // Members sorted and no __proto__, at every depth.
  predicate IsCanon(v: Json) {
    match v
    case Arr(items) => IsCanonItems(items)
    case Obj(ms) => IsCanonMembers(ms)
    case NotFinite => false
    case Num(t) => t != "" && NumberEnd(t, 0) == |t|
    case _ => true
  }

  predicate IsCanonItems(items: Items) {
    match items
    case NoItems => true
    case Item(v, tail) => IsCanon(v) && IsCanonItems(tail)
  }

  predicate IsCanonMembers(ms: Members) {
    match ms
    case NoMembers => true
    case Member(k, v, tail) =>
      && k != PROTO && (tail.Member? ==> Before(k, tail.key))
      && IsCanon(v) && IsCanonMembers(tail)
  }

  // Every key of a sorted list comes after its first one.
  lemma {:induction false} FirstIsLeast(ms: Members, k: string)
    requires ms.Member? && IsCanonMembers(ms) && HasKey(ms.tail, k)
    ensures Before(ms.key, k)
    decreases ms
  {
    hide Rank, Less, IsCanon;
    var tail := ms.tail;
    if tail.key != k {
      FirstIsLeast(tail, k);
      LessTransitive(Rank(ms.key), Rank(tail.key), Rank(k));
    }
  }

  // An object's members have distinct names and a number is what
  // Number::toString writes for it.
  predicate Proper(v: Json) {
    match v
    case Num(t) => t != "" && NumberEnd(t, 0) == |t|
    case Arr(items) => ProperItems(items)
    case Obj(ms) => ProperMembers(ms)
    case _ => true
  }

  predicate ProperItems(items: Items) {
    match items
    case NoItems => true
    case Item(v, tail) => Proper(v) && ProperItems(tail)
  }

  predicate ProperMembers(ms: Members) {
    match ms
    case NoMembers => true
    case Member(k, v, tail) => !HasKey(tail, k) && Proper(v) && ProperMembers(tail)
  }

  // The canonical form means the same, __proto__ members aside.
  lemma {:induction false} CanonMeans(v: Json)
    requires Proper(v) && Finite(v)
    ensures IsCanon(Canon(v)) && Means(Canon(v), true) == Means(v, false)
    decreases v, 1
  {
    match v
    case Arr(items) => CanonItemsMean(items);
    case Obj(ms) => CanonMembersMean(ms); RebuiltKeeps(CanonMembers(ms));
    case _ =>
  }

  lemma {:induction false} CanonItemsMean(items: Items)
    requires ProperItems(items) && FiniteItems(items)
    ensures IsCanonItems(CanonItems(items)) && ItemsMean(CanonItems(items), true) == ItemsMean(items, false)
    decreases items, 0
  {
    hide Canon, IsCanon, Means, Proper, Finite;
    if items.Item? {
      CanonMeans(items.head);
      CanonItemsMean(items.tail);
    }
  }

  lemma {:induction false} CanonMembersMean(ms: Members)
    requires ProperMembers(ms) && FiniteMembers(ms)
    ensures var c := CanonMembers(ms);
      && AreProper(c) && (forall k :: HasKey(c, k) <==> HasKey(ms, k))
      && KeptMeaning(c) == MembersMean(ms, false)
    decreases ms, 0
  {
    hide Canon, IsCanon, Means, Proper, Finite;
    if ms.Member? {
      CanonMembersMean(ms.tail);
      if ms.key != PROTO { CanonMeans(ms.value); }
    }
  }

  // ----- sorting and assigning -----

  // Different keys, and canonical values but for those of __proto__.
  predicate AreProper(ms: Members) {
    match ms
    case NoMembers => true
    case Member(k, v, tail) => !HasKey(tail, k) && (k == PROTO || IsCanon(v)) && AreProper(tail)
  }

  // The meaning of the members that are kept.
  function KeptMeaning(ms: Members): map<string, Meaning> {
    match ms
    case NoMembers => map[]
    case Member(k, v, tail) => if k == PROTO then KeptMeaning(tail) else KeptMeaning(tail)[k := Means(v, true)]
  }

  predicate LessUnits(k: string, l: string) { Less(Units(k), Units(l)) }

  lemma UnitsTotal(k: string, l: string)
    ensures k != l ==> LessUnits(k, l) || LessUnits(l, k)
    ensures !(LessUnits(k, l) && LessUnits(l, k)) && !LessUnits(k, k)
  {
    LessTotal(Units(k), Units(l));
    LessTotal(Units(k), Units(k));
    if Units(k) == Units(l) { UnitsInjective(k, l); }
  }

  // Every key has fewer units than all that follow it.
  predicate SortedByUnits(ms: Members) {
    match ms
    case NoMembers => true
    case Member(k, _, tail) => AllAfter(k, tail) && SortedByUnits(tail)
  }

  predicate AllAfter(k: string, ms: Members) {
    match ms
    case NoMembers => true
    case Member(l, _, tail) => LessUnits(k, l) && AllAfter(k, tail)
  }

  lemma {:induction false} AllAfterHas(k: string, ms: Members, l: string)
    requires AllAfter(k, ms) && HasKey(ms, l)
    ensures LessUnits(k, l)
  {
    hide LessUnits;
    if ms.key != l { AllAfterHas(k, ms.tail, l); }
  }

  lemma {:induction false} AllAfterLess(k: string, l: string, ms: Members)
    requires LessUnits(k, l) && AllAfter(l, ms)
    ensures AllAfter(k, ms)
  {
    if ms.Member? {
      LessTransitive(Units(k), Units(l), Units(ms.key));
      AllAfterLess(k, l, ms.tail);
    }
  }

  lemma {:induction false} PutSorts(k: string, v: Json, ms: Members)
    requires SortedByUnits(ms) && AreProper(ms) && !HasKey(ms, k) && (k == PROTO || IsCanon(v))
    ensures var r := PutByUnits(k, v, ms);
      && SortedByUnits(r) && AreProper(r) && (forall l :: HasKey(r, l) <==> HasKey(ms, l) || l == k)
      && (forall l :: AllAfter(l, ms) && LessUnits(l, k) ==> AllAfter(l, r))
      && KeptMeaning(r) == if k == PROTO then KeptMeaning(ms) else KeptMeaning(ms)[k := Means(v, true)]
    decreases ms
  {
    hide Units, Less, IsCanon, Means;
    if ms.Member? {
      UnitsTotal(ms.key, k);
      if LessUnits(ms.key, k) { PutSorts(k, v, ms.tail); } else { AllAfterLess(k, ms.key, ms.tail); }
    }
  }

  lemma {:induction false} SortSorts(ms: Members)
    requires AreProper(ms)
    ensures var r := SortByUnits(ms);
      && SortedByUnits(r) && AreProper(r) && (forall l :: HasKey(r, l) <==> HasKey(ms, l))
      && KeptMeaning(r) == KeptMeaning(ms)
  {
    hide IsCanon, Means, PutByUnits, SortedByUnits;
    if ms.Member? {
      SortSorts(ms.tail);
      PutSorts(ms.key, ms.value, SortByUnits(ms.tail));
    } else {
      NothingSorted();
    }
  }

  lemma NothingSorted()
    ensures SortedByUnits(NoMembers)
  {}

  // All keys of ms have fewer units than k.
  predicate AllBefore(ms: Members, k: string) {
    match ms
    case NoMembers => true
    case Member(l, _, tail) => LessUnits(l, k) && AllBefore(tail, k)
  }

  lemma {:induction false} AllBeforeLess(ms: Members, k: string, l: string)
    requires AllBefore(ms, k) && LessUnits(k, l)
    ensures AllBefore(ms, l)
  {
    if ms.Member? {
      LessTransitive(Units(ms.key), Units(k), Units(l));
      AllBeforeLess(ms.tail, k, l);
    }
  }

  // An assignment keeps the enumeration in order,
  lemma {:induction false} AssignKeeps(ms: Members, k: string, v: Json)
    requires k != PROTO && IsCanon(v) && IsCanonMembers(ms) && AllBefore(ms, k)
    ensures var r := Assign(ms, k, v);
      && IsCanonMembers(r)
      && r.Member? && (r.key == k || (ms.Member? && r.key == ms.key))
    decreases ms
  {
    hide Before, IsCanon, Means, IsIndex, LessUnits, DecimalValue;
    if ms.Member? {
      UnitsTotal(ms.key, k);
      BeforeByUnits(ms.key, k);
      if Before(ms.key, k) { AssignKeeps(ms.tail, k, v); }
    }
  }

  // and adds one entry to its map.
  lemma {:induction false} AssignMeans(ms: Members, k: string, v: Json)
    requires k != PROTO && AllBefore(ms, k)
    ensures MembersMean(Assign(ms, k, v), true) == MembersMean(ms, true)[k := Means(v, true)]
    decreases ms
  {
    hide IsIndex, LessUnits, DecimalValue, Means;
    if ms.Member? {
      UnitsTotal(ms.key, k);
      AssignMeans(ms.tail, k, v);
    }
  }

  lemma {:induction false} AssignBefore(ms: Members, k: string, v: Json, l: string)
    requires AllBefore(ms, l) && LessUnits(k, l)
    ensures AllBefore(Assign(ms, k, v), l)
    decreases ms
  {
    hide IsIndex, LessUnits, DecimalValue;
    if ms.Member? && k != PROTO { AssignBefore(ms.tail, k, v, l); }
  }

  lemma BeforeByUnits(l: string, k: string)
    requires LessUnits(l, k)
    ensures Before(l, k) <==> !IsIndex(k) || (IsIndex(l) && DecimalValue(l) < DecimalValue(k))
    ensures Before(l, k) || Before(k, l)
  {
    hide Before, IsIndex, Less, DecimalValue;
    BeforeIs(l, k);
    LessTotal(Units(l), Units(l));
    BeforeTotal(l, k);
  }

  // All keys of one list have fewer units than those of the other.
  predicate Precede(ms: Members, keys: Members) {
    match keys
    case NoMembers => true
    case Member(k, _, tail) => AllBefore(ms, k) && Precede(ms, tail)
  }

  lemma {:induction false} PrecedeAlso(ms: Members, k: string, v: Json, keys: Members)
    requires Precede(ms, keys) && AllAfter(k, keys)
    ensures Precede(Assign(ms, k, v), keys)
    decreases keys
  {
    hide AllBefore, LessUnits, Assign;
    if keys.Member? {
      AssignBefore(ms, k, v, keys.key);
      PrecedeAlso(ms, k, v, keys.tail);
    }
  }

  // The loop keeps the enumeration in order and puts every member there.
  lemma {:induction false} AssignAllKeeps(ms: Members, keys: Members)
    requires IsCanonMembers(ms) && AreProper(keys) && SortedByUnits(keys) && Precede(ms, keys)
    requires forall l :: HasKey(keys, l) ==> l !in MembersMean(ms, true)
    ensures var r := AssignAll(ms, keys);
      IsCanonMembers(r) && MembersMean(r, true) == MembersMean(ms, true) + KeptMeaning(keys)
    decreases keys
  {
    hide IsCanonMembers, IsCanon, Means, Assign, AllBefore, LessUnits, MembersMean;
    if keys.Member? {
      var k, v := keys.key, keys.value;
      if k == PROTO {
        AssignProto(ms, v);
        AssignAllKeeps(ms, keys.tail);
      } else {
        AssignKeeps(ms, k, v);
        AssignMeans(ms, k, v);
        PrecedeAlso(ms, k, v, keys.tail);
        AssignAllKeeps(Assign(ms, k, v), keys.tail);
        KeptHas(keys.tail, k);
        AddEarlier(MembersMean(ms, true), KeptMeaning(keys.tail), k, Means(v, true));
      }
    }
  }

  lemma AssignProto(ms: Members, v: Json)
    ensures Assign(ms, PROTO, v) == ms
  {}

  lemma {:induction false} KeptHas(ms: Members, k: string)
    requires !HasKey(ms, k)
    ensures k !in KeptMeaning(ms)
  {
    if ms.Member? { KeptHas(ms.tail, k); }
  }

  lemma AddEarlier(a: map<string, Meaning>, b: map<string, Meaning>, k: string, m: Meaning)
    requires k !in b
    ensures a[k := m] + b == a + b[k := m]
  {}

  lemma {:induction false} NonePrecede(keys: Members)
    ensures Precede(NoMembers, keys)
  {
    if keys.Member? { NonePrecede(keys.tail); }
  }

  // The rebuilt object is sorted as objects enumerate and has all members.
  lemma RebuiltKeeps(ms: Members)
    requires AreProper(ms)
    ensures var r := AssignAll(NoMembers, SortByUnits(ms));
      IsCanonMembers(r) && MembersMean(r, true) == KeptMeaning(ms)
  {
    hide AssignAll, SortByUnits, Means, IsCanon;
    SortSorts(ms);
    NonePrecede(SortByUnits(ms));
    AssignAllKeeps(NoMembers, SortByUnits(ms));
    assert map[] + KeptMeaning(ms) == KeptMeaning(ms);
  }

  // A canonical value is the only one with its meaning.
  lemma {:induction false} OneCanon(v: Json, w: Json)
    requires IsCanon(v) && IsCanon(w) && Means(v, true) == Means(w, true)
    ensures v == w
    decreases v, 1
  {
    if v.Arr? { OneCanonItems(v.items, w.items); }
    if v.Obj? { OneCanonMembers(v.members, w.members); }
  }

  lemma {:induction false} OneCanonItems(a: Items, b: Items)
    requires IsCanonItems(a) && IsCanonItems(b) && ItemsMean(a, true) == ItemsMean(b, true)
    ensures a == b
    decreases a, 0
  {
    hide IsCanon, Means;
    if a.Item? && b.Item? {
      var m := ItemsMean(a, true);
      assert m[0] == Means(a.head, true) && m[0] == Means(b.head, true);
      assert m[1..] == ItemsMean(a.tail, true) && m[1..] == ItemsMean(b.tail, true);
      OneCanon(a.head, b.head);
      OneCanonItems(a.tail, b.tail);
    }
  }

  lemma NotAgain(ms: Members)
    requires ms.Member? && IsCanonMembers(ms)
    ensures !HasKey(ms.tail, ms.key) && ms.key !in MembersMean(ms.tail, true)
  {
    hide IsCanonMembers, Before, Means, MembersMean;
    MeansHas(ms.tail, true, ms.key);
    if HasKey(ms.tail, ms.key) {
      FirstIsLeast(ms, ms.key);
      BeforeTotal(ms.key, ms.key);
    }
  }

  lemma {:induction false} OneCanonMembers(a: Members, b: Members)
    requires IsCanonMembers(a) && IsCanonMembers(b) && MembersMean(a, true) == MembersMean(b, true)
    ensures a == b
    decreases a, 0
  {
    hide Before, IsCanon, Means;
    var m := MembersMean(a, true);
    if a.Member? && b.Member? {
      SameFirst(a, b);
      NotAgain(a);
      NotAgain(b);
      assert m[a.key] == Means(a.value, true) && m[b.key] == Means(b.value, true);
      OneCanon(a.value, b.value);
      assert MembersMean(a.tail, true) == m - {a.key} == MembersMean(b.tail, true);
      OneCanonMembers(a.tail, b.tail);
    } else {
      NothingMeant(a);
      NothingMeant(b);
    }
  }

  lemma NothingMeant(ms: Members)
    requires IsCanonMembers(ms)
    ensures MembersMean(ms, true) == map[] <==> ms == NoMembers
  {
    if ms.Member? { MeansHas(ms, true, ms.key); }
  }

  lemma SameFirst(a: Members, b: Members)
    requires a.Member? && b.Member? && IsCanonMembers(a) && IsCanonMembers(b)
    requires MembersMean(a, true) == MembersMean(b, true)
    ensures a.key == b.key
  {
    hide Before, IsCanonMembers, Means, MembersMean;
    MeansHas(a, true, a.key);
    MeansHas(b, true, a.key);
    MeansHas(a, true, b.key);
    MeansHas(b, true, b.key);
    if a.key != b.key {
      FirstIsLeast(a, b.key);
      FirstIsLeast(b, a.key);
      BeforeTotal(a.key, b.key);
    }
  }

  lemma {:induction false} CanonHasNot(ms: Members, k: string)
    requires IsCanonMembers(ms) && HasKey(ms, k)
    ensures k != PROTO
    decreases ms
  {
    hide Before, IsCanon;
    if ms.key != k { CanonHasNot(ms.tail, k); }
  }

  lemma {:induction false} CanonWellFormed(v: Json)
    requires IsCanon(v)
    ensures WellFormed(v)
    decreases v, 1
  {
    hide NumberEnd;
    if v.Arr? { CanonItemsWellFormed(v.items); }
    if v.Obj? { CanonMembersWellFormed(v.members); }
  }

  lemma {:induction false} CanonItemsWellFormed(items: Items)
    requires IsCanonItems(items)
    ensures WellFormedItems(items)
    decreases items, 0
  {
    hide IsCanon, WellFormed;
    if items.Item? {
      CanonWellFormed(items.head);
      CanonItemsWellFormed(items.tail);
    }
  }

  lemma {:induction false} CanonMembersWellFormed(ms: Members)
    requires IsCanonMembers(ms)
    ensures WellFormedMembers(ms)
    decreases ms, 0
  {
    hide IsCanon, WellFormed, Before, HasKey, MembersMean;
    if ms.Member? {
      NotAgain(ms);
      CanonWellFormed(ms.value);
      CanonMembersWellFormed(ms.tail);
    }
  }

  // ----- the results -----

  // Two values have the same canonical text exactly when they are equal up to
  // the order of members at every depth, members named __proto__ aside.
  lemma SameTextIffSameMeaning(v: Json, w: Json)
    requires Proper(v) && Proper(w) && Finite(v) && Finite(w)
    ensures Canonicalize(v) == Canonicalize(w) <==> Means(v, false) == Means(w, false)
  {
    hide Canon, Means, IsCanon, Print, Proper, Finite;
    CanonMeans(v);
    CanonMeans(w);
    if Means(v, false) == Means(w, false) {
      OneCanon(Canon(v), Canon(w));
    } else if Print(Canon(v)) == Print(Canon(w)) {
      CanonWellFormed(Canon(v));
      CanonWellFormed(Canon(w));
      PrintInjective(Canon(v), Canon(w));
    }
  }

  // What is read back from a canonical text.
  function ReadBack(v: Json): Option<Json> {
    var t := Canonicalize(v);
    if t.None? then None else Parse(t.value)
  }

  lemma ReadsCanon(v: Json)
    requires Proper(v) && Finite(v)
    ensures ReadBack(v) == Some(Canon(v)) && Means(Canon(v), true) == Means(v, false)
  {
    hide Canon, Means, IsCanon, Print, Proper, Parse;
    CanonMeans(v);
    CanonWellFormed(Canon(v));
    ParsePrint(Canon(v));
  }

  // The value that is read back is the one written, up to the order of members,
  // exactly when no object in it has a member named __proto__.
  lemma ReadBackIffNoProto(v: Json)
    requires Proper(v) && Finite(v)
    ensures ReadBack(v).Some?
    ensures Means(ReadBack(v).value, true) == Means(v, true) <==> NoProto(v)
  {
    hide ReadBack, Means, NoProto, Proper, Finite;
    ReadsCanon(v);
    KeepNothing(v);
  }

  lemma {:induction false} KeepNothing(v: Json)
    requires Proper(v)
    ensures Means(v, false) == Means(v, true) <==> NoProto(v)
    decreases v, 1
  {
    if v.Arr? { KeepNoItem(v.items); }
    if v.Obj? { KeepNoMember(v.members); }
  }

  lemma {:induction false} KeepNoItem(items: Items)
    requires ProperItems(items)
    ensures ItemsMean(items, false) == ItemsMean(items, true) <==> NoProtoItems(items)
    decreases items, 0
  {
    hide Means, NoProto, Proper;
    if items.Item? {
      KeepNothing(items.head);
      KeepNoItem(items.tail);
      var a, b := ItemsMean(items, false), ItemsMean(items, true);
      assert a[0] == Means(items.head, false) && b[0] == Means(items.head, true);
      assert a[1..] == ItemsMean(items.tail, false) && b[1..] == ItemsMean(items.tail, true);
    }
  }

  lemma {:induction false} KeepNoMember(ms: Members)
    requires ProperMembers(ms)
    ensures MembersMean(ms, false) == MembersMean(ms, true) <==> NoProtoMembers(ms)
    decreases ms, 0
  {
    hide Means, NoProto, Proper, HasKey;
    if ms.Member? {
      var k := ms.key;
      MeansHas(ms, false, k);
      MeansHas(ms.tail, false, k);
      MeansHas(ms.tail, true, k);
      KeepNothing(ms.value);
      KeepNoMember(ms.tail);
      var a, b := MembersMean(ms, false), MembersMean(ms, true);
      if k != PROTO {
        assert a[k] == Means(ms.value, false) && b[k] == Means(ms.value, true);
        assert a - {k} == MembersMean(ms.tail, false) && b - {k} == MembersMean(ms.tail, true);
      } else {
        assert k in b && k !in a;
      }
    }
  }

  // A value for which it fails: the text of {"__proto__":null} is that of {}.
  lemma ProtoIsLost()
    ensures var v := Obj(Member(PROTO, Null, NoMembers));
      Canonicalize(v) == Some("{}") == Canonicalize(Obj(NoMembers)) && Means(v, true) != Means(Obj(NoMembers), true)
  {
    var v := Obj(Member(PROTO, Null, NoMembers));
    var ms := v.members;
    var c := CanonMembers(ms);
    assert c == Member(PROTO, Null, NoMembers) by { assert CanonMembers(ms.tail) == NoMembers; }
    assert SortByUnits(c) == PutByUnits(PROTO, Null, SortByUnits(NoMembers)) == c;
    assert AssignAll(NoMembers, c) == AssignAll(NoMembers, NoMembers) == NoMembers;
    assert Canon(v) == Obj(NoMembers) == Canon(Obj(NoMembers));
    assert FiniteMembers(ms) by { assert FiniteMembers(ms.tail); }
    assert Print(Obj(NoMembers)) == "{" + PrintMembers(NoMembers) + "}" == "{}";
    MeansHas(v.members, true, PROTO);
    MeansHas(NoMembers, true, PROTO);
  }

  // ----- the order that RFC 8785 asks for -----

  function Concat(a: Members, b: Members): Members {
    match a
    case NoMembers => b
    case Member(k, v, tail) => Member(k, v, Concat(tail, b))
  }

  lemma {:induction false} ConcatAppend(a: Members, k: string, v: Json, b: Members)
    ensures Concat(Append(a, k, v), b) == Concat(a, Member(k, v, b))
  {
    if a.Member? { ConcatAppend(a.tail, k, v, b); }
  }

  lemma {:induction false} AssignAppends(ms: Members, k: string, v: Json)
    requires k != PROTO && forall l :: HasKey(ms, l) ==> Before(l, k)
    ensures Assign(ms, k, v) == Append(ms, k, v)
  {
    hide Before, IsIndex, DecimalValue;
    if ms.Member? {
      BeforeIs(ms.key, k);
      AssignAppends(ms.tail, k, v);
    }
  }

  lemma {:induction false} AppendHas(ms: Members, k: string, v: Json, l: string)
    ensures HasKey(Append(ms, k, v), l) <==> HasKey(ms, l) || l == k
  {
    if ms.Member? { AppendHas(ms.tail, k, v, l); }
  }

  // Where every key comes before every later one, the order stays.
  lemma {:induction false} AssignAllStays(ms: Members, keys: Members)
    requires AllAgree(keys) && SortedByUnits(keys) && !HasKey(keys, PROTO)
    requires forall k, l :: HasKey(ms, k) && HasKey(keys, l) ==> Before(k, l)
    ensures AssignAll(ms, keys) == Concat(ms, keys)
    decreases keys
  {
    hide Before, Assign, Agree, LessUnits;
    if keys.Member? {
      var k, v := keys.key, keys.value;
      AssignAppends(ms, k, v);
      forall x, l | HasKey(Append(ms, k, v), x) && HasKey(keys.tail, l) ensures Before(x, l) {
        AppendHas(ms, k, v, x);
        if x == k { AgreesBefore(keys, l); }
      }
      AssignAllStays(Append(ms, k, v), keys.tail);
      ConcatAppend(ms, k, v, keys.tail);
    } else {
      ConcatNothing(ms);
    }
  }

  lemma {:induction false} ConcatNothing(ms: Members)
    ensures Concat(ms, NoMembers) == ms
  {
    if ms.Member? { ConcatNothing(ms.tail); }
  }

  ghost predicate AllAgree(ms: Members) {
    forall k, l :: HasKey(ms, k) && HasKey(ms, l) && k != l ==> Agree(k, l)
  }

  lemma AgreesBefore(keys: Members, l: string)
    requires keys.Member? && AllAgree(keys) && SortedByUnits(keys) && HasKey(keys.tail, l)
    ensures Before(keys.key, l)
  {
    hide Before, Agree, Less;
    AllAfterHas(keys.key, keys.tail, l);
    UnitsTotal(l, l);
    OrdersAgreeIff(keys.key, l);
  }

  lemma {:induction false} BothOrders(ms: Members, k: string, l: string)
    requires IsCanonMembers(ms) && SortedByUnits(ms) && HasKey(ms, k) && HasKey(ms, l) && LessUnits(k, l)
    ensures Before(k, l)
    decreases ms
  {
    hide Before, LessUnits, IsCanon;
    UnitsTotal(k, l);
    UnitsTotal(k, k);
    if ms.key == k {
      FirstIsLeast(ms, l);
    } else if ms.key == l {
      AllAfterHas(l, ms.tail, k);
    } else {
      BothOrders(ms.tail, k, l);
    }
  }

  // The members of an object come in the order of their UTF-16 code units, as
  // section 3.2.3 of RFC 8785 has it, exactly when all its keys agree.
  lemma OrderIsByUnitsIff(ms: Members)
    requires AreProper(ms) && !HasKey(ms, PROTO)
    ensures AssignAll(NoMembers, SortByUnits(ms)) == SortByUnits(ms) <==> AllAgree(ms)
  {
    hide AssignAll, SortByUnits, IsCanonMembers, SortedByUnits, Before, Agree, Less;
    var keys := SortByUnits(ms);
    SortSorts(ms);
    if AllAgree(ms) { AssignAllStays(NoMembers, keys); }
    if AssignAll(NoMembers, keys) == keys {
      RebuiltKeeps(ms);
      forall k, l | HasKey(ms, k) && HasKey(ms, l) && k != l ensures Agree(k, l) {
        UnitsTotal(k, l);
        if LessUnits(k, l) { BothOrders(keys, k, l); } else { BothOrders(keys, l, k); }
        BeforeTotal(k, l);
        OrdersAgreeIff(k, l);
      }
    }
  }

  // Two keys that do not: "10" has fewer units than "9" and comes after it.
  lemma IndicesComeByValue()
    ensures !Agree("9", "10") && Before("9", "10") && LessUnits("10", "9")
  {
    assert DecimalValue("9") == 9 && DecimalValue("10") == 10 && DecimalValue("1") == 1 by {
      assert "10"[..1] == "1" && "1"[..0] == "" && "9"[..0] == "";
    }
    assert "10"[..|"9"|] == "1";
    BeforeIs("9", "10");
    OrdersAgreeIff("9", "10");
    UnitsTotal("9", "10");
  }
}
