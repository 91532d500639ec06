// AgedLRUCache (packages/middleware/src/cache.ts).
module AgedLruCache {
  import opened Text

  // The map of the source, in its order of insertion.
  datatype Entry<K, V> = Entry(key: K, birth: int, value: V)

  predicate Holds<K(==, !new), V(!new)>(s: seq<Entry<K, V>>, key: K) { exists i :: 0 <= i < |s| && s[i].key == key }

  function Find<K(==, !new), V(!new)>(s: seq<Entry<K, V>>, key: K): (r: Option<Entry<K, V>>)
    ensures r.Some? <==> Holds(s, key)
    ensures r.Some? ==> r.value.key == key && r.value in s
  {
    if s == [] then None
    else if s[0].key == key then assert Holds(s, key); Some(s[0])
    else
      assert forall i :: 0 < i < |s| ==> s[i] == s[1..][i - 1];
      Find(s[1..], key)
  }

  function Without<K(==, !new), V(!new)>(s: seq<Entry<K, V>>, key: K): (r: seq<Entry<K, V>>)
    ensures forall e :: e in r <==> e in s && e.key != key
    ensures |r| <= |s| && (!Holds(s, key) ==> r == s) && (Holds(s, key) ==> |r| < |s|)
  {
    if s == [] then []
    else if s[0].key == key then assert Holds(s, key); Without(s[1..], key)
    else
      assert forall i :: 0 < i < |s| ==> s[i] == s[1..][i - 1];
      [s[0]] + Without(s[1..], key)
  }

  predicate Aged(birth: int, now: int, maxAge: int) { now - birth >= maxAge }

  function AfterGet<K(==, !new), V(!new)>(s: seq<Entry<K, V>>, key: K, now: int, maxAge: int): seq<Entry<K, V>> {
    var e := Find(s, key);
    if e.None? then s
    else if Aged(e.value.birth, now, maxAge) then Without(s, key) else Without(s, key) + [e.value]
  }

  function Answer<K(==, !new), V(!new)>(s: seq<Entry<K, V>>, key: K, now: int, maxAge: int): Option<V> {
    var e := Find(s, key);
    if e.None? || Aged(e.value.birth, now, maxAge) then None else Some(e.value.value)
  }

  function Room<K(==, !new), V(!new)>(s: seq<Entry<K, V>>, key: K, capacity: int): seq<Entry<K, V>> {
    if Holds(s, key) then Without(s, key) else if |s| >= capacity && s != [] then s[1..] else s
  }

  function AfterPut<K(==, !new), V(!new)>(s: seq<Entry<K, V>>, key: K, value: V, now: int, capacity: int): seq<Entry<K, V>> {
    Room(s, key, capacity) + [Entry(key, now, value)]
  }

  class AgedLRUCache<K(==, !new), V(!new)> {
    const capacity: int
    const maxAge: int
    var cache: seq<Entry<K, V>>

    constructor (capacity: int, maxAge: int)
      ensures this.capacity == capacity && this.maxAge == maxAge && cache == []
    {
      this.capacity, this.maxAge, cache := capacity, maxAge, [];
    }

    method Get(key: K, now: int) returns (r: Option<V>)
      modifies this
      ensures r == Answer(old(cache), key, now, maxAge)
      ensures cache == AfterGet(old(cache), key, now, maxAge)
    {
      var value := Find(cache, key);
      if value.None? { return None; }
      cache := Without(cache, key);
      if now - value.value.birth >= maxAge { return None; }
      cache := cache + [value.value];
      return Some(value.value.value);
    }

    method Put(key: K, value: V, now: int)
      modifies this
      ensures cache == AfterPut(old(cache), key, value, now, capacity)
    {
      if Holds(cache, key) {
        cache := Without(cache, key);
      } else if |cache| >= capacity {
        if cache != [] { cache := cache[1..]; }
      }
      cache := cache + [Entry(key, now, value)];
    }
  }

  // ----- runs -----

  datatype Op<K, V> = Get(key: K, now: int) | Put(key: K, value: V, now: int)

  datatype Config = Config(capacity: int, maxAge: int)

  function Step<K(==, !new), V(!new)>(c: Config, s: seq<Entry<K, V>>, op: Op<K, V>): seq<Entry<K, V>> {
    match op
    case Get(key, now) => AfterGet(s, key, now, c.maxAge)
    case Put(key, value, now) => AfterPut(s, key, value, now, c.capacity)
  }

  // The entries after a run that began with an empty cache.
  function After<K(==, !new), V(!new)>(c: Config, run: seq<Op<K, V>>): seq<Entry<K, V>> {
    if run == [] then [] else Step(c, After(c, run[..|run| - 1]), run[|run| - 1])
  }

  predicate Distinct<K(==, !new), V(!new)>(s: seq<Entry<K, V>>) {
    forall i, j :: 0 <= i < j < |s| ==> s[i].key != s[j].key
  }

  lemma {:induction false} WithoutDistinct<K(!new), V(!new)>(s: seq<Entry<K, V>>, key: K)
    requires Distinct(s)
    ensures Distinct(Without(s, key)) && (Holds(s, key) ==> |Without(s, key)| == |s| - 1)
  {
    if s != [] {
      var t, r := s[1..], Without(s[1..], key);
      assert forall i :: 0 <= i < |t| ==> t[i] == s[i + 1];
      assert Distinct(t);
      WithoutDistinct(t, key);
      if s[0].key == key {
        assert !Holds(t, key);
      } else {
        assert Without(s, key) == [s[0]] + r;
        forall j | 0 < j < |Without(s, key)| ensures Without(s, key)[j].key != s[0].key {
          assert r[j - 1] in r && r[j - 1] in t;
        }
        assert Holds(s, key) ==> Holds(t, key) by {
          if Holds(s, key) {
            var i :| 0 <= i < |s| && s[i].key == key;
            assert t[i - 1].key == key;
          }
        }
      }
    }
  }

  // Every key is held once, and the size never exceeds the capacity, or one if
  // that is less than one.
  lemma {:induction false} SizeIsBounded<K(!new), V(!new)>(c: Config, run: seq<Op<K, V>>)
    ensures Distinct(After(c, run))
    ensures |After(c, run)| <= if c.capacity < 1 then 1 else c.capacity
  {
    hide Find;
    if run != [] {
      var s, op := After(c, run[..|run| - 1]), run[|run| - 1];
      SizeIsBounded(c, run[..|run| - 1]);
      WithoutDistinct(s, op.key);
      match op
      case Get(key, now) =>
        if Holds(s, key) { LastDistinct(Without(s, key), Find(s, key).value); }
      case Put(key, value, now) =>
        var r := Room(s, key, c.capacity);
        RoomOf(s, key, c.capacity);
        LastDistinct(r, Entry(key, now, value));
    }
  }

  lemma LastDistinct<K(!new), V(!new)>(s: seq<Entry<K, V>>, e: Entry<K, V>)
    requires Distinct(s) && forall f <- s :: f.key != e.key
    ensures Distinct(s + [e])
  {}

  lemma RoomOf<K(!new), V(!new)>(s: seq<Entry<K, V>>, key: K, capacity: int)
    requires Distinct(s)
    ensures Distinct(Room(s, key, capacity)) && forall e <- Room(s, key, capacity) :: e.key != key && e in s
    ensures |s| <= (if capacity < 1 then 1 else capacity) ==>
      |Room(s, key, capacity)| <= (if capacity < 1 then 0 else capacity - 1)
  {
    hide Find;
    WithoutDistinct(s, key);
  }

  // ----- a hit is the latest put -----

  // The entry that the last put of the key made.
  function LatestPut<K(==, !new), V(!new)>(run: seq<Op<K, V>>, key: K): Option<Entry<K, V>> {
    if run == [] then None
    else
      var op := run[|run| - 1];
      if op.Put? && op.key == key then Some(Entry(key, op.now, op.value)) else LatestPut(run[..|run| - 1], key)
  }

  lemma {:induction false} EntryIsLatestPut<K(!new), V(!new)>(c: Config, run: seq<Op<K, V>>, e: Entry<K, V>)
    requires e in After(c, run)
    ensures LatestPut(run, e.key) == Some(e)
  {
    hide Find, Without;
    if run != [] {
      var before, op := run[..|run| - 1], run[|run| - 1];
      var s := After(c, before);
      if op.Put? && op.key == e.key {
        if e in Room(s, op.key, c.capacity) {
          SizeIsBounded(c, before);
          RoomOf(s, op.key, c.capacity);
          assert false;
        }
      } else {
        assert e in s;
        EntryIsLatestPut(c, before, e);
      }
    }
  }

  // A hit returns the value of the latest put of the key, which is younger than
  // the maximal age.
  lemma HitIsLatestPut<K(!new), V(!new)>(c: Config, run: seq<Op<K, V>>, key: K, now: int)
    ensures var r := Answer(After(c, run), key, now, c.maxAge);
      r.Some? ==>
        var p := LatestPut(run, key);
        p.Some? && r == Some(p.value.value) && now - p.value.birth < c.maxAge
  {
    hide After, LatestPut;
    var e := Find(After(c, run), key);
    if e.Some? { EntryIsLatestPut(c, run, e.value); }
  }

  // ----- what is kept -----

  // The operation puts the key, or gets it and finds it fresh.
  predicate Touches<K(==, !new), V(!new)>(c: Config, s: seq<Entry<K, V>>, op: Op<K, V>, key: K) {
    op.key == key && (op.Put? || Answer(s, key, op.now, c.maxAge).Some?)
  }

  // The key was touched, and no get has found it too old since.
  predicate Alive<K(==, !new), V(!new)>(c: Config, run: seq<Op<K, V>>, key: K) {
    run != [] &&
    var before, op := run[..|run| - 1], run[|run| - 1];
    var s := After(c, before);
    Touches(c, s, op, key) ||
    (Alive(c, before, key) && !(op.Get? && op.key == key && Holds(s, key)))
  }

  // The other keys that were touched since the key was.
  function Since<K(==, !new), V(!new)>(c: Config, run: seq<Op<K, V>>, key: K): set<K> {
    if run == [] then {}
    else
      var before, op := run[..|run| - 1], run[|run| - 1];
      var s := After(c, before);
      if Touches(c, s, op, key) then {}
      else Since(c, before, key) + (if Touches(c, s, op, op.key) then {op.key} else {})
  }

  // Of two keys held, the later one was touched since the earlier one was.
  ghost predicate Ordered<K(!new), V(!new)>(c: Config, run: seq<Op<K, V>>, s: seq<Entry<K, V>>) {
    forall i: nat, j: nat :: i < j < |s| ==> s[j].key in Since(c, run, s[i].key)
  }

  lemma WithoutHead<K(!new), V(!new)>(s: seq<Entry<K, V>>, key: K)
    requires Without(s, key) != []
    ensures s != []
    ensures Without(s, key) == (if s[0].key == key then [] else [s[0]]) + Without(s[1..], key)
  {}

  // Where the entry stood that is at i once the key is removed.
  function Origin<K(==, !new), V(!new)>(s: seq<Entry<K, V>>, key: K, i: nat): nat
    requires i < |Without(s, key)|
    decreases |s|
  {
    WithoutHead(s, key);
    if s[0].key == key then Origin(s[1..], key, i) + 1
    else if i == 0 then 0 else Origin(s[1..], key, i - 1) + 1
  }

  lemma {:induction false} OriginIs<K(!new), V(!new)>(s: seq<Entry<K, V>>, key: K, i: nat)
    requires i < |Without(s, key)|
    ensures Origin(s, key, i) < |s| && s[Origin(s, key, i)] == Without(s, key)[i]
    decreases |s|
  {
    WithoutHead(s, key);
    hide Without, Holds;
    if s[0].key == key { OriginIs(s[1..], key, i); } else if i > 0 { OriginIs(s[1..], key, i - 1); }
  }

  lemma {:induction false} OriginGrows<K(!new), V(!new)>(s: seq<Entry<K, V>>, key: K, i: nat, j: nat)
    requires i < j < |Without(s, key)|
    ensures Origin(s, key, i) < Origin(s, key, j)
    decreases |s|
  {
    WithoutHead(s, key);
    hide Without, Holds;
    if s[0].key == key { OriginGrows(s[1..], key, i, j); } else if i > 0 { OriginGrows(s[1..], key, i - 1, j - 1); }
  }

  // Removing a key keeps the order of the others.
  lemma WithoutOrder<K(!new), V(!new)>(s: seq<Entry<K, V>>, key: K, i: nat, j: nat) returns (i': nat, j': nat)
    requires i < j < |Without(s, key)|
    ensures i' < j' < |s| && s[i'] == Without(s, key)[i] && s[j'] == Without(s, key)[j]
  {
    hide Without, Holds, Origin;
    OriginIs(s, key, i);
    OriginIs(s, key, j);
    OriginGrows(s, key, i, j);
    i', j' := Origin(s, key, i), Origin(s, key, j);
  }

  // Behind a key there are only keys that were touched since it was.
  lemma {:induction false} BehindIsSince<K(!new), V(!new)>(c: Config, run: seq<Op<K, V>>)
    ensures Ordered(c, run, After(c, run))
  {
    hide Find, Without;
    if run != [] {
      var before, op := run[..|run| - 1], run[|run| - 1];
      var s, t := After(c, before), After(c, run);
      BehindIsSince(c, before);
      SizeIsBounded(c, before);
      forall i: nat, j: nat | i < j < |t|
        ensures t[j].key in Since(c, run, t[i].key)
      {
        if j == |t| - 1 && Touches(c, s, op, op.key) {
          SizeIsBounded(c, run);
          LastIsTouched(c, s, op);
          assert t[j].key == op.key;
        } else {
          var i', j' := WasOrdered(c, s, op, i, j);
          assert s[j'].key in Since(c, before, s[i'].key);
        }
      }
    }
  }

  lemma LastIsTouched<K(!new), V(!new)>(c: Config, s: seq<Entry<K, V>>, op: Op<K, V>)
    requires Touches(c, s, op, op.key)
    ensures var t := Step(c, s, op); t != [] && t[|t| - 1].key == op.key
  {}

  // Two entries of which the second is not new were in this order before, and
  // the operation does not touch the first.
  lemma WasOrdered<K(!new), V(!new)>(c: Config, s: seq<Entry<K, V>>, op: Op<K, V>, i: nat, j: nat) returns (i': nat, j': nat)
    requires Distinct(s) && i < j < |Step(c, s, op)|
    requires j < |Step(c, s, op)| - 1 || !Touches(c, s, op, op.key)
    ensures var t := Step(c, s, op);
      i' < j' < |s| && s[i'] == t[i] && s[j'] == t[j] && !Touches(c, s, op, t[i].key)
  {
    hide Find, Without;
    var t := Step(c, s, op);
    var key := op.key;
    if op.Put? {
      var r := Room(s, key, c.capacity);
      RoomOf(s, key, c.capacity);
      assert t[i] == r[i] && t[j] == r[j] && r[i] in r;
      if Holds(s, key) { i', j' := WithoutOrder(s, key, i, j); }
      else if r == s { i', j' := i, j; }
      else { i', j' := i + 1, j + 1; }
    } else if !Holds(s, key) {
      i', j' := i, j;
    } else {
      var w := Without(s, key);
      assert t[i] == w[i] && t[j] == w[j] && w[i] in w;
      i', j' := WithoutOrder(s, key, i, j);
    }
  }

  lemma {:induction false} DistinctCount<K(!new), V(!new)>(s: seq<Entry<K, V>>)
    requires Distinct(s)
    ensures |(set e | e in s :: e.key)| == |s|
  {
    var keys := set e | e in s :: e.key;
    if s != [] {
      var init, last := s[..|s| - 1], s[|s| - 1];
      DistinctCount(init);
      var rest := set e | e in init :: e.key;
      assert s == init + [last];
      assert keys == rest + {last.key};
      assert last.key !in rest;
    }
  }

  lemma {:induction false} SubsetCount<K>(a: set<K>, b: set<K>)
    requires a <= b
    ensures |a| <= |b|
  {
    if a != {} {
      var x :| x in a;
      SubsetCount(a - {x}, b - {x});
    }
  }

  // To push out the first key it takes as many other keys as the capacity.
  lemma EvictionNeeds<K(!new), V(!new)>(c: Config, run: seq<Op<K, V>>, s: seq<Entry<K, V>>, key: K, op: Op<K, V>)
    requires run != [] && s == After(c, run[..|run| - 1]) && op == run[|run| - 1]
    requires op.Put? && !Holds(s, op.key) && |s| >= c.capacity && s != [] && s[0].key == key
    ensures |Since(c, run, key)| >= c.capacity
  {
    hide Find, Without, After, Since, Ordered;
    var before := run[..|run| - 1];
    SizeIsBounded(c, before);
    BehindIsSince(c, before);
    var others := set e | e in s[1..] :: e.key;
    DistinctCount(s[1..]);
    FirstIsBefore(c, before, s);
    SinceStep(c, run, key);
    SubsetCount(others + {op.key}, Since(c, run, key));
  }

  lemma FirstIsBefore<K(!new), V(!new)>(c: Config, run: seq<Op<K, V>>, s: seq<Entry<K, V>>)
    requires s != [] && Ordered(c, run, s)
    ensures (set e | e in s[1..] :: e.key) <= Since(c, run, s[0].key)
  {
    hide Since;
    forall e | e in s[1..] ensures e.key in Since(c, run, s[0].key) {
      var j :| 0 <= j < |s[1..]| && s[1..][j] == e;
      assert s[j + 1].key in Since(c, run, s[0].key);
    }
  }

  lemma SinceStep<K(!new), V(!new)>(c: Config, run: seq<Op<K, V>>, key: K)
    requires run != [] && run[|run| - 1].Put? && run[|run| - 1].key != key
    ensures Since(c, run, key) == Since(c, run[..|run| - 1], key) + {run[|run| - 1].key}
  {
    hide After;
  }

  // A key that was touched, and that no get has found too old since, is still
  // held as long as fewer than the capacity of other keys were touched since.
  lemma {:induction false} StillHeld<K(!new), V(!new)>(c: Config, run: seq<Op<K, V>>, key: K)
    requires Alive(c, run, key) && |Since(c, run, key)| < c.capacity
    ensures Holds(After(c, run), key)
  {
    hide Find, Without;
    var before, op := run[..|run| - 1], run[|run| - 1];
    var s, t := After(c, before), After(c, run);
    if Touches(c, s, op, key) {
      LastIsTouched(c, s, op);
      assert t[|t| - 1].key == key;
    } else {
      SubsetCount(Since(c, before, key), Since(c, run, key));
      StillHeld(c, before, key);
      var i :| 0 <= i < |s| && s[i].key == key;
      assert op.key != key;
      if op.Put? && !Holds(s, op.key) && |s| >= c.capacity {
        if i == 0 { EvictionNeeds(c, run, s, key, op); }
        assert t[i - 1].key == key;
      } else {
        assert s[i] in s;
        StaysIn(c, s, op, s[i]);
      }
    }
  }

  lemma StaysIn<K(!new), V(!new)>(c: Config, s: seq<Entry<K, V>>, op: Op<K, V>, e: Entry<K, V>)
    requires e in s && op.key != e.key
    requires op.Put? ==> Holds(s, op.key) || |s| < c.capacity
    ensures Holds(Step(c, s, op), e.key)
  {
    hide Find;
    var t := Step(c, s, op);
    assert e in t;
    var i :| 0 <= i < |t| && t[i] == e;
    assert t[i].key == e.key;
  }

  // And it is a hit: a get answers the value of the latest put, as long as that is
  // younger than the maximal age.
  lemma HeldIsHit<K(!new), V(!new)>(c: Config, run: seq<Op<K, V>>, key: K, now: int)
    requires Alive(c, run, key) && |Since(c, run, key)| < c.capacity
    ensures var p := LatestPut(run, key);
      p.Some? && Answer(After(c, run), key, now, c.maxAge) ==
        if now - p.value.birth < c.maxAge then Some(p.value.value) else None
  {
    hide After, LatestPut, Alive, Since;
    StillHeld(c, run, key);
    EntryIsLatestPut(c, run, Find(After(c, run), key).value);
  }

  // After a get that misses the key is not held, and of the other keys what was
  // held before.
  lemma AgedIsDropped<K(!new), V(!new)>(c: Config, run: seq<Op<K, V>>, key: K, now: int)
    requires Answer(After(c, run), key, now, c.maxAge).None?
    ensures !Holds(After(c, run + [Get(key, now)]), key)
    ensures forall e: Entry<K, V> :: e.key != key ==> (e in After(c, run + [Get(key, now)]) <==> e in After(c, run))
  {
    hide Find, Without;
    var op := Get(key, now);
    assert (run + [op])[..|run|] == run;
    var s, t := After(c, run), After(c, run + [op]);
    assert t == AfterGet(s, key, now, c.maxAge);
  }
}
