/**
 Insertion-ordered maps with unique keys: the specification of PPmap and of the maps keyed by
 string that wrap it.
 */
module OrderedMap {
  import opened Seqs

  type Entries<K, V> = seq<(K, V)>

  function Keys<K, V>(m: Entries<K, V>): (ks: seq<K>)
    ensures |ks| == |m| && forall i | 0 <= i < |m| :: ks[i] == m[i].0
  {
    seq(|m|, i requires 0 <= i < |m| => m[i].0)
  }

  function KeySet<K(==), V>(m: Entries<K, V>): set<K> {
    set k | k in Keys(m)
  }

  predicate Unique<K(==), V>(m: Entries<K, V>) {
    Distinct(Keys(m))
  }

  predicate Has<K(==), V>(m: Entries<K, V>, k: K) {
    k in Keys(m)
  }

  /** The index of the first entry with key k, or |m|. */
  function IndexOf<K(==), V>(m: Entries<K, V>, k: K): (i: nat)
    ensures i <= |m| && (i < |m| <==> Has(m, k))
    ensures i < |m| ==> m[i].0 == k
    ensures forall j | 0 <= j < i :: m[j].0 != k
  {
    if m == [] then 0
    else
      assert Keys(m) == [m[0].0] + Keys(m[1..]);
      if m[0].0 == k then 0 else 1 + IndexOf(m[1..], k)
  }

  function Get<K(==), V>(m: Entries<K, V>, k: K): Option<V> {
    var i := IndexOf(m, k);
    if i < |m| then Some(m[i].1) else None
  }

  /** Overwrites in place, or appends. */
  function Put<K(==), V>(m: Entries<K, V>, k: K, v: V): Entries<K, V> {
    var i := IndexOf(m, k);
    if i < |m| then m[i := (m[i].0, v)] else m + [(k, v)]
  }

  function Remove<K(==), V>(m: Entries<K, V>, k: K): Entries<K, V> {
    var i := IndexOf(m, k);
    if i < |m| then RemoveAt(m, i) else m
  }

  /** Puts every entry of other, in its order. */
  function PutAll<K(==), V>(m: Entries<K, V>, other: Entries<K, V>): Entries<K, V>
    decreases |other|
  {
    if other == [] then m else PutAll(Put(m, other[0].0, other[0].1), other[1..])
  }

  /** Removes every key of other. */
  function RemoveIn<K(==), V, W>(m: Entries<K, V>, other: Entries<K, W>): Entries<K, V> {
    if other == [] then m else RemoveIn(Remove(m, other[0].0), other[1..])
  }

  /** The first key whose value is v. */
  function FirstKey<K, V(==)>(m: Entries<K, V>, v: V): (k: Option<K>)
    ensures k.None? <==> forall e | e in m :: e.1 != v
    ensures k.Some? ==> (k.value, v) in m
  {
    if m == [] then None else if m[0].1 == v then Some(m[0].0)
    else
      assert m == [m[0]] + m[1..];
      FirstKey(m[1..], v)
  }

  function KeyIsNot<K(==), V>(k: K): ((K, V)) -> bool {
    (e: (K, V)) => e.0 != k
  }

  function NewTo<K(==), V>(m: Entries<K, V>): K -> bool {
    k => !Has(m, k)
  }

  function KeyNotIn<K(==), V, W>(other: Entries<K, W>): ((K, V)) -> bool {
    (e: (K, V)) => !Has(other, e.0)
  }

  // -------- one key --------

  lemma EntryAt<K, V>(m: Entries<K, V>, i: nat)
    requires Unique(m) && i < |m|
    ensures IndexOf(m, m[i].0) == i && Get(m, m[i].0) == Some(m[i].1)
  {
  }

  lemma GetMember<K, V>(m: Entries<K, V>, k: K, v: V)
    requires Unique(m)
    ensures Get(m, k) == Some(v) <==> (k, v) in m
  {
  }

  /** Overwriting keeps every position; a new key is last. */
  lemma PutKeys<K, V>(m: Entries<K, V>, k: K, v: V)
    ensures Keys(Put(m, k, v)) == if Has(m, k) then Keys(m) else Keys(m) + [k]
    ensures Unique(m) ==> Unique(Put(m, k, v))
  {
  }

  lemma PutGet<K, V>(m: Entries<K, V>, k: K, v: V, q: K)
    requires Unique(m)
    ensures Get(Put(m, k, v), q) == if q == k then Some(v) else Get(m, q)
  {
    var r := Put(m, k, v);
    PutKeys(m, k, v);
    if q == k {
      EntryAt(r, if Has(m, k) then IndexOf(m, k) else |m|);
    } else if Has(m, q) {
      EntryAt(r, IndexOf(m, q));
    }
  }

  lemma {:induction false} RemoveFilters<K, V>(m: Entries<K, V>, k: K)
    requires Unique(m)
    ensures Remove(m, k) == Filter(m, KeyIsNot(k)) && Unique(Remove(m, k))
  {
    UniqueFilter(m, KeyIsNot(k));
    if m != [] {
      hide Unique, Remove, IndexOf;
      TailUnique(m);
      RemoveTail(m, k);
      if m[0].0 == k {
        FilterAll(m[1..], KeyIsNot(k));
      } else {
        RemoveFilters(m[1..], k);
      }
    }
  }

  lemma RemoveTail<K, V>(m: Entries<K, V>, k: K)
    requires m != []
    ensures Remove(m, k) == if m[0].0 == k then m[1..] else [m[0]] + Remove(m[1..], k)
  {
    var i := IndexOf(m, k);
    if m[0].0 != k {
      assert i == 1 + IndexOf(m[1..], k);
      if i == |m| {
        assert m == [m[0]] + m[1..];
      } else {
        RemoveAtTail(m, i);
      }
    }
  }

  lemma {:induction false} UniqueFilter<K, V>(m: Entries<K, V>, p: ((K, V)) -> bool)
    requires Unique(m)
    ensures Unique(Filter(m, p))
  {
    if m != [] {
      var rest := Filter(m[1..], p);
      assert forall i | 0 <= i < |m| - 1 :: Keys(m[1..])[i] == Keys(m)[i + 1];
      UniqueFilter(m[1..], p);
      if p(m[0]) {
        forall j | 0 <= j < |rest| ensures rest[j].0 != m[0].0 {
          FilterMember(m[1..], p, rest[j]);
          var n :| 0 <= n < |m[1..]| && m[1..][n] == rest[j];
          assert Keys(m)[0] != Keys(m)[n + 1];
        }
      }
    }
  }

  lemma RemoveGet<K, V>(m: Entries<K, V>, k: K, q: K)
    requires Unique(m)
    ensures Get(Remove(m, k), q) == if q == k then None else Get(m, q)
  {
    RemoveFilters(m, k);
    FilterGet(m, KeyIsNot(k), q);
  }

  /** Filtering by key keeps exactly the entries whose key passes. */
  lemma FilterGet<K, V>(m: Entries<K, V>, p: ((K, V)) -> bool, q: K)
    requires Unique(m)
    ensures Unique(Filter(m, p))
    ensures Get(Filter(m, p), q) == if Get(m, q).Some? && p((q, Get(m, q).value)) then Get(m, q) else None
  {
    UniqueFilter(m, p);
    var r := Filter(m, p);
    if Get(m, q).Some? {
      var e := (q, Get(m, q).value);
      GetMember(m, q, e.1);
      FilterMember(m, p, e);
      GetMember(r, q, e.1);
    }
    if Get(r, q).Some? {
      var e := (q, Get(r, q).value);
      GetMember(r, q, e.1);
      FilterMember(m, p, e);
      GetMember(m, q, e.1);
    }
  }

  // -------- whole maps --------

  /** put_all is override-union. */
  lemma {:induction false} PutAllGet<K, V>(m: Entries<K, V>, other: Entries<K, V>, q: K)
    requires Unique(m) && Unique(other)
    ensures Unique(PutAll(m, other))
    ensures Get(PutAll(m, other), q) == if Has(other, q) then Get(other, q) else Get(m, q)
    decreases |other|
  {
    if other != [] {
      var (k, v) := other[0];
      TailUnique(other);
      PutKeys(m, k, v);
      PutGet(m, k, v, q);
      PutAllGet(Put(m, k, v), other[1..], q);
      TailGet(other, q);
    }
  }

  /** put_all keeps the order of the keys it had and appends the new ones in the order they came. */
  lemma {:induction false} PutAllKeys<K, V>(m: Entries<K, V>, other: Entries<K, V>)
    requires Unique(m) && Unique(other)
    ensures Keys(PutAll(m, other)) == Keys(m) + Filter(Keys(other), NewTo(m))
    decreases |other|
  {
    if other == [] {
      assert Keys(other) == [];
    } else {
      var k, v, rest := other[0].0, other[0].1, other[1..];
      TailUnique(other);
      PutAllKeysStep(m, k, v, Keys(rest));
      PutAllKeys(Put(m, k, v), rest);
      assert Keys(other) == [k] + Keys(rest);
    }
  }

  lemma PutAllKeysStep<K, V>(m: Entries<K, V>, k: K, v: V, ks: seq<K>)
    requires Unique(m) && k !in ks
    ensures Unique(Put(m, k, v))
    ensures Keys(Put(m, k, v)) + Filter(ks, NewTo(Put(m, k, v))) == Keys(m) + Filter([k] + ks, NewTo(m))
  {
    hide Filter, Put, Unique;
    PutKeys(m, k, v);
    NewAfterPut(m, k, v, ks);
    FilterCons(k, ks, NewTo(m));
  }

  lemma NewAfterPut<K, V>(m: Entries<K, V>, k: K, v: V, ks: seq<K>)
    requires k !in ks
    ensures Filter(ks, NewTo(Put(m, k, v))) == Filter(ks, NewTo(m))
  {
    PutKeys(m, k, v);
    FilterSame(ks, NewTo(Put(m, k, v)), NewTo(m));
  }

  lemma TailUnique<K, V>(m: Entries<K, V>)
    requires Unique(m) && m != []
    ensures Unique(m[1..]) && !Has(m[1..], m[0].0)
  {
  }

  lemma TailGet<K, V>(m: Entries<K, V>, q: K)
    requires Unique(m) && m != []
    ensures Has(m, q) <==> q == m[0].0 || Has(m[1..], q)
    ensures Get(m, q) == if q == m[0].0 then Some(m[0].1) else Get(m[1..], q)
    ensures q == m[0].0 ==> !Has(m[1..], q)
  {
  }

  /** remove_in is key difference, in the order that was. */
  lemma {:induction false} RemoveInFilters<K, V, W>(m: Entries<K, V>, other: Entries<K, W>)
    requires Unique(m)
    ensures RemoveIn(m, other) == Filter(m, KeyNotIn(other)) && Unique(RemoveIn(m, other))
    decreases |other|
  {
    if other == [] {
      FilterAll(m, KeyNotIn(other));
    } else {
      hide Unique, Filter, Remove;
      var k := other[0].0;
      RemoveFilters(m, k);
      RemoveInFilters(Remove(m, k), other[1..]);
      FilterTwice(m, KeyIsNot(k), KeyNotIn(other[1..]));
      assert Keys(other) == [k] + Keys(other[1..]);
      FilterSame(m, Both(KeyIsNot(k), KeyNotIn(other[1..])), KeyNotIn(other));
    }
  }

  lemma RemoveInGet<K, V, W>(m: Entries<K, V>, other: Entries<K, W>, q: K)
    requires Unique(m)
    ensures Unique(RemoveIn(m, other))
    ensures Get(RemoveIn(m, other), q) == if Has(other, q) then None else Get(m, q)
  {
    RemoveInFilters(m, other);
    FilterGet(m, KeyNotIn(other), q);
  }

  /** put_all overwrites exactly the keys of other that were there; remove_in removes exactly those. */
  function Shared<K(==), V, W>(m: Entries<K, V>, other: Entries<K, W>): nat {
    if other == [] then 0 else (if Has(m, other[0].0) then 1 else 0) + Shared(m, other[1..])
  }

  lemma {:induction false} SharedSame<K, V, U, W>(m: Entries<K, V>, n: Entries<K, U>, other: Entries<K, W>)
    requires forall k | k in Keys(other) :: Has(m, k) == Has(n, k)
    ensures Shared(m, other) == Shared(n, other)
  {
    if other != [] {
      assert Keys(other) == [other[0].0] + Keys(other[1..]);
      SharedSame(m, n, other[1..]);
    }
  }

  // -------- equality --------

  /** ppmap_equal: sizes, then every entry of b is looked up in a. */
  predicate Equal<K(==), V>(a: Entries<K, V>, b: Entries<K, V>, equalVal: (V, V) -> bool) {
    && |a| == |b|
    && forall i | 0 <= i < |b| :: Get(a, b[i].0).Some? && equalVal(Get(a, b[i].0).value, b[i].1)
  }

  /** The same keys, with equal values: what equality of maps means, whatever the order. */
  ghost predicate SameMap<K, V>(a: Entries<K, V>, b: Entries<K, V>, equalVal: (V, V) -> bool) {
    && KeySet(a) == KeySet(b)
    && forall k | k in KeySet(b) :: Get(a, k).Some? && Get(b, k).Some? && equalVal(Get(a, k).value, Get(b, k).value)
  }

  /** Main result: the one-directional check decides equality of maps (a pigeonhole argument). */
  lemma EqualIsSameMap<K, V>(a: Entries<K, V>, b: Entries<K, V>, equalVal: (V, V) -> bool)
    requires Unique(a) && Unique(b)
    ensures Equal(a, b, equalVal) <==> SameMap(a, b, equalVal)
  {
    DistinctCount(Keys(a));
    DistinctCount(Keys(b));
    assert KeySet(a) == Members(Keys(a)) && KeySet(b) == Members(Keys(b));
    if Equal(a, b, equalVal) {
      forall k | k in KeySet(b) ensures k in KeySet(a) && Get(b, k).Some? && equalVal(Get(a, k).value, Get(b, k).value) {
        EntryAt(b, IndexOf(b, k));
      }
      SubsetOfSameSize(KeySet(b), KeySet(a));
    }
    if SameMap(a, b, equalVal) {
      forall i | 0 <= i < |b| ensures Get(a, b[i].0).Some? && equalVal(Get(a, b[i].0).value, b[i].1) {
        EntryAt(b, i);
        assert Keys(b)[i] in KeySet(b);
      }
    }
  }

  lemma EqualSymmetric<K, V(!new)>(a: Entries<K, V>, b: Entries<K, V>, equalVal: (V, V) -> bool, ok: V -> bool)
    requires Unique(a) && Unique(b) && AllValues(a, ok) && AllValues(b, ok)
    requires forall x, y | ok(x) && ok(y) :: equalVal(x, y) == equalVal(y, x)
    ensures Equal(a, b, equalVal) == Equal(b, a, equalVal)
  {
    EqualIsSameMap(a, b, equalVal);
    EqualIsSameMap(b, a, equalVal);
  }

  lemma EqualTransitive<K, V(!new)>(a: Entries<K, V>, b: Entries<K, V>, c: Entries<K, V>, equalVal: (V, V) -> bool, ok: V -> bool)
    requires Unique(b) && AllValues(a, ok) && AllValues(b, ok) && AllValues(c, ok)
    requires forall x, y, z | ok(x) && ok(y) && ok(z) :: equalVal(x, y) && equalVal(y, z) ==> equalVal(x, z)
    requires Equal(a, b, equalVal) && Equal(b, c, equalVal)
    ensures Equal(a, c, equalVal)
  {
    forall i | 0 <= i < |c| ensures Get(a, c[i].0).Some? && equalVal(Get(a, c[i].0).value, c[i].1) {
      var j := IndexOf(b, c[i].0);
      assert b[j] == (c[i].0, Get(b, c[i].0).value);
      assert equalVal(Get(a, b[j].0).value, b[j].1);
    }
  }

  // -------- every value --------

  predicate AllValues<K, V>(m: Entries<K, V>, ok: V -> bool) {
    forall i | 0 <= i < |m| :: ok(m[i].1)
  }

  lemma {:induction false} PutAllValues<K, V>(m: Entries<K, V>, other: Entries<K, V>, ok: V -> bool)
    requires AllValues(m, ok) && AllValues(other, ok)
    ensures AllValues(PutAll(m, other), ok)
    decreases |other|
  {
    if other != [] {
      PutAllValues(Put(m, other[0].0, other[0].1), other[1..], ok);
    }
  }

  lemma FilterValues<K, V>(m: Entries<K, V>, pass: ((K, V)) -> bool, ok: V -> bool)
    requires AllValues(m, ok)
    ensures AllValues(Filter(m, pass), ok)
  {
    var f := Filter(m, pass);
    forall i | 0 <= i < |f| ensures ok(f[i].1) {
      FilterMember(m, pass, f[i]);
    }
  }
}
