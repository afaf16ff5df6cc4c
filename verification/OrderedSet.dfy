/**
 Insertion-ordered sets under a given notion of equality: the specification of Pset, and of the
 string sets that wrap it.
 */
module OrderedSet {
  import opened Seqs

  /** An equality, of the values that are ok: reflexive, symmetric and transitive among them. */
  ghost predicate Equivalence<T(!new)>(eq: (T, T) -> bool, ok: T -> bool) {
    && (forall x | ok(x) :: eq(x, x))
    && (forall x, y | ok(x) && ok(y) :: eq(x, y) == eq(y, x))
    && (forall x, y, z | ok(x) && ok(y) && ok(z) :: eq(x, y) && eq(y, z) ==> eq(x, z))
  }

  predicate All<T>(s: seq<T>, ok: T -> bool) {
    forall i | 0 <= i < |s| :: ok(s[i])
  }

  function Any<T>(): T -> bool {
    _ => true
  }

  predicate NoTwins<T>(s: seq<T>, eq: (T, T) -> bool) {
    forall i, j | 0 <= i < j < |s| :: !eq(s[i], s[j])
  }

  /** The index of the first element equal to v, or |s|. */
  function IndexOf<T>(s: seq<T>, v: T, eq: (T, T) -> bool): (i: nat)
    ensures i <= |s| && (i < |s| ==> eq(s[i], v))
    ensures forall j | 0 <= j < i :: !eq(s[j], v)
  {
    if s == [] || eq(s[0], v) then 0 else 1 + IndexOf(s[1..], v, eq)
  }

  predicate Has<T>(s: seq<T>, v: T, eq: (T, T) -> bool) {
    IndexOf(s, v, eq) < |s|
  }

  function Add<T>(s: seq<T>, v: T, eq: (T, T) -> bool): seq<T> {
    if Has(s, v, eq) then s else s + [v]
  }

  function Remove<T>(s: seq<T>, v: T, eq: (T, T) -> bool): seq<T> {
    if Has(s, v, eq) then RemoveAt(s, IndexOf(s, v, eq)) else s
  }

  /** pset_equal: sizes, then every element of b is looked up in a. */
  predicate Equal<T>(a: seq<T>, b: seq<T>, eq: (T, T) -> bool) {
    |a| == |b| && forall i | 0 <= i < |b| :: Has(a, b[i], eq)
  }

  /** Every element of each has an equal in the other. */
  ghost predicate SameSet<T>(a: seq<T>, b: seq<T>, eq: (T, T) -> bool) {
    && (forall i | 0 <= i < |a| :: Has(b, a[i], eq))
    && (forall i | 0 <= i < |b| :: Has(a, b[i], eq))
  }

  lemma HasBy<T(!new)>(s: seq<T>, v: T, eq: (T, T) -> bool, k: nat)
    requires k < |s| && eq(s[k], v)
    ensures Has(s, v, eq)
  {
  }

  lemma AddGrows<T(!new)>(s: seq<T>, v: T, eq: (T, T) -> bool, ok: T -> bool, q: T)
    requires Equivalence(eq, ok) && NoTwins(s, eq) && All(s, ok) && ok(v) && ok(q)
    ensures NoTwins(Add(s, v, eq), eq) && All(Add(s, v, eq), ok)
    ensures Has(Add(s, v, eq), q, eq) <==> Has(s, q, eq) || eq(v, q)
  {
    var r := Add(s, v, eq);
    if Has(s, q, eq) {
      HasBy(r, q, eq, IndexOf(s, q, eq));
    }
    if eq(v, q) {
      HasAlike(s, v, q, eq, ok);
      if !Has(s, v, eq) {
        HasBy(r, q, eq, |s|);
      }
    }
    if Has(r, q, eq) {
      var i := IndexOf(r, q, eq);
      if i < |s| {
        HasBy(s, q, eq, i);
      }
    }
  }

  /** Equal values are found alike. */
  lemma HasAlike<T(!new)>(s: seq<T>, v: T, q: T, eq: (T, T) -> bool, ok: T -> bool)
    requires Equivalence(eq, ok) && All(s, ok) && ok(v) && ok(q) && eq(v, q)
    ensures Has(s, v, eq) ==> Has(s, q, eq)
  {
    if Has(s, v, eq) {
      var i := IndexOf(s, v, eq);
      Alike(eq, ok, s[i], v, q);
      HasBy(s, q, eq, i);
    }
  }

  lemma Alike<T(!new)>(eq: (T, T) -> bool, ok: T -> bool, x: T, y: T, z: T)
    requires Equivalence(eq, ok) && ok(x) && ok(y) && ok(z)
    ensures eq(x, y) && eq(x, z) ==> eq(y, z)
    ensures eq(x, z) && eq(y, z) ==> eq(x, y)
    ensures eq(x, y) && eq(y, z) ==> eq(x, z)
    ensures eq(x, y) == eq(y, x)
  {
  }

  lemma OnlyPlace<T(!new)>(s: seq<T>, v: T, eq: (T, T) -> bool, ok: T -> bool)
    requires Equivalence(eq, ok) && NoTwins(s, eq) && All(s, ok) && ok(v)
    ensures forall k | 0 <= k < |s| && k != IndexOf(s, v, eq) :: !eq(s[k], v)
  {
    var i := IndexOf(s, v, eq);
    forall k | i < k < |s| ensures !eq(s[k], v) {
      Alike(eq, ok, s[i], s[k], v);
    }
  }

  lemma RemoveKeepsNoTwins<T>(s: seq<T>, i: nat, eq: (T, T) -> bool)
    requires NoTwins(s, eq) && i < |s|
    ensures NoTwins(RemoveAt(s, i), eq)
  {
  }

  lemma RemoveShrinks<T(!new)>(s: seq<T>, v: T, eq: (T, T) -> bool, ok: T -> bool, q: T)
    requires Equivalence(eq, ok) && NoTwins(s, eq) && All(s, ok) && ok(v) && ok(q)
    ensures NoTwins(Remove(s, v, eq), eq) && All(Remove(s, v, eq), ok)
    ensures Has(Remove(s, v, eq), q, eq) <==> Has(s, q, eq) && !eq(v, q)
  {
    var r, at, i := Remove(s, v, eq), IndexOf(s, v, eq), IndexOf(s, q, eq);
    var gone := |s| - |r|;
    OnlyPlace(s, v, eq, ok);
    forall k | 0 <= k < |r| ensures !eq(v, r[k]) && ok(r[k]) {
      assert r[k] == s[if k < at then k else k + gone];
      assert eq(v, r[k]) == eq(r[k], v);
    }
    if Has(r, q, eq) {
      var k := IndexOf(r, q, eq);
      HasBy(s, q, eq, if k < at then k else k + gone);
      Alike(eq, ok, v, r[k], q);
    }
    if Has(s, q, eq) {
      Alike(eq, ok, s[i], v, q);
      if i != at {
        HasBy(r, q, eq, if i < at then i else i - gone);
      }
    }
  }

  /** Main result: the one-directional check decides equality of sets (a pigeonhole argument). */
  lemma EqualIsSameSet<T(!new)>(a: seq<T>, b: seq<T>, eq: (T, T) -> bool, ok: T -> bool)
    requires Equivalence(eq, ok) && All(a, ok) && All(b, ok) && NoTwins(a, eq) && NoTwins(b, eq)
    ensures Equal(a, b, eq) <==> SameSet(a, b, eq)
  {
    if Equal(a, b, eq) {
      InverseOf(a, b, eq, ok);
    }
    if SameSet(a, b, eq) {
      NotLarger(a, b, eq, ok);
      NotLarger(b, a, eq, ok);
    }
  }

  /** Looking b up in a finds distinct places. */
  lemma Injection<T(!new)>(a: seq<T>, b: seq<T>, eq: (T, T) -> bool, ok: T -> bool) returns (places: seq<nat>)
    requires Equivalence(eq, ok) && All(a, ok) && All(b, ok)
    requires NoTwins(b, eq) && forall i | 0 <= i < |b| :: Has(a, b[i], eq)
    ensures |places| == |b| && Distinct(places)
    ensures forall i | 0 <= i < |b| :: places[i] == IndexOf(a, b[i], eq) < |a|
    ensures Members(places) <= Below(|a|) && |Members(places)| == |b|
  {
    places := seq(|b|, i requires 0 <= i < |b| => IndexOf(a, b[i], eq));
    forall i, j | 0 <= i < j < |b| ensures places[i] != places[j] {
      Alike(eq, ok, a[places[i]], b[i], b[j]);
    }
    DistinctCount(places);
  }

  function Below(n: nat): (b: set<nat>)
    ensures forall i: nat :: i in b <==> i < n
    ensures |b| == n
  {
    if n == 0 then {} else Below(n - 1) + {n - 1}
  }

  lemma NotLarger<T(!new)>(a: seq<T>, b: seq<T>, eq: (T, T) -> bool, ok: T -> bool)
    requires Equivalence(eq, ok) && All(a, ok) && All(b, ok)
    requires NoTwins(b, eq) && forall i | 0 <= i < |b| :: Has(a, b[i], eq)
    ensures |b| <= |a|
  {
    var places := Injection(a, b, eq, ok);
    SubsetCount(Members(places), Below(|a|));
  }

  lemma SubsetCount<T>(a: set<T>, b: set<T>)
    requires a <= b
    ensures |a| <= |b|
  {
    assert |b| == |a| + |b - a|;
  }

  lemma InverseOf<T(!new)>(a: seq<T>, b: seq<T>, eq: (T, T) -> bool, ok: T -> bool)
    requires Equivalence(eq, ok) && All(a, ok) && All(b, ok) && NoTwins(b, eq) && Equal(a, b, eq)
    ensures forall k | 0 <= k < |a| :: Has(b, a[k], eq)
  {
    var places := Injection(a, b, eq, ok);
    SubsetOfSameSize(Members(places), Below(|a|));
    forall k | 0 <= k < |a| ensures Has(b, a[k], eq) {
      assert k in Members(places);
      var i :| 0 <= i < |b| && places[i] == k;
      Alike(eq, ok, a[k], b[i], b[i]);
      HasBy(b, a[k], eq, i);
    }
  }

  lemma EqualReflexive<T(!new)>(s: seq<T>, eq: (T, T) -> bool, ok: T -> bool)
    requires Equivalence(eq, ok) && All(s, ok)
    ensures Equal(s, s, eq)
  {
    forall i | 0 <= i < |s| ensures Has(s, s[i], eq) {
      HasBy(s, s[i], eq, i);
    }
  }

  lemma EqualSymmetric<T(!new)>(a: seq<T>, b: seq<T>, eq: (T, T) -> bool, ok: T -> bool)
    requires Equivalence(eq, ok) && All(a, ok) && All(b, ok) && NoTwins(a, eq) && NoTwins(b, eq)
    ensures Equal(a, b, eq) == Equal(b, a, eq)
  {
    EqualIsSameSet(a, b, eq, ok);
    EqualIsSameSet(b, a, eq, ok);
  }

  lemma EqualTransitive<T(!new)>(a: seq<T>, b: seq<T>, c: seq<T>, eq: (T, T) -> bool, ok: T -> bool)
    requires Equivalence(eq, ok) && All(a, ok) && All(b, ok) && All(c, ok) && Equal(a, b, eq) && Equal(b, c, eq)
    ensures Equal(a, c, eq)
  {
    forall i | 0 <= i < |c| ensures Has(a, c[i], eq) {
      HasAlike(a, b[IndexOf(b, c[i], eq)], c[i], eq, ok);
    }
  }
}
