/** Sequence vocabulary shared by the container specifications. */
module Seqs {

  datatype Option<+T> = None | Some(value: T)

  /** The elements of s that satisfy pass, in order. */
  function Filter<T>(s: seq<T>, pass: T -> bool): seq<T> {
    if s == [] then []
    else (if pass(s[0]) then [s[0]] else []) + Filter(s[1..], pass)
  }

  /** s without the element at i. */
  function RemoveAt<T>(s: seq<T>, i: nat): seq<T>
    requires i < |s|
  {
    s[..i] + s[i + 1..]
  }

  lemma RemoveAtTail<T>(s: seq<T>, i: nat)
    requires 0 < i < |s|
    ensures RemoveAt(s, i) == [s[0]] + RemoveAt(s[1..], i - 1)
  {
    assert s[..i] == [s[0]] + s[1..][..i - 1] && s[i + 1..] == s[1..][i..];
  }

  predicate Distinct<T(==)>(s: seq<T>) {
    forall i, j | 0 <= i < j < |s| :: s[i] != s[j]
  }

  function Members<T(==)>(s: seq<T>): set<T> {
    set x | x in s
  }

  lemma {:induction false} DistinctCount<T>(s: seq<T>)
    requires Distinct(s)
    ensures |Members(s)| == |s|
  {
    if s != [] {
      DistinctCount(s[1..]);
      assert s == [s[0]] + s[1..];
      assert Members(s) == {s[0]} + Members(s[1..]);
    }
  }

  lemma SubsetOfSameSize<T>(a: set<T>, b: set<T>)
    requires a <= b && |a| == |b|
    ensures a == b
  {
    assert |b - a| == 0;
  }

  lemma {:induction false} FilterConcat<T>(a: seq<T>, b: seq<T>, pass: T -> bool)
    ensures Filter(a + b, pass) == Filter(a, pass) + Filter(b, pass)
  {
    if a == [] {
      assert a + b == b;
    } else {
      FilterConcat(a[1..], b, pass);
      assert (a + b)[1..] == a[1..] + b && (a + b)[0] == a[0];
      assert Filter(a + b, pass) == (if pass(a[0]) then [a[0]] else []) + Filter(a[1..] + b, pass);
    }
  }

  lemma FilterCons<T>(x: T, s: seq<T>, pass: T -> bool)
    ensures Filter([x] + s, pass) == (if pass(x) then [x] else []) + Filter(s, pass)
  {
  }

  lemma FilterSnoc<T>(s: seq<T>, n: nat, pass: T -> bool)
    requires n < |s|
    ensures Filter(s[..n + 1], pass) == Filter(s[..n], pass) + (if pass(s[n]) then [s[n]] else [])
  {
    assert s[..n + 1] == s[..n] + [s[n]];
    FilterConcat(s[..n], [s[n]], pass);
    assert [s[n]][1..] == [];
  }

  lemma FilterMember<T>(s: seq<T>, pass: T -> bool, x: T)
    ensures x in Filter(s, pass) <==> x in s && pass(x)
  {
  }

  lemma FilterAll<T>(s: seq<T>, pass: T -> bool)
    requires forall x | x in s :: pass(x)
    ensures Filter(s, pass) == s
  {
  }

  lemma FilterSame<T>(s: seq<T>, p: T -> bool, q: T -> bool)
    requires forall x | x in s :: p(x) == q(x)
    ensures Filter(s, p) == Filter(s, q)
  {
  }

  /** The place of x in s, or |s|. */
  function PlaceIn<T(==)>(s: seq<T>, x: T): (k: nat)
    ensures k <= |s| && (k < |s| ==> s[k] == x) && (x in s ==> k < |s|)
  {
    if s == [] || s[0] == x then 0 else 1 + PlaceIn(s[1..], x)
  }

  lemma PlaceInAt<T>(s: seq<T>, k: nat)
    requires Distinct(s) && k < |s|
    ensures PlaceIn(s, s[k]) == k
  {
    assert s[k] in s;
  }

  function Not<T>(p: T -> bool): T -> bool {
    x => !p(x)
  }

  function Both<T>(p: T -> bool, q: T -> bool): T -> bool {
    x => p(x) && q(x)
  }

  lemma FilterTwice<T>(s: seq<T>, p: T -> bool, q: T -> bool)
    ensures Filter(Filter(s, p), q) == Filter(s, Both(p, q))
  {
    if s != [] {
      FilterTwice(s[1..], p, q);
      FilterConcat(if p(s[0]) then [s[0]] else [], Filter(s[1..], p), q);
    }
  }

  lemma DistinctFilter<T>(s: seq<T>, pass: T -> bool)
    requires Distinct(s)
    ensures Distinct(Filter(s, pass))
  {
    if s != [] {
      DistinctFilter(s[1..], pass);
      FilterMember(s[1..], pass, s[0]);
    }
  }

  /** The first index from i on whose element satisfies pass, or |s|. */
  function NextAt<T>(s: seq<T>, i: nat, pass: T -> bool): (n: nat)
    requires i <= |s|
    ensures i <= n <= |s| && (n < |s| ==> pass(s[n]))
    ensures forall k | i <= k < n :: !pass(s[k])
    decreases |s| - i
  {
    if i == |s| || pass(s[i]) then i else NextAt(s, i + 1, pass)
  }

  /** The first element that passes. */
  function FirstThat<T>(s: seq<T>, pass: T -> bool): Option<T> {
    var i := NextAt(s, 0, pass);
    if i < |s| then Some(s[i]) else None
  }

  /**
   What a traversal leaves: of the elements that satisfy pass, the ones whose turn drop picks go;
   turn is how many satisfied pass before s.
   */
  function Kept<T>(s: seq<T>, pass: T -> bool, drop: nat -> bool, turn: nat): seq<T> {
    if s == [] then []
    else if pass(s[0]) then (if drop(turn) then [] else [s[0]]) + Kept(s[1..], pass, drop, turn + 1)
    else [s[0]] + Kept(s[1..], pass, drop, turn)
  }

  /** A traversal that removes every visited element leaves those that do not satisfy pass. */
  lemma {:induction false} KeptAllDropped<T>(s: seq<T>, pass: T -> bool, drop: nat -> bool, turn: nat)
    requires forall n | n >= turn :: drop(n)
    ensures Kept(s, pass, drop, turn) == Filter(s, Not(pass))
  {
    if s != [] {
      KeptAllDropped(s[1..], pass, drop, if pass(s[0]) then turn + 1 else turn);
    }
  }

  /**
   A traversal of before stands at contents[at] with the visited elements behind it: what it has
   left so far and what its rest will leave are, together, what the whole leaves.
   */
  ghost predicate Midway<T>(before: seq<T>, contents: seq<T>, pass: T -> bool, drop: nat -> bool,
      visited: seq<T>, at: nat)
  {
    && at <= |contents|
    && contents[..at] + Kept(contents[at..], pass, drop, |visited|) == Kept(before, pass, drop, 0)
    && visited + Filter(contents[at..], pass) == Filter(before, pass)
  }

  lemma {:induction false} MidwaySkip<T>(before: seq<T>, s: seq<T>, pass: T -> bool, drop: nat -> bool,
      visited: seq<T>, i: nat)
    requires Midway(before, s, pass, drop, visited, i)
    ensures Midway(before, s, pass, drop, visited, NextAt(s, i, pass))
    decreases |s| - i
  {
    if i < |s| && !pass(s[i]) {
      assert s[i..][0] == s[i] && s[i..][1..] == s[i + 1..];
      var rest := Kept(s[i + 1..], pass, drop, |visited|);
      assert s[..i] + ([s[i]] + rest) == s[..i + 1] + rest;
      MidwaySkip(before, s, pass, drop, visited, i + 1);
    }
  }

  lemma MidwayStep<T>(before: seq<T>, s: seq<T>, left: seq<T>, pass: T -> bool, drop: nat -> bool,
      visited: seq<T>, at: nat)
    requires Midway(before, s, pass, drop, visited, at) && at < |s| && pass(s[at])
    requires left == if drop(|visited|) then RemoveAt(s, at) else s
    ensures var start := if drop(|visited|) then at else at + 1;
      Midway(before, left, pass, drop, visited + [s[at]], NextAt(left, start, pass))
  {
    var start := if drop(|visited|) then at else at + 1;
    var rest := Kept(s[at + 1..], pass, drop, |visited| + 1);
    assert s[at..][0] == s[at] && s[at..][1..] == s[at + 1..];
    assert left[start..] == s[at + 1..];
    if drop(|visited|) {
      assert left[..start] == s[..at];
    } else {
      assert s[..at] + ([s[at]] + rest) == s[..at + 1] + rest;
    }
    assert visited + ([s[at]] + Filter(s[at + 1..], pass)) == visited + [s[at]] + Filter(s[at + 1..], pass);
    MidwaySkip(before, left, pass, drop, visited + [s[at]], start);
  }

  lemma MidwayStart<T>(before: seq<T>, pass: T -> bool, drop: nat -> bool)
    ensures Midway(before, before, pass, drop, [], NextAt(before, 0, pass))
  {
    assert before[..0] == [] && before[0..] == before;
    MidwaySkip(before, before, pass, drop, [], 0);
  }

  lemma MidwayEnd<T>(before: seq<T>, contents: seq<T>, pass: T -> bool, drop: nat -> bool, visited: seq<T>)
    requires Midway(before, contents, pass, drop, visited, |contents|)
    ensures visited == Filter(before, pass) && contents == Kept(before, pass, drop, 0)
  {
  }
}
