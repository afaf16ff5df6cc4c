/**
 The gap sequence sort of plist_sort and pset_sort, as a function on sequences:
 a permutation for every comparator, and sorted for every strict weak order.
 */
module ShellSort {

  type Gap = g: nat | g > 0 witness 1

  // Ciura gap sequence
  const GAPS: seq<Gap> := [701, 301, 132, 57, 23, 10, 4, 1]

  ghost predicate StrictWeakOrder<T(!new)>(less: (T, T) -> bool) {
    && (forall x :: !less(x, x))
    && (forall x, y, z :: less(x, y) && less(y, z) ==> less(x, z))
    && (forall x, y, z :: !less(x, y) && !less(y, z) ==> !less(x, z))
  }

  /** No later element is less than an earlier one. */
  ghost predicate Sorted<T>(s: seq<T>, less: (T, T) -> bool) {
    forall a, b | 0 <= a < b < |s| :: !less(s[b], s[a])
  }

  /** Moves s[j] towards the front in steps of gap while it is less than the element it meets. */
  function Sift<T>(s: seq<T>, less: (T, T) -> bool, gap: Gap, j: nat): (r: seq<T>)
    requires j < |s|
    ensures |r| == |s|
    decreases j
  {
    if j >= gap && less(s[j], s[j - gap]) then
      Sift(s[j := s[j - gap]][j - gap := s[j]], less, gap, j - gap)
    else s
  }

  /** Sifts every index from i on. */
  function Pass<T>(s: seq<T>, less: (T, T) -> bool, gap: Gap, i: nat): (r: seq<T>)
    ensures |r| == |s|
    decreases |s| - i
  {
    if i < |s| then Pass(Sift(s, less, gap, i), less, gap, i + 1) else s
  }

  function Passes<T>(s: seq<T>, less: (T, T) -> bool, gaps: seq<Gap>): (r: seq<T>)
    ensures |r| == |s|
    decreases |gaps|
  {
    if gaps == [] then s else Passes(Pass(s, less, gaps[0], gaps[0]), less, gaps[1..])
  }

  function Sort<T>(s: seq<T>, less: (T, T) -> bool): (r: seq<T>) {
    Passes(s, less, GAPS)
  }

  // -------- permutation, whatever the comparator --------

  lemma SwapKeepsElements<T>(s: seq<T>, a: nat, b: nat)
    requires a < b < |s|
    ensures multiset(s[b := s[a]][a := s[b]]) == multiset(s)
  {
  }

  lemma {:induction false} SiftKeepsElements<T>(s: seq<T>, less: (T, T) -> bool, gap: Gap, j: nat)
    requires j < |s|
    ensures multiset(Sift(s, less, gap, j)) == multiset(s)
    decreases j
  {
    if j >= gap && less(s[j], s[j - gap]) {
      SwapKeepsElements(s, j - gap, j);
      SiftKeepsElements(s[j := s[j - gap]][j - gap := s[j]], less, gap, j - gap);
    }
  }

  lemma SiftMember<T>(s: seq<T>, less: (T, T) -> bool, gap: Gap, j: nat, x: T)
    requires j < |s|
    ensures x in Sift(s, less, gap, j) <==> x in s
  {
    SiftKeepsElements(s, less, gap, j);
    assert x in multiset(Sift(s, less, gap, j)) <==> x in multiset(s);
  }

  lemma {:induction false} PassKeepsElements<T>(s: seq<T>, less: (T, T) -> bool, gap: Gap, i: nat)
    ensures multiset(Pass(s, less, gap, i)) == multiset(s)
    decreases |s| - i
  {
    if i < |s| {
      SiftKeepsElements(s, less, gap, i);
      PassKeepsElements(Sift(s, less, gap, i), less, gap, i + 1);
    }
  }

  lemma {:induction false} PassesKeepElements<T>(s: seq<T>, less: (T, T) -> bool, gaps: seq<Gap>)
    ensures multiset(Passes(s, less, gaps)) == multiset(s)
    decreases |gaps|
  {
    if gaps != [] {
      PassKeepsElements(s, less, gaps[0], gaps[0]);
      PassesKeepElements(Pass(s, less, gaps[0], gaps[0]), less, gaps[1..]);
    }
  }

  /** Main result, first half: for every comparator the sort permutes its input. */
  lemma SortPermutes<T>(s: seq<T>, less: (T, T) -> bool)
    ensures multiset(Sort(s, less)) == multiset(s)
  {
    PassesKeepElements(s, less, GAPS);
  }

  lemma SortMember<T>(s: seq<T>, less: (T, T) -> bool, x: T)
    ensures x in Sort(s, less) <==> x in s
  {
    SortPermutes(s, less);
    assert x in Sort(s, less) <==> x in multiset(Sort(s, less));
    assert x in s <==> x in multiset(s);
  }

  // -------- sortedness: the final pass has gap 1 --------

  /** s[..n] is in order but for the element at j, which nothing after it is less than. */
  ghost predicate SortedBut<T>(s: seq<T>, less: (T, T) -> bool, n: nat, j: nat)
    requires j < n <= |s|
  {
    && (forall a, b | 0 <= a < b < n && a != j && b != j :: !less(s[b], s[a]))
    && (forall b | j < b < n :: !less(s[b], s[j]))
  }

  lemma {:induction false} SiftSorts<T(!new)>(s: seq<T>, less: (T, T) -> bool, n: nat, j: nat)
    requires StrictWeakOrder(less) && j < n <= |s| && SortedBut(s, less, n, j)
    ensures var r := Sift(s, less, 1, j); Sorted(r[..n], less) && r[n..] == s[n..]
    decreases j
  {
    if j >= 1 && less(s[j], s[j - 1]) {
      var t := s[j := s[j - 1]][j - 1 := s[j]];
      assert SortedBut(t, less, n, j - 1) by {
        forall b | j - 1 < b < n ensures !less(t[b], t[j - 1]) {
          if b == j {
            assert less(s[j], s[j - 1]);
          }
        }
        forall a, b | 0 <= a < b < n && a != j - 1 && b != j - 1 ensures !less(t[b], t[a]) {
          if a == j {
            assert t[a] == s[j - 1];
          } else if b == j {
            assert t[b] == s[j - 1];
          }
        }
      }
      SiftSorts(t, less, n, j - 1);
      assert t[n..] == s[n..];
    } else if j >= 1 {
      forall a | 0 <= a < j ensures !less(s[j], s[a]) {
        if a < j - 1 {
          assert !less(s[j - 1], s[a]);
        }
      }
    }
  }

  lemma {:induction false} LastPassSorts<T(!new)>(s: seq<T>, less: (T, T) -> bool, i: nat)
    requires StrictWeakOrder(less) && i <= |s| && Sorted(s[..i], less)
    ensures Sorted(Pass(s, less, 1, i), less)
    decreases |s| - i
  {
    if i < |s| {
      assert SortedBut(s, less, i + 1, i) by {
        forall a, b | 0 <= a < b < i ensures !less(s[b], s[a]) {
          assert s[..i][a] == s[a] && s[..i][b] == s[b];
        }
      }
      SiftSorts(s, less, i + 1, i);
      LastPassSorts(Sift(s, less, 1, i), less, i + 1);
    } else {
      assert s[..i] == s;
    }
  }

  lemma {:induction false} PassesSort<T(!new)>(s: seq<T>, less: (T, T) -> bool, gaps: seq<Gap>)
    requires StrictWeakOrder(less)
    requires gaps != [] && gaps[|gaps| - 1] == 1
    ensures Sorted(Passes(s, less, gaps), less)
    decreases |gaps|
  {
    if |gaps| == 1 {
      if s == [] {
      } else {
        LastPassSorts(s, less, 1);
      }
      assert gaps[1..] == [];
    } else {
      PassesSort(Pass(s, less, gaps[0], gaps[0]), less, gaps[1..]);
    }
  }

  /** Main result, second half: for every strict weak order the sort sorts. */
  lemma SortSorts<T(!new)>(s: seq<T>, less: (T, T) -> bool)
    requires StrictWeakOrder(less)
    ensures Sorted(Sort(s, less), less)
  {
    PassesSort(s, less, GAPS);
  }
}
