/** Putting the displays in the order of the ORDER names, in three passes of decreasing precision. */
module Order {
  import opened Seqs
  import opened Names
  import opened Plists

  /** exact, regex and fuzzy, in order of preference */
  predicate MatchesKind(rx: Regex, kind: nat, h: Name, nameDesc: string) {
    if kind == 0 then MatchesExact(h, nameDesc)
    else if kind == 1 then MatchesRegex(rx, h, nameDesc)
    else MatchesFuzzy(h, nameDesc)
  }

  /** The first ORDER name, from b on, that matches in the given kind; or |order|. */
  function FirstMatch(rx: Regex, order: seq<string>, kind: nat, h: Name, b: nat): (i: nat)
    requires b <= |order|
    ensures b <= i <= |order| && (i < |order| ==> MatchesKind(rx, kind, h, order[i]))
    ensures forall j | b <= j < i :: !MatchesKind(rx, kind, h, order[j])
    decreases |order| - b
  {
    if b == |order| || MatchesKind(rx, kind, h, order[b]) then b
    else FirstMatch(rx, order, kind, h, b + 1)
  }

  /**
   Where a display belongs: by the first name that matches it in the strongest kind that matches
   any name; then by that kind. A display that nothing matches comes last.
   */
  function Rank(rx: Regex, order: seq<string>, h: Name): nat {
    var n := |order|;
    var exact, regex, fuzzy :=
      FirstMatch(rx, order, 0, h, 0), FirstMatch(rx, order, 1, h, 0), FirstMatch(rx, order, 2, h, 0);
    if exact < n then 3 * exact
    else if regex < n then 3 * regex + 1
    else if fuzzy < n then 3 * fuzzy + 2
    else 3 * n
  }

  function RankOf(rx: Regex, order: seq<string>, heads: seq<Name>): int -> nat {
    i => if 0 <= i < |heads| then Rank(rx, order, heads[i]) else 0
  }

  function RankIs(rank: int -> nat, r: nat): int -> bool {
    i => rank(i) == r
  }

  /** The positions 0, 1, ..., n - 1: the order of discovery. */
  function Discovery(n: nat): (s: seq<int>)
    ensures |s| == n && forall i | 0 <= i < n :: s[i] == i
  {
    seq(n, i => i)
  }

  /** The elements whose rank is less than r, by rank and then as they come. */
  function Ranked(all: seq<int>, rank: int -> nat, r: nat): seq<int> {
    if r == 0 then [] else Ranked(all, rank, r - 1) + Filter(all, RankIs(rank, r - 1))
  }

  /** The order that desire_order promises. */
  function Ordered(rx: Regex, order: seq<string>, heads: seq<Name>): seq<int> {
    Ranked(Discovery(|heads|), RankOf(rx, order, heads), 3 * |order| + 1)
  }

  // -------- what the order is --------

  ghost predicate Precedes(rank: int -> nat, i: int, j: int) {
    rank(i) < rank(j) || (rank(i) == rank(j) && i < j)
  }

  ghost predicate InOrder(rank: int -> nat, s: seq<int>) {
    forall p, q | 0 <= p < q < |s| :: Precedes(rank, s[p], s[q])
  }

  ghost predicate Increasing(s: seq<int>) {
    forall p, q | 0 <= p < q < |s| :: s[p] < s[q]
  }

  lemma {:induction false} FilterIncreases(s: seq<int>, pass: int -> bool)
    requires Increasing(s)
    ensures Increasing(Filter(s, pass))
  {
    if s != [] {
      FilterIncreases(s[1..], pass);
      var rest := Filter(s[1..], pass);
      forall p | 0 <= p < |rest| ensures s[0] < rest[p] {
        FilterMember(s[1..], pass, rest[p]);
      }
    }
  }

  lemma {:induction false} RankedInOrder(all: seq<int>, rank: int -> nat, r: nat)
    requires Increasing(all)
    ensures InOrder(rank, Ranked(all, rank, r))
    ensures forall i :: i in Ranked(all, rank, r) <==> i in all && rank(i) < r
  {
    if r > 0 {
      RankedInOrder(all, rank, r - 1);
      var front, back := Ranked(all, rank, r - 1), Filter(all, RankIs(rank, r - 1));
      FilterIncreases(all, RankIs(rank, r - 1));
      forall i ensures i in back <==> i in all && rank(i) == r - 1 {
        FilterMember(all, RankIs(rank, r - 1), i);
      }
      AppendInOrder(rank, front, back, r - 1);
    }
  }

  lemma AppendInOrder(rank: int -> nat, front: seq<int>, back: seq<int>, r: nat)
    requires InOrder(rank, front) && Increasing(back)
    requires (forall i | i in front :: rank(i) < r) && (forall i | i in back :: rank(i) == r)
    ensures InOrder(rank, front + back)
  {
    assert forall p | 0 <= p < |front| :: front[p] in front;
    assert forall p | 0 <= p < |back| :: back[p] in back;
  }

  lemma RankBounded(rx: Regex, order: seq<string>, h: Name)
    ensures Rank(rx, order, h) <= 3 * |order|
  {
  }

  /**
   Main result: the order is a permutation of the heads, sorted by chosen ORDER name, match kind
   and discovery, unmatched heads last.
   */
  lemma OrderedSorts(rx: Regex, order: seq<string>, heads: seq<Name>)
    ensures InOrder(RankOf(rx, order, heads), Ordered(rx, order, heads))
    ensures forall i :: i in Ordered(rx, order, heads) <==> 0 <= i < |heads|
    ensures multiset(Ordered(rx, order, heads)) == multiset(Discovery(|heads|))
  {
    var s, all, rank := Ordered(rx, order, heads), Discovery(|heads|), RankOf(rx, order, heads);
    RankedInOrder(all, rank, 3 * |order| + 1);
    forall i ensures i in all <==> 0 <= i < |heads| {
      assert 0 <= i < |heads| ==> all[i] == i;
    }
    forall i | 0 <= i < |heads| ensures rank(i) < 3 * |order| + 1 {
      RankBounded(rx, order, heads[i]);
    }
    DistinctMultiset(s, all);
  }

  lemma {:induction false} CountDistinct<T>(s: seq<T>, x: T)
    requires Distinct(s)
    ensures multiset(s)[x] == if x in s then 1 else 0
  {
    if s != [] {
      assert s == [s[0]] + s[1..];
      CountDistinct(s[1..], x);
    }
  }

  lemma DistinctMultiset<T>(s: seq<T>, t: seq<T>)
    requires Distinct(s) && Distinct(t) && forall x :: x in s <==> x in t
    ensures multiset(s) == multiset(t)
  {
    forall x ensures multiset(s)[x] == multiset(t)[x] {
      CountDistinct(s, x);
      CountDistinct(t, x);
    }
  }

  /** That is the only sequence which is in order and lists every head. */
  lemma {:induction false} OrderUnique(rank: int -> nat, s: seq<int>, t: seq<int>)
    requires InOrder(rank, s) && InOrder(rank, t) && forall i :: i in s <==> i in t
    ensures s == t
  {
    assert s != [] ==> s[0] in s;
    assert t != [] ==> t[0] in t;
    if s != [] {
      var p :| 0 <= p < |t| && t[p] == s[0];
      var q :| 0 <= q < |s| && s[q] == t[0];
      assert p > 0 ==> Precedes(rank, t[0], s[0]);
      assert q > 0 ==> Precedes(rank, s[0], t[0]);
      assert s == [s[0]] + s[1..] && t == [t[0]] + t[1..] && s[0] == t[0];
      forall i ensures i in s[1..] <==> i in t[1..] {
        assert s[0] !in s[1..] && t[0] !in t[1..];
        assert i in s <==> i == s[0] || i in s[1..];
        assert i in t <==> i == t[0] || i in t[1..];
      }
      OrderUnique(rank, s[1..], t[1..]);
    }
  }

  // -------- the three passes --------

  /** Not yet taken when the pass of the given kind has reached the name at b. */
  function Pending(rx: Regex, order: seq<string>, heads: seq<Name>, kind: nat, b: nat): int -> bool {
    i => 0 <= i < |heads| && Untaken(rx, order, heads[i], kind, b)
  }

  /** The candidates left at that point. */
  ghost function Left(rx: Regex, order: seq<string>, heads: seq<Name>, kind: nat, b: nat): seq<int> {
    Filter(Discovery(|heads|), Pending(rx, order, heads, kind, b))
  }

  predicate Untaken(rx: Regex, order: seq<string>, h: Name, kind: nat, b: nat) {
    && (kind > 0 ==> FirstMatch(rx, order, 0, h, 0) == |order|)
    && (kind > 1 ==> FirstMatch(rx, order, 1, h, 0) == |order|)
    && (kind > 2 ==> FirstMatch(rx, order, 2, h, 0) == |order|)
    && (kind <= 2 ==> FirstMatch(rx, order, kind, h, 0) >= b)
  }

  function Hits(rx: Regex, order: seq<string>, heads: seq<Name>, kind: nat, b: nat): int -> bool
    requires b < |order|
  {
    i => 0 <= i < |heads| && MatchesKind(rx, kind, heads[i], order[b])
  }

  lemma TakenAt(rx: Regex, order: seq<string>, h: Name, kind: nat, b: nat)
    requires kind <= 2 && b < |order|
    ensures Untaken(rx, order, h, kind, b) && MatchesKind(rx, kind, h, order[b]) <==> Rank(rx, order, h) == 3 * b + kind
    ensures Untaken(rx, order, h, kind, b) && !MatchesKind(rx, kind, h, order[b]) <==> Untaken(rx, order, h, kind, b + 1)
  {
  }

  lemma BucketStep(rx: Regex, order: seq<string>, heads: seq<Name>, kind: nat, b: nat)
    requires kind <= 2 && b < |order|
    ensures var (all, left) := (Discovery(|heads|), Left(rx, order, heads, kind, b));
      var hit := Hits(rx, order, heads, kind, b);
      && Filter(left, hit) == Filter(all, RankIs(RankOf(rx, order, heads), 3 * b + kind))
      && Filter(left, Not(hit)) == Left(rx, order, heads, kind, b + 1)
  {
    var all, pending, hit := Discovery(|heads|), Pending(rx, order, heads, kind, b), Hits(rx, order, heads, kind, b);
    FilterTwice(all, pending, hit);
    FilterTwice(all, pending, Not(hit));
    forall i | i in all ensures 0 <= i < |heads|
      && Both(pending, hit)(i) == RankIs(RankOf(rx, order, heads), 3 * b + kind)(i)
      && Both(pending, Not(hit))(i) == Pending(rx, order, heads, kind, b + 1)(i)
    {
      TakenAt(rx, order, heads[i], kind, b);
    }
    FilterSame(all, Both(pending, hit), RankIs(RankOf(rx, order, heads), 3 * b + kind));
    FilterSame(all, Both(pending, Not(hit)), Pending(rx, order, heads, kind, b + 1));
  }

  lemma PassEnds(rx: Regex, order: seq<string>, heads: seq<Name>, kind: nat)
    requires kind <= 2
    ensures Left(rx, order, heads, kind, |order|) == Left(rx, order, heads, kind + 1, 0)
  {
    FilterSame(Discovery(|heads|), Pending(rx, order, heads, kind, |order|), Pending(rx, order, heads, kind + 1, 0));
  }

  /** What the bucket of name b holds after so many kinds. */
  ghost function Bucket(all: seq<int>, rank: int -> nat, b: nat, kinds: nat): seq<int> {
    if kinds == 0 then [] else Bucket(all, rank, b, kinds - 1) + Filter(all, RankIs(rank, 3 * b + kinds - 1))
  }

  /** The buckets before b have been filled by one kind more than the others. */
  ghost predicate Filled(buckets: seq<seq<int>>, all: seq<int>, rank: int -> nat, kinds: nat, b: nat) {
    forall j | 0 <= j < |buckets| :: buckets[j] == Bucket(all, rank, j, if j < b then kinds + 1 else kinds)
  }

  lemma FilledStep(buckets: seq<seq<int>>, all: seq<int>, rank: int -> nat, kinds: nat, b: nat)
    requires Filled(buckets, all, rank, kinds, b) && b < |buckets|
    ensures Filled(buckets[b := buckets[b] + Filter(all, RankIs(rank, 3 * b + kinds))], all, rank, kinds, b + 1)
  {
    var grown := buckets[b := buckets[b] + Filter(all, RankIs(rank, 3 * b + kinds))];
    assert grown[b] == Bucket(all, rank, b, kinds + 1);
    forall j | 0 <= j < |grown| ensures grown[j] == Bucket(all, rank, j, if j < b + 1 then kinds + 1 else kinds) {
      if j != b {
        assert grown[j] == buckets[j];
      }
    }
  }

  lemma FilledAll(buckets: seq<seq<int>>, all: seq<int>, rank: int -> nat, kinds: nat)
    requires Filled(buckets, all, rank, kinds, |buckets|)
    ensures Filled(buckets, all, rank, kinds + 1, 0)
  {
  }

  /** The inner loop of fill_order_buckets: appends each match to the bucket, and removes it. */
  method Take(candidates: Plist<int>, hit: int -> bool) returns (moved: seq<int>)
    requires candidates.Valid()
    modifies candidates`size, candidates.vals
    ensures candidates.Valid()
    ensures moved == Filter(old(candidates.Contents()), hit)
    ensures candidates.Contents() == Filter(old(candidates.Contents()), Not(hit))
  {
    KeptAllDropped(candidates.Contents(), hit, n => true, 0);
    moved := Traverse(candidates, hit, n => true);
  }

  /** One name of fill_order_buckets. */
  method FillBucket(rx: Regex, order: seq<string>, heads: seq<Name>, kind: nat, b: nat, candidates: Plist<int>,
      bucket: seq<int>) returns (more: seq<int>)
    requires kind <= 2 && b < |order| && candidates.Valid()
    requires candidates.Contents() == Left(rx, order, heads, kind, b)
    modifies candidates`size, candidates.vals
    ensures candidates.Valid() && candidates.Contents() == Left(rx, order, heads, kind, b + 1)
    ensures more == bucket + Filter(Discovery(|heads|), RankIs(RankOf(rx, order, heads), 3 * b + kind))
  {
    BucketStep(rx, order, heads, kind, b);
    var moved := Take(candidates, Hits(rx, order, heads, kind, b));
    more := bucket + moved;
  }

  /** fill_order_buckets: moves every candidate that matches a name into the bucket of that name. */
  method FillOrderBuckets(rx: Regex, order: seq<string>, heads: seq<Name>, kind: nat, candidates: Plist<int>,
      filled: seq<seq<int>>) returns (buckets: seq<seq<int>>)
    requires kind <= 2 && candidates.Valid() && |filled| == |order|
    requires candidates.Contents() == Left(rx, order, heads, kind, 0)
    requires Filled(filled, Discovery(|heads|), RankOf(rx, order, heads), kind, 0)
    modifies candidates`size, candidates.vals
    ensures candidates.Valid() && |buckets| == |order|
    ensures candidates.Contents() == Left(rx, order, heads, kind + 1, 0)
    ensures Filled(buckets, Discovery(|heads|), RankOf(rx, order, heads), kind + 1, 0)
  {
    buckets := filled;
    ghost var all, rank := Discovery(|heads|), RankOf(rx, order, heads);
    for b := 0 to |order|
      invariant candidates.Valid() && |buckets| == |order|
      invariant candidates.Contents() == Left(rx, order, heads, kind, b)
      invariant Filled(buckets, all, rank, kind, b)
    {
      FilledStep(buckets, all, rank, kind, b);
      var more := FillBucket(rx, order, heads, kind, b, candidates, buckets[b]);
      buckets := buckets[b := more];
    }
    PassEnds(rx, order, heads, kind);
    FilledAll(buckets, all, rank, kind);
  }

  lemma BucketRanked(all: seq<int>, rank: int -> nat, b: nat)
    ensures Ranked(all, rank, 3 * b) + Bucket(all, rank, b, 3) == Ranked(all, rank, 3 * b + 3)
  {
    BucketGrows(all, rank, b, 0);
    BucketGrows(all, rank, b, 1);
    BucketGrows(all, rank, b, 2);
  }

  lemma BucketGrows(all: seq<int>, rank: int -> nat, b: nat, kinds: nat)
    requires Ranked(all, rank, 3 * b) + Bucket(all, rank, b, kinds) == Ranked(all, rank, 3 * b + kinds)
    ensures Ranked(all, rank, 3 * b) + Bucket(all, rank, b, kinds + 1) == Ranked(all, rank, 3 * b + kinds + 1)
  {
    Regroup(Ranked(all, rank, 3 * b), Bucket(all, rank, b, kinds), Filter(all, RankIs(rank, 3 * b + kinds)));
  }

  lemma Regroup<T>(x: seq<T>, y: seq<T>, z: seq<T>)
    ensures x + (y + z) == x + y + z
  {
  }

  lemma RemainderRanked(rx: Regex, order: seq<string>, heads: seq<Name>)
    ensures Ranked(Discovery(|heads|), RankOf(rx, order, heads), 3 * |order|) + Left(rx, order, heads, 3, 0) ==
            Ordered(rx, order, heads)
  {
    FilterSame(Discovery(|heads|), Pending(rx, order, heads, 3, 0), RankIs(RankOf(rx, order, heads), 3 * |order|));
  }

  /** All candidates, to be moved into buckets. */
  method Candidates(n: nat) returns (candidates: Plist<int>)
    ensures candidates.Valid() && fresh(candidates) && fresh(candidates.vals)
    ensures candidates.Contents() == Discovery(n)
  {
    candidates := new Plist<int>(-1, false, (a, b) => a == b, n);
    for i := 0 to n
      invariant candidates.Valid() && fresh(candidates) && fresh(candidates.vals)
      invariant candidates.nil == -1 && candidates.Contents() == Discovery(i)
    {
      var _ := candidates.Append(i);
    }
  }

  /** Marshals the buckets in their order, then the remainder that did not match. */
  method Marshal(ghost all: seq<int>, ghost rank: int -> nat, buckets: seq<seq<int>>, remainder: seq<int>)
    returns (sorted: seq<int>)
    requires Filled(buckets, all, rank, 3, 0)
    ensures sorted == Ranked(all, rank, 3 * |buckets|) + remainder
  {
    sorted := [];
    for b := 0 to |buckets|
      invariant sorted == Ranked(all, rank, 3 * b)
    {
      BucketRanked(all, rank, b);
      sorted := sorted + buckets[b];
    }
    sorted := sorted + remainder;
  }

  /** desire_order: heads are named by their position in discovery order. */
  method DesireOrder(rx: Regex, order: seq<string>, heads: seq<Name>) returns (sorted: seq<int>)
    ensures sorted == Ordered(rx, order, heads)
  {
    var candidates := Candidates(|heads|);
    FilterAll(Discovery(|heads|), Pending(rx, order, heads, 0, 0));
    var buckets := seq(|order|, b => []);
    buckets := FillOrderBuckets(rx, order, heads, 0, candidates, buckets);
    buckets := FillOrderBuckets(rx, order, heads, 1, candidates, buckets);
    buckets := FillOrderBuckets(rx, order, heads, 2, candidates, buckets);
    RemainderRanked(rx, order, heads);
    sorted := Marshal(Discovery(|heads|), RankOf(rx, order, heads), buckets, candidates.vals[..candidates.size]);
  }
}
