/**
 The array backed pointer list: in-place shifting, growth, an iterator that survives removal, and
 the sort. Every method is proved against the sequence the list holds.
 */
module Plists {
  import opened Seqs
  import ShellSort

  const DEFAULT_INITIAL: nat := 10
  const DEFAULT_GROW: nat := 10

  class Plist<T(==)> {
    const nil: T               // the NULL pointer of the element type
    const allowNull: bool
    const equal: (T, T) -> bool // equal_val, or pointer equality
    var vals: array<T>
    var size: nat

    ghost predicate Valid()
      reads this, vals
    {
      && size <= vals.Length
      && (forall i | size <= i < vals.Length :: vals[i] == nil)
      && (!allowNull ==> nil !in vals[..size])
    }

    ghost function Contents(): seq<T>
      requires Valid()
      reads this, vals
    {
      vals[..size]
    }

    /** What no operation changes, and where the storage may move to. */
    twostate predicate Kept()
      reads this
    {
      vals == old(vals) || fresh(vals)
    }

    constructor (nil: T, allowNull: bool, equal: (T, T) -> bool, initial: nat)
      ensures Valid() && Contents() == [] && fresh(vals)
      ensures this.nil == nil && this.allowNull == allowNull && this.equal == equal
    {
      this.nil, this.allowNull, this.equal := nil, allowNull, equal;
      vals := new T[if initial > 0 then initial else DEFAULT_INITIAL](_ => nil);
      size := 0;
    }

    method Grow()
      requires Valid()
      modifies this`vals
      ensures Valid() && fresh(vals) && size == old(size)
      ensures vals.Length == old(vals.Length) + DEFAULT_GROW
      ensures Contents() == old(Contents())
    {
      var from := vals;
      var more := new T[from.Length + DEFAULT_GROW](_ => nil);
      forall i | 0 <= i < from.Length {
        more[i] := from[i];
      }
      assert more[..size] == from[..size];
      vals := more;
    }

    /** insert: an index past the end appends, and NULL is refused unless allowed. */
    method Insert(index: nat, val: T) returns (inserted: bool)
      requires Valid()
      modifies this, vals
      ensures Valid() && Kept()
      ensures inserted <==> val != nil || allowNull
      ensures !inserted ==> Contents() == old(Contents())
      ensures inserted ==>
        var at := if index > old(size) then old(size) else index;
        Contents() == old(Contents())[..at] + [val] + old(Contents())[at..]
    {
      if val == nil && !allowNull {
        return false;
      }
      ghost var before := Contents();
      var at := if index > size then size else index;
      if size >= vals.Length {
        Grow();
      }
      var i := size;
      while i > at
        invariant at <= i <= size < vals.Length
        invariant vals == old(vals) || fresh(vals)
        invariant size == old(size) && before == old(Contents())
        invariant forall k | 0 <= k < i :: vals[k] == before[k]
        invariant forall k | i < k <= size :: vals[k] == before[k - 1]
        invariant forall k | size < k < vals.Length :: vals[k] == nil
      {
        vals[i] := vals[i - 1];
        i := i - 1;
      }
      size := size + 1;
      vals[at] := val;
      assert vals[..size] == before[..at] + [val] + before[at..];
      return true;
    }

    method Append(val: T) returns (appended: bool)
      requires Valid()
      modifies this, vals
      ensures Valid() && Kept()
      ensures appended <==> val != nil || allowNull
      ensures Contents() == old(Contents()) + (if appended then [val] else [])
    {
      ghost var before := Contents();
      appended := Insert(size, val);
      assert before[..|before|] == before && before[|before|..] == [];
    }

    /** remove_at: shifts the later elements down over the removed one and clears the last slot. */
    method RemoveAt(i: nat) returns (removed: T)
      requires Valid()
      modifies this`size, vals
      ensures Valid()
      ensures i >= old(size) ==> removed == nil && Contents() == old(Contents())
      ensures i < old(size) ==>
        removed == old(Contents())[i] && Contents() == Seqs.RemoveAt(old(Contents()), i)
    {
      if i >= size {
        return nil;
      }
      ghost var before := Contents();
      removed := vals[i];
      vals[i] := nil;
      size := size - 1;
      var m := i;
      while m < size
        invariant i <= m <= size < vals.Length
        invariant size == |before| - 1 && before == old(Contents())
        invariant forall k | 0 <= k < i :: vals[k] == before[k]
        invariant forall k | i <= k < m :: vals[k] == before[k + 1]
        invariant forall k | m < k <= size :: vals[k] == before[k]
        invariant forall k | size < k < vals.Length :: vals[k] == nil
      {
        vals[m] := vals[m + 1];
        m := m + 1;
      }
      vals[m] := nil;
      assert vals[..size] == Seqs.RemoveAt(before, i);
    }

    /** The elements plist_index_of accepts for val. */
    predicate Matches(x: T, val: T) {
      (val != nil || allowNull) && equal(x, val)
    }

    /** plist_find */
    method Find(pass: T -> bool) returns (found: Option<T>)
      requires Valid()
      ensures found == FirstThat(Contents(), pass)
    {
      for i := 0 to size
        invariant NextAt(Contents(), i, pass) == NextAt(Contents(), 0, pass)
      {
        if pass(vals[i]) {
          return Some(vals[i]);
        }
      }
      return None;
    }

    /** The elements that plist_index_of finds for none of the given values. */
    ghost function Unmatched(given: seq<T>): T -> bool {
      x => forall v | v in given :: !Matches(x, v)
    }

    method IndexOf(val: T) returns (found: bool, index: nat)
      requires Valid()
      ensures found <==> exists x | x in Contents() :: Matches(x, val)
      ensures found ==> index < size && Matches(Contents()[index], val)
      ensures found ==> forall k | 0 <= k < index :: !Matches(Contents()[k], val)
    {
      if val == nil && !allowNull {
        return false, 0;
      }
      for i := 0 to size
        invariant forall k | 0 <= k < i :: !Matches(Contents()[k], val)
      {
        if equal(vals[i], val) {
          assert Contents()[i] in Contents();
          return true, i;
        }
      }
      return false, 0;
    }

    /** remove_in: removes every occurrence of every value of the other list, and counts them. */
    method RemoveIn(from: Plist<T>) returns (removed: nat)
      requires Valid() && from.Valid() && from != this && from.vals != vals
      modifies this`size, vals
      ensures Valid()
      ensures Contents() == Filter(old(Contents()), Unmatched(from.Contents()))
      ensures removed == |old(Contents())| - |Contents()|
    {
      removed := 0;
      ghost var before, given := Contents(), from.Contents();
      FilterAll(before, Unmatched(given[..0]));
      for j := 0 to from.size
        invariant Valid() && from.Valid() && from.Contents() == given
        invariant Contents() == Filter(before, Unmatched(given[..j]))
        invariant removed == |before| - |Contents()|
      {
        var n := RemoveEvery(from.vals[j]);
        removed := removed + n;
        assert given[j] == from.vals[j] && given[..j + 1] == given[..j] + [given[j]];
        FilterUnmatched(before, given[..j], given[j]);
      }
      assert given[..from.size] == given;
    }

    lemma FilterUnmatched(s: seq<T>, given: seq<T>, val: T)
      ensures Filter(Filter(s, Unmatched(given)), Unmatched([val])) == Filter(s, Unmatched(given + [val]))
    {
      FilterTwice(s, Unmatched(given), Unmatched([val]));
      FilterSame(s, Both(Unmatched(given), Unmatched([val])), Unmatched(given + [val]));
    }

    method RemoveEvery(val: T) returns (removed: nat)
      requires Valid()
      modifies this`size, vals
      ensures Valid()
      ensures Contents() == Filter(old(Contents()), Unmatched([val]))
      ensures removed == |old(Contents())| - |Contents()|
    {
      removed := 0;
      ghost var before := Contents();
      var found, i: nat := IndexOf(val);
      while found
        invariant Valid() && removed == |before| - size
        invariant Filter(Contents(), Unmatched([val])) == Filter(before, Unmatched([val]))
        invariant found <==> exists x | x in Contents() :: Matches(x, val)
        invariant found ==> i < size && Matches(Contents()[i], val)
        decreases size
      {
        removed := removed + 1;
        FilterWithout(Contents(), i, Unmatched([val]));
        var _ := RemoveAt(i);
        found, i := IndexOf(val);
      }
      FilterAll(Contents(), Unmatched([val]));
    }

    /** plist_sort, in place; less holds its temporary in hand while the gap neighbours shift. */
    method Sort(less: (T, T) -> bool)
      requires Valid()
      modifies vals
      ensures Valid() && Contents() == ShellSort.Sort(old(Contents()), less)
    {
      ghost var before := Contents();
      for g := 0 to |ShellSort.GAPS|
        invariant Valid()
        invariant ShellSort.Passes(Contents(), less, ShellSort.GAPS[g..]) == ShellSort.Sort(before, less)
      {
        var gap := ShellSort.GAPS[g];
        SortPass(less, gap);
      }
    }

    method SortPass(less: (T, T) -> bool, gap: ShellSort.Gap)
      requires Valid()
      modifies vals
      ensures Valid() && Contents() == ShellSort.Pass(old(Contents()), less, gap, gap)
    {
      ghost var want := ShellSort.Pass(Contents(), less, gap, gap);
      var i := gap;
      while i < size
        invariant Valid() && gap <= i
        invariant ShellSort.Pass(Contents(), less, gap, i) == want
      {
        SiftAt(less, gap, i);
        i := i + 1;
      }
    }

    method SiftAt(less: (T, T) -> bool, gap: ShellSort.Gap, i: nat)
      requires Valid() && i < size
      modifies vals
      ensures Valid() && Contents() == ShellSort.Sift(old(Contents()), less, gap, i)
    {
      ghost var before := Contents();
      var tmp := vals[i];
      var j := i;
      assert before[i := tmp] == before;
      while j >= gap && less(tmp, vals[j - gap])
        invariant 0 <= j <= i < size
        invariant forall k | size <= k < vals.Length :: vals[k] == nil
        invariant ShellSort.Sift(vals[..size][j := tmp], less, gap, j) == ShellSort.Sift(before, less, gap, i)
      {
        ghost var held := vals[..size][j := tmp];
        vals[j] := vals[j - gap];
        assert vals[..size][j - gap := tmp] == held[j := held[j - gap]][j - gap := held[j]];
        j := j - gap;
      }
      vals[j] := tmp;
      ShellSort.SiftMember(before, less, gap, i, nil);
      assert vals[..size] == ShellSort.Sift(before, less, gap, i);
    }

    /** free_vals: the sequence of pointers handed to the free function. */
    method FreeVals() returns (freed: seq<T>)
      requires Valid()
      ensures Distinct(freed)
      ensures forall x :: x in freed <==> x in Contents() && x != nil
    {
      freed := [];
      for i := 0 to size
        invariant Distinct(freed)
        invariant forall x :: x in freed <==> x in Contents()[..i] && x != nil
      {
        var v := vals[i];
        assert Contents()[..i + 1] == Contents()[..i] + [v];
        if v == nil {
          continue;
        }
        var already := false;
        for f := 0 to |freed|
          invariant already <==> v in freed[..f]
        {
          if freed[f] == v {
            already := true;
            break;
          }
        }
        if !already {
          freed := freed + [v];
        }
      }
      assert Contents()[..size] == Contents();
    }
  }

  /** An iterator, attached to a position of the list once it has been moved. */
  class PlistIt<T(==)> {
    const list: Plist<T>
    const pass: T -> bool
    var val: T
    var position: nat
    var attached: bool
    var wasNext: bool

    constructor (list: Plist<T>, pass: T -> bool)
      ensures this.list == list && this.pass == pass && NextStart() == 0
    {
      this.list, this.pass := list, pass;
      val, position, attached, wasNext := list.nil, 0, false, false;
    }

    /** Where the next step forward begins. */
    function NextStart(): nat
      reads this
    {
      if attached then position + 1 else 0
    }

    /** plist_it_next */
    method Next() returns (more: bool)
      requires list.Valid() && NextStart() <= list.size
      modifies this
      ensures attached && wasNext && position == NextAt(list.Contents(), old(NextStart()), pass)
      ensures more == (position < list.size) && (more ==> val == list.Contents()[position])
    {
      ghost var c, start := list.Contents(), NextStart();
      position := if attached then position + 1 else 0;
      attached, wasNext := true, true;
      while position < list.size
        invariant position <= |c| && attached && wasNext && c == list.Contents()
        invariant NextAt(c, position, pass) == NextAt(c, start, pass)
      {
        val := list.vals[position];
        if pass(val) {
          return true;
        }
        position := position + 1;
      }
      return false;
    }

    /** it_remove after a step forward: the next step begins where the removed element was. */
    method Remove() returns (removed: T)
      requires list.Valid() && attached && wasNext && position < list.size
      modifies this, list`size, list.vals
      ensures list.Valid() && NextStart() == old(position)
      ensures removed == old(list.Contents())[old(position)]
      ensures list.Contents() == RemoveAt(old(list.Contents()), old(position))
    {
      removed := list.RemoveAt(position);
      val := list.nil;
      if position > 0 {
        position := position - 1;
      } else {
        attached := false;
      }
    }

    /** The rest of a loop turn: maybe remove the visited element, then step forward. */
    method TurnOver(remove: bool) returns (more: bool)
      requires list.Valid() && attached && wasNext && position < list.size
      modifies this, list`size, list.vals
      ensures list.Valid() && attached && wasNext
      ensures list.Contents() == if remove then RemoveAt(old(list.Contents()), old(position)) else old(list.Contents())
      ensures position == NextAt(list.Contents(), if remove then old(position) else old(position) + 1, pass)
      ensures more == (position < list.size) && (more ==> val == list.Contents()[position])
    {
      if remove {
        var _ := Remove();
      }
      more := Next();
    }
  }

  /**
   A forward traversal that removes any of the elements it visits: every element that satisfies
   pass is visited once, in order, and exactly the removed ones are missing at the end.
   */
  method Traverse<T>(list: Plist<T>, pass: T -> bool, drop: nat -> bool) returns (visited: seq<T>)
    requires list.Valid()
    modifies list`size, list.vals
    ensures list.Valid()
    ensures visited == Filter(old(list.Contents()), pass)
    ensures list.Contents() == Kept(old(list.Contents()), pass, drop, 0)
  {
    hide Midway, Filter, Kept, NextAt;
    ghost var before := list.Contents();
    ghost var contents := before;
    visited := [];
    var it := new PlistIt(list, pass);
    MidwayStart(before, pass, drop);
    var more := it.Next();
    while more
      invariant list.Valid() && list.Contents() == contents && it.list == list && it.pass == pass
      invariant it.attached && it.wasNext && it.position <= |contents|
      invariant Midway(before, contents, pass, drop, visited, it.position)
      invariant more == (it.position < |contents|)
      invariant more ==> pass(contents[it.position]) && it.val == contents[it.position]
      decreases |contents| - it.position
    {
      ghost var was, at := contents, it.position;
      var val := it.val;
      more := it.TurnOver(drop(|visited|));
      contents := list.Contents();
      MidwayStep(before, was, contents, pass, drop, visited, at);
      visited := visited + [val];
    }
    MidwayEnd(before, contents, pass, drop, visited);
  }

  lemma FilterWithout<T>(s: seq<T>, i: nat, pass: T -> bool)
    requires i < |s| && !pass(s[i])
    ensures Filter(RemoveAt(s, i), pass) == Filter(s, pass)
  {
    assert s == s[..i] + ([s[i]] + s[i + 1..]);
    FilterConcat(s[..i], [s[i]] + s[i + 1..], pass);
    FilterCons(s[i], s[i + 1..], pass);
    FilterConcat(s[..i], s[i + 1..], pass);
  }
}
