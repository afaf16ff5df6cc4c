/** The array backed pointer set, proved against the insertion-ordered set it holds. */
module Psets {
  import opened Seqs
  import OrderedSet

  const DEFAULT_INITIAL: nat := 10
  const DEFAULT_GROW: nat := 10

  class Pset<T(==)> {
    const nil: T                // the NULL pointer of the element type
    const equal: (T, T) -> bool // equal_val, or pointer equality
    var vals: array<T>
    var size: nat

    ghost predicate Valid()
      reads this, vals
    {
      && size <= vals.Length
      && (forall i | size <= i < vals.Length :: vals[i] == nil)
      && nil !in vals[..size]
      && OrderedSet.NoTwins(vals[..size], equal)
    }

    ghost function Contents(): seq<T>
      requires Valid()
      reads this, vals
    {
      vals[..size]
    }

    constructor (nil: T, equal: (T, T) -> bool, initial: nat)
      ensures Valid() && Contents() == [] && fresh(vals) && this.nil == nil && this.equal == equal
    {
      this.nil, this.equal := nil, equal;
      vals := new T[if initial > 0 then initial else DEFAULT_INITIAL](_ => nil);
      size := 0;
    }

    method Scan(val: T) returns (i: nat)
      requires Valid()
      ensures i == OrderedSet.IndexOf(Contents(), val, equal)
    {
      i := 0;
      while i < size && !equal(vals[i], val)
        invariant i <= size
        invariant forall j | 0 <= j < i :: !equal(Contents()[j], val)
      {
        i := i + 1;
      }
    }

    method Contains(val: T) returns (found: bool)
      requires Valid()
      ensures found == (val != nil && OrderedSet.Has(Contents(), val, equal))
    {
      if val == nil {
        return false;
      }
      var i := Scan(val);
      found := i < size;
    }

    method Grow()
      requires Valid()
      modifies this`vals
      ensures Valid() && fresh(vals) && vals.Length == old(vals.Length) + DEFAULT_GROW
      ensures Contents() == old(Contents())
    {
      var more := new T[vals.Length + DEFAULT_GROW](_ => nil);
      forall i | 0 <= i < vals.Length {
        more[i] := vals[i];
      }
      assert more[..size] == vals[..size];
      vals := more;
    }

    /** add: NULL and an element that has an equal are refused. */
    method AddVal(val: T) returns (added: bool)
      requires Valid()
      modifies this, vals
      ensures Valid() && (vals == old(vals) || fresh(vals))
      ensures added == (val != nil && !OrderedSet.Has(old(Contents()), val, equal))
      ensures Contents() == if val == nil then old(Contents()) else OrderedSet.Add(old(Contents()), val, equal)
    {
      ghost var before := Contents();
      var there := Contains(val);
      if val == nil || there {
        return false;
      }
      if size >= vals.Length {
        Grow();
      }
      vals[size] := val;
      size := size + 1;
      assert vals[..size] == before + [val];
      return true;
    }

    /** remove: shifts the later elements down over the removed one. */
    method RemoveVal(val: T) returns (removed: T)
      requires Valid()
      modifies this`size, vals
      ensures Valid()
      ensures Contents() == if val == nil then old(Contents()) else OrderedSet.Remove(old(Contents()), val, equal)
      ensures removed ==
        if val != nil && OrderedSet.Has(old(Contents()), val, equal)
        then old(Contents())[OrderedSet.IndexOf(old(Contents()), val, equal)] else nil
    {
      if val == nil {
        return nil;
      }
      var i := Scan(val);
      if i >= size {
        return nil;
      }
      OrderedSet.RemoveKeepsNoTwins(Contents(), i, equal);
      removed := vals[i];
      ghost var before := Contents();
      CloseGap(i);
      assert vals[..size] == RemoveAt(before, i);
    }

    /** The shift down over a removed element, which also clears the last slot. */
    method CloseGap(i: nat)
      requires size <= vals.Length && i < size
      requires forall k | size <= k < vals.Length :: vals[k] == nil
      modifies this`size, vals
      ensures size == old(size) - 1
      ensures forall k | 0 <= k < i :: vals[k] == old(vals[k])
      ensures forall k | i <= k < size :: vals[k] == old(vals[k + 1])
      ensures forall k | size <= k < vals.Length :: vals[k] == nil
    {
      vals[i] := nil;
      size := size - 1;
      var m := i;
      while m < size
        invariant i <= m <= size == old(size) - 1
        invariant forall k | 0 <= k < i :: vals[k] == old(vals[k])
        invariant forall k | i <= k < m :: vals[k] == old(vals[k + 1])
        invariant forall k | m < k <= size :: vals[k] == old(vals[k])
        invariant forall k | size < k < vals.Length :: vals[k] == nil
      {
        vals[m] := vals[m + 1];
        m := m + 1;
      }
      vals[m] := nil;
    }

    /** pset_equal */
    method EqualTo(b: Pset<T>) returns (same: bool)
      requires Valid() && b.Valid() && nil == b.nil
      ensures same == OrderedSet.Equal(Contents(), b.Contents(), equal)
    {
      if size != b.size {
        return false;
      }
      for i := 0 to b.size
        invariant forall j | 0 <= j < i :: OrderedSet.Has(Contents(), b.Contents()[j], equal)
      {
        assert b.Contents()[i] == b.vals[i];
        var found := Contains(b.vals[i]);
        if !found {
          return false;
        }
      }
      return true;
    }
  }
}
