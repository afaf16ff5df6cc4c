/**
 The array backed pointer map: parallel key and value arrays, growth, shifting removal and an
 iterator. Every method is proved against the insertion-ordered map it holds.
 */
module PPmaps {
  import opened Seqs
  import opened OrderedMap

  const DEFAULT_INITIAL: nat := 10
  const DEFAULT_GROW: nat := 10

  class PPmap<K(==), V(==)> {
    const nilKey: K         // the NULL pointers of the key and value types
    const nilVal: V
    const allowNullVal: bool
    var keys: array<K>
    var vals: array<V>
    var size: nat

    ghost predicate Valid()
      reads this, keys, vals
    {
      && keys as object != vals as object
      && keys.Length == vals.Length && size <= keys.Length
      && (forall i | size <= i < keys.Length :: keys[i] == nilKey && vals[i] == nilVal)
      && (forall i | 0 <= i < size :: keys[i] != nilKey && (allowNullVal || vals[i] != nilVal))
      && Unique(Pairs())
    }

    ghost function Pairs(): (m: Entries<K, V>)
      requires keys.Length == vals.Length && size <= keys.Length
      reads this, keys, vals
      ensures |m| == size
    {
      seq(size, i requires 0 <= i < size && size <= keys.Length && keys.Length == vals.Length
                reads this, keys, vals => (keys[i], vals[i]))
    }

    ghost function Contents(): Entries<K, V>
      requires Valid()
      reads this, keys, vals
    {
      Pairs()
    }

    twostate predicate Kept()
      reads this
    {
      (keys == old(keys) || fresh(keys)) && (vals == old(vals) || fresh(vals))
    }

    constructor (nilKey: K, nilVal: V, allowNullVal: bool, initial: nat)
      ensures Valid() && Contents() == [] && fresh(keys) && fresh(vals)
      ensures this.nilKey == nilKey && this.nilVal == nilVal && this.allowNullVal == allowNullVal
    {
      var capacity := if initial > 0 then initial else DEFAULT_INITIAL;
      this.nilKey, this.nilVal, this.allowNullVal := nilKey, nilVal, allowNullVal;
      keys := new K[capacity](_ => nilKey);
      vals := new V[capacity](_ => nilVal);
      size := 0;
    }

    method Grow()
      requires Valid()
      modifies this`keys, this`vals
      ensures Valid() && fresh(keys) && fresh(vals)
      ensures keys.Length == old(keys.Length) + DEFAULT_GROW
      ensures Contents() == old(Contents())
    {
      var moreKeys := new K[keys.Length + DEFAULT_GROW](_ => nilKey);
      var moreVals := new V[vals.Length + DEFAULT_GROW](_ => nilVal);
      forall i | 0 <= i < keys.Length {
        moreKeys[i] := keys[i];
      }
      forall i | 0 <= i < vals.Length {
        moreVals[i] := vals[i];
      }
      keys, vals := moreKeys, moreVals;
      assert Pairs() == old(Pairs());
    }

    /** The scan that every lookup makes. */
    method Scan(key: K) returns (i: nat)
      requires Valid()
      ensures i == IndexOf(Contents(), key)
    {
      i := 0;
      while i < size && keys[i] != key
        invariant i <= size
        invariant forall j | 0 <= j < i :: Contents()[j].0 != key
      {
        i := i + 1;
      }
      if i < size {
        EntryAt(Contents(), i);
        assert Contents()[i].0 == key;
      }
    }

    method GetVal(key: K) returns (val: V)
      requires Valid()
      ensures val == if Get(Contents(), key).Some? then Get(Contents(), key).value else nilVal
    {
      var i := Scan(key);
      val := if i < size then vals[i] else nilVal;
    }

    /** ppmap_first_key, by pointer equality of values. */
    method FirstKeyOf(val: V) returns (key: K)
      requires Valid()
      ensures key == if FirstKey(Contents(), val).Some? then FirstKey(Contents(), val).value else nilKey
    {
      assert Contents()[0..] == Contents();
      for i := 0 to size
        invariant FirstKey(Contents(), val) == FirstKey(Contents()[i..], val)
      {
        if vals[i] == val {
          return keys[i];
        }
        assert Contents()[i..][1..] == Contents()[i + 1..];
      }
      return nilKey;
    }

    /**
     put: the answer tells whether the key was there, and prior is its earlier value. NULL keys,
     and NULL values unless allowed, are refused.
     */
    method PutVal(key: K, val: V, overwrite: bool) returns (was: bool, prior: V)
      requires Valid()
      modifies this, keys, vals
      ensures Valid() && Kept()
      ensures var accepted := (allowNullVal || val != nilVal) && key != nilKey;
        && was == (Has(old(Contents()), key) && (allowNullVal || val != nilVal))
        && prior == (if was then Get(old(Contents()), key).value else nilVal)
        && Contents() ==
           (if accepted && (overwrite || !was) then Put(old(Contents()), key, val) else old(Contents()))
    {
      if val == nilVal && !allowNullVal {
        return false, nilVal;
      }
      var i := Scan(key);
      if i < size {
        prior := vals[i];
        if overwrite {
          Overwrite(i, val);
        }
        return true, prior;
      }
      if key == nilKey {
        return false, nilVal;
      }
      Append(key, val);
      return false, nilVal;
    }

    method Overwrite(i: nat, val: V)
      requires Valid() && i < size && (allowNullVal || val != nilVal)
      modifies vals
      ensures Valid() && Contents() == Put(old(Contents()), old(Contents())[i].0, val)
    {
      ghost var before := Contents();
      EntryAt(before, i);
      PutKeys(before, keys[i], val);
      vals[i] := val;
      assert Pairs() == Put(before, before[i].0, val);
    }

    method Append(key: K, val: V)
      requires Valid() && key != nilKey && (allowNullVal || val != nilVal) && !Has(Contents(), key)
      modifies this, keys, vals
      ensures Valid() && Kept() && Contents() == Put(old(Contents()), key, val)
    {
      ghost var before := Contents();
      PutKeys(before, key, val);
      if size >= keys.Length {
        Grow();
      }
      keys[size] := key;
      vals[size] := val;
      size := size + 1;
      assert Pairs() == before + [(key, val)];
    }

    /** remove_: closes the gap in both arrays. */
    method RemoveKey(key: K) returns (was: bool, removed: V)
      requires Valid()
      modifies this`size, keys, vals
      ensures Valid()
      ensures was == Has(old(Contents()), key)
      ensures removed == if was then Get(old(Contents()), key).value else nilVal
      ensures Contents() == Remove(old(Contents()), key)
    {
      ghost var before := Contents();
      var i := Scan(key);
      if i >= size {
        return false, nilVal;
      }
      RemoveFilters(before, key);
      removed := vals[i];
      CloseGap(i);
      assert Pairs() == RemoveAt(before, i);
      was := true;
    }

    /** The shift down over a removed entry, which also clears the last slot. */
    method CloseGap(i: nat)
      requires Valid() && i < size
      modifies this`size, keys, vals
      ensures size == old(size) - 1
      ensures forall k | 0 <= k < i :: keys[k] == old(keys[k]) && vals[k] == old(vals[k])
      ensures forall k | i <= k < size :: keys[k] == old(keys[k + 1]) && vals[k] == old(vals[k + 1])
      ensures forall k | size <= k < keys.Length :: keys[k] == nilKey && vals[k] == nilVal
    {
      keys[i] := nilKey;
      vals[i] := nilVal;
      size := size - 1;
      var m := i;
      while m < size
        invariant i <= m <= size == old(size) - 1
        invariant forall k | 0 <= k < i :: keys[k] == old(keys[k]) && vals[k] == old(vals[k])
        invariant forall k | i <= k < m :: keys[k] == old(keys[k + 1]) && vals[k] == old(vals[k + 1])
        invariant forall k | m < k <= size :: keys[k] == old(keys[k]) && vals[k] == old(vals[k])
        invariant forall k | size < k < keys.Length :: keys[k] == nilKey && vals[k] == nilVal
      {
        keys[m] := keys[m + 1];
        vals[m] := vals[m + 1];
        m := m + 1;
      }
      keys[m] := nilKey;
      vals[m] := nilVal;
    }

    lemma EntryOf(i: nat)
      requires Valid() && i < size
      ensures |Contents()| == size && Contents()[i] == (keys[i], vals[i])
      ensures Unique(Contents()) && keys[i] != nilKey && (allowNullVal || vals[i] != nilVal)
    {
    }

    /** put_all, counting the overwritten keys. */
    method PutEvery(from: PPmap<K, V>) returns (overwritten: nat)
      requires Valid() && from.Valid() && from != this
      requires {from.keys as object, from.vals} !! {keys as object, vals}
      requires nilKey == from.nilKey && nilVal == from.nilVal && allowNullVal == from.allowNullVal
      modifies this, keys, vals
      ensures Valid() && Kept()
      ensures Contents() == PutAll(old(Contents()), from.Contents())
      ensures overwritten == Shared(old(Contents()), from.Contents())
    {
      hide PutAll, Shared, Put, Get;
      ghost var before, given := Contents(), from.Contents();
      overwritten := 0;
      assert given[0..] == given;
      for i := 0 to from.size
        invariant Valid() && Kept() && from.Valid() && from.Contents() == given
        invariant PutAll(Contents(), given[i..]) == PutAll(before, given)
        invariant overwritten + Shared(Contents(), given[i..]) == Shared(before, given)
      {
        from.EntryOf(i);
        PutAllStep(Contents(), given, i);
        var was, _ := PutVal(from.keys[i], from.vals[i], true);
        overwritten := overwritten + if was then 1 else 0;
      }
      assert given[from.size..] == [];
      PutAllNone(Contents());
    }

    /** remove_in, counting the removed keys. */
    method RemoveEvery(from: PPmap<K, V>) returns (removed: nat)
      requires Valid() && from.Valid() && from != this
      requires {from.keys as object, from.vals} !! {keys as object, vals}
      modifies this`size, keys, vals
      ensures Valid()
      ensures Contents() == RemoveIn(old(Contents()), from.Contents())
      ensures removed == Shared(old(Contents()), from.Contents())
    {
      ghost var before, given := Contents(), from.Contents();
      removed := 0;
      for i := 0 to from.size
        invariant Valid() && from.Valid() && from.Contents() == given
        invariant RemoveIn(Contents(), given[i..]) == RemoveIn(before, given)
        invariant removed + Shared(Contents(), given[i..]) == Shared(before, given)
      {
        ghost var here := Contents();
        assert given[i..][0] == given[i] && given[i..][1..] == given[i + 1..];
        SharedAfterRemove(here, given, i);
        var was, _ := RemoveKey(from.keys[i]);
        removed := removed + if was then 1 else 0;
      }
      assert given[from.size..] == [];
    }

    /** ppmap_equal */
    method EqualTo(b: PPmap<K, V>, equalVal: (V, V) -> bool) returns (equal: bool)
      requires Valid() && b.Valid() && !allowNullVal && nilVal == b.nilVal
      requires forall v | v != nilVal || b.allowNullVal :: !equalVal(nilVal, v)
      ensures equal == Equal(Contents(), b.Contents(), equalVal)
    {
      if size != b.size {
        return false;
      }
      for i := 0 to b.size
        invariant forall j | 0 <= j < i ::
          var a := Get(Contents(), b.Contents()[j].0);
          a.Some? && equalVal(a.value, b.Contents()[j].1)
      {
        var a := GetVal(b.keys[i]);
        assert b.Contents()[i] == (b.keys[i], b.vals[i]);
        if !equalVal(a, b.vals[i]) {
          return false;
        }
      }
      return true;
    }
  }

  /** One turn of put_all. */
  lemma PutAllStep<K, V>(m: Entries<K, V>, given: Entries<K, V>, i: nat)
    requires Unique(given) && i < |given|
    ensures var (k, v) := given[i];
      && PutAll(Put(m, k, v), given[i + 1..]) == PutAll(m, given[i..])
      && (if Has(m, k) then 1 else 0) + Shared(Put(m, k, v), given[i + 1..]) == Shared(m, given[i..])
  {
    assert given[i..][0] == given[i] && given[i..][1..] == given[i + 1..];
    SharedAfterPut(m, given, i);
  }

  lemma PutAllNone<K, V>(m: Entries<K, V>)
    ensures PutAll(m, []) == m && Shared<K, V, V>(m, []) == 0
  {
  }

  lemma SharedAfterPut<K, V>(m: Entries<K, V>, given: Entries<K, V>, i: nat)
    requires Unique(given) && i < |given|
    ensures Shared(Put(m, given[i].0, given[i].1), given[i + 1..]) == Shared(m, given[i + 1..])
  {
    PutKeys(m, given[i].0, given[i].1);
    assert forall j | i < j < |given| :: Keys(given)[j] != Keys(given)[i];
    SharedSame(Put(m, given[i].0, given[i].1), m, given[i + 1..]);
  }

  lemma SharedAfterRemove<K, V>(m: Entries<K, V>, given: Entries<K, V>, i: nat)
    requires Unique(m) && Unique(given) && i < |given|
    ensures Shared(Remove(m, given[i].0), given[i + 1..]) == Shared(m, given[i + 1..])
  {
    var k, rest := given[i].0, given[i + 1..];
    assert forall j | i < j < |given| :: Keys(given)[j] != Keys(given)[i];
    forall q | q in Keys(rest) ensures Has(Remove(m, k), q) == Has(m, q) {
      RemoveGet(m, k, q);
    }
    SharedSame(Remove(m, k), m, rest);
  }

  /** An iterator, attached to a position of the map once it has been moved. */
  class PPmapIt<K(==), V(==)> {
    const src: PPmap<K, V>
    const pass: ((K, V)) -> bool
    var key: K
    var val: V
    var position: nat
    var attached: bool

    constructor (src: PPmap<K, V>, pass: ((K, V)) -> bool)
      ensures this.src == src && this.pass == pass && NextStart() == 0
    {
      this.src, this.pass := src, pass;
      key, val, position, attached := src.nilKey, src.nilVal, 0, false;
    }

    function NextStart(): nat
      reads this
    {
      if attached then position + 1 else 0
    }

    /** ppmap_it_next */
    method Next() returns (more: bool)
      requires src.Valid() && NextStart() <= src.size
      modifies this
      ensures attached && position == NextAt(src.Contents(), old(NextStart()), pass)
      ensures more == (position < src.size) && (more ==> (key, val) == src.Contents()[position])
    {
      ghost var c, start := src.Contents(), NextStart();
      position := if attached then position + 1 else 0;
      attached := true;
      while position < src.size
        invariant position <= |c| && attached && c == src.Contents()
        invariant NextAt(c, position, pass) == NextAt(c, start, pass)
      {
        key, val := src.keys[position], src.vals[position];
        assert c[position] == (key, val);
        if pass((key, val)) {
          return true;
        }
        position := position + 1;
      }
      return false;
    }

    /** it_remove, by key: the next step begins where the removed entry was. */
    method Remove() returns (removed: V)
      requires src.Valid() && attached && position < src.size && key == src.Contents()[position].0
      modifies this, src`size, src.keys, src.vals
      ensures src.Valid() && NextStart() == old(position)
      ensures removed == old(src.Contents())[old(position)].1
      ensures src.Contents() == RemoveAt(old(src.Contents()), old(position))
    {
      EntryAt(src.Contents(), position);
      var was, v := src.RemoveKey(key);
      removed := v;
      if position > 0 {
        position := position - 1;
      } else {
        attached := false;
      }
      key, val := src.nilKey, src.nilVal;
    }

    /** The rest of a loop turn: maybe remove the visited entry, then step forward. */
    method TurnOver(remove: bool) returns (more: bool)
      requires src.Valid() && attached && position < src.size && key == src.Contents()[position].0
      modifies this, src`size, src.keys, src.vals
      ensures src.Valid() && attached
      ensures src.Contents() == if remove then RemoveAt(old(src.Contents()), old(position)) else old(src.Contents())
      ensures position == NextAt(src.Contents(), if remove then old(position) else old(position) + 1, pass)
      ensures more == (position < src.size) && (more ==> (key, val) == src.Contents()[position])
    {
      if remove {
        var _ := Remove();
      }
      more := Next();
    }
  }

  /**
   A traversal that removes any of the entries it visits: every entry that satisfies pass is
   visited once, in order, and exactly the removed ones are missing at the end.
   */
  method Traverse<K, V>(src: PPmap<K, V>, pass: ((K, V)) -> bool, drop: nat -> bool)
    returns (visited: Entries<K, V>)
    requires src.Valid()
    modifies src`size, src.keys, src.vals
    ensures src.Valid()
    ensures visited == Filter(old(src.Contents()), pass)
    ensures src.Contents() == Kept(old(src.Contents()), pass, drop, 0)
  {
    hide Midway, Filter, Kept, NextAt;
    ghost var before := src.Contents();
    ghost var contents := before;
    visited := [];
    var it := new PPmapIt(src, pass);
    MidwayStart(before, pass, drop);
    var more := it.Next();
    while more
      invariant src.Valid() && src.Contents() == contents && it.src == src && it.pass == pass
      invariant it.attached && it.position <= |contents|
      invariant Midway(before, contents, pass, drop, visited, it.position)
      invariant more == (it.position < |contents|)
      invariant more ==> pass(contents[it.position]) && (it.key, it.val) == contents[it.position]
      decreases |contents| - it.position
    {
      ghost var was, at := contents, it.position;
      var entry := (it.key, it.val);
      more := it.TurnOver(drop(|visited|));
      contents := src.Contents();
      MidwayStep(before, was, contents, pass, drop, visited, at);
      visited := visited + [entry];
    }
    MidwayEnd(before, contents, pass, drop, visited);
  }
}
