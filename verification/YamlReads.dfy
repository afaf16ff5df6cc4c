/** What is read from trees and scalars that the program did not write itself. */
module YamlReads {
  import opened Seqs
  import opened OrderedMap
  import opened Names
  import opened Modes
  import opened Config
  import opened YamlText
  import opened Yaml
  import E = YamlElements
  import OrderedSet
  import Layout
  import Scale

  // -------- scalars --------

  /** A boolean is read as on or off in three spellings, whatever the case. */
  lemma OnOffValIs(s: string)
    ensures OnOffVal(s) == Some(On) <==> exists t | t in {"ON", "TRUE", "YES"} :: SameNoCase(t, s)
    ensures OnOffVal(s) == Some(Off) <==> exists t | t in {"OFF", "FALSE", "NO"} :: SameNoCase(t, s)
  {
    hide SameNoCase;
    Spelled(s);
  }

  lemma Spelled(s: string)
    ensures SameNoCase("ON", s) || SameNoCase("TRUE", s) || SameNoCase("YES", s) ==>
      !SameNoCase("OFF", s) && !SameNoCase("FALSE", s) && !SameNoCase("NO", s)
  {
    Differing("ON", "NO", s, 0);
    Differing("YES", "OFF", s, 0);
  }

  lemma Differing(a: string, b: string, s: string, i: nat)
    ensures i < |a| && i < |b| && Lower(a[i]) != Lower(b[i]) ==> !(SameNoCase(a, s) && SameNoCase(b, s))
  {
  }

  /** Any beginning of the name of an alignment is enough. */
  lemma AlignBeginning(a: Layout.Align, n: nat)
    requires 0 < n <= |AlignName(a)|
    ensures AlignVal(AlignName(a)[..n]) == Some(a)
  {
    var s := AlignName(a)[..n];
    assert s[0] == AlignName(a)[0];
    StartsItself(AlignName(a), n);
    DifferAt("TOP", s, 0);
    DifferAt("MIDDLE", s, 0);
    DifferAt("BOTTOM", s, 0);
    DifferAt("LEFT", s, 0);
  }

  lemma ArrangeBeginning(a: Layout.Arrange, n: nat)
    requires 0 < n <= |ArrangeName(a)|
    ensures ArrangeVal(ArrangeName(a)[..n]) == Some(a)
  {
    var s := ArrangeName(a)[..n];
    assert s[0] == ArrangeName(a)[0];
    StartsItself(ArrangeName(a), n);
    DifferAt("ROW", s, 0);
  }

  lemma StartsItself(full: string, n: nat)
    requires 0 < n <= |full|
    ensures Starts(full, full[..n])
  {
  }

  /** SCALE_ROUND_TO is read as a base exactly when its reciprocal is that base and less than one more. */
  lemma RoundToValIff(x: real, b: Scale.Base)
    ensures RoundToVal(x) == Some(b) <==> x > 0.0 && b as real * x <= 1.0 < (b + 1) as real * x
  {
    if x > 0.0 {
      var r := 1.0 / x;
      assert r * x == 1.0;
      Reciprocal(x, r, b as real);
      Reciprocal(x, r, (b + 1) as real);
    } else if x < 0.0 {
      NegativeReciprocal(x, 1.0 / x);
    }
  }

  lemma Reciprocal(x: real, r: real, n: real)
    requires x > 0.0 && r * x == 1.0
    ensures n * x <= 1.0 <==> n <= r
    ensures r > 0.0
  {
    assert (r - n) * x == 1.0 - n * x;
  }

  lemma NegativeReciprocal(x: real, r: real)
    requires x < 0.0 && r * x == 1.0
    ensures r < 0.0
  {
  }

  // -------- names and conditions --------

  /** The name is an item of the sequence, and compiles if it is a regular expression. */
  ghost predicate Lists(k: Codec, n: Node, name: string) {
    n.Sequence? && Scalar(name) in n.items
    && (|name| >= 2 && name[0] == '!' ==> k.rx.compiles(name[1..]))
  }

  lemma {:induction false} AddItemsMember(k: Codec, to: seq<string>, items: seq<Node>, name: string)
    requires Distinct(to)
    ensures name in AddItems(k, to, items) <==> name in to || Lists(k, Sequence(items), name)
    decreases |items|
  {
    if items != [] {
      var next := AddName(k, to, items[0]);
      assert items == [items[0]] + items[1..];
      if items[0].Scalar? {
        HasName(to, items[0].text);
      }
      AddItemsMember(k, next, items[1..], name);
    }
  }

  /** Main result: exactly the names that are listed and compile are read. */
  lemma NamesRead(k: Codec, n: Node, name: string)
    ensures name in ReadNames(k, [], n) <==> Lists(k, n, name)
  {
    if n.Sequence? {
      AddItemsMember(k, [], n.items, name);
    }
  }

  ghost predicate ListsUnder(k: Codec, m: Entries<string, Node>, key: string, name: string) {
    Has(m, key) && Lists(k, Get(m, key).value, name)
  }

  /** The lid state that a condition asks for, when it is well formed. */
  predicate LidIs(m: Entries<string, Node>, l: Option<LidCondition>) {
    if !Has(m, "LID") then l.None?
    else
      l.Some? && var n := Get(m, "LID").value;
      n.Scalar? && SameNoCase(match l.value case Open => "OPEN" case Closed => "CLOSED" case NotPresent => "NOT_PRESENT", n.text)
  }

  lemma LidValIs(s: string, l: LidCondition)
    ensures LidVal(s) == Some(l) <==>
      SameNoCase(match l case Open => "OPEN" case Closed => "CLOSED" case NotPresent => "NOT_PRESENT", s)
  {
    Differing("OPEN", "CLOSED", s, 0);
    Differing("OPEN", "NOT_PRESENT", s, 0);
    Differing("CLOSED", "NOT_PRESENT", s, 0);
  }

  /**
   Main result: what a condition is read as: the names under PLUGGED and UNPLUGGED, and the state under LID. It is
   refused when LID is not a state, or when it has no content at all.
   */
  lemma ConditionRead(k: Codec, n: Node)
    requires n.Mapping?
    ensures var (m, read) := (ToMap(n.pairs), ReadCondition(k, n));
      && (read.None? <==>
            || (forall l :: !LidIs(m, l))
            || (!Has(m, "LID") && forall name :: !ListsUnder(k, m, "PLUGGED", name) && !ListsUnder(k, m, "UNPLUGGED", name)))
      && (read.Some? ==>
            && LidIs(m, read.value.lid)
            && forall name ::
                 && (name in read.value.plugged <==> ListsUnder(k, m, "PLUGGED", name))
                 && (name in read.value.unplugged <==> ListsUnder(k, m, "UNPLUGGED", name)))
  {
    hide ReadNames, Lists, SameNoCase, LidVal;
    var m := ToMap(n.pairs);
    var plugged := if Has(m, "PLUGGED") then ReadNames(k, [], Get(m, "PLUGGED").value) else [];
    var unplugged := if Has(m, "UNPLUGGED") then ReadNames(k, [], Get(m, "UNPLUGGED").value) else [];
    forall name ensures (name in plugged <==> ListsUnder(k, m, "PLUGGED", name))
      && (name in unplugged <==> ListsUnder(k, m, "UNPLUGGED", name))
    {
      if Has(m, "PLUGGED") {
        NamesRead(k, Get(m, "PLUGGED").value, name);
      }
      if Has(m, "UNPLUGGED") {
        NamesRead(k, Get(m, "UNPLUGGED").value, name);
      }
    }
    assert plugged != [] ==> plugged[0] in plugged;
    assert unplugged != [] ==> unplugged[0] in unplugged;
    LidRead(m);
  }

  lemma LidRead(m: Entries<string, Node>)
    ensures var l := if Has(m, "LID") then ReadEnum(Get(m, "LID").value, LidVal) else None;
      && (!Has(m, "LID") || l.Some? ==> LidIs(m, l))
      && (Has(m, "LID") && l.None? ==> forall other :: !LidIs(m, other))
  {
    hide LidVal, SameNoCase;
    if Has(m, "LID") && Get(m, "LID").value.Scalar? {
      LidValIs(Get(m, "LID").value.text, Open);
      LidValIs(Get(m, "LID").value.text, Closed);
      LidValIs(Get(m, "LID").value.text, NotPresent);
    }
  }

  // -------- MODE --------

  /** A length that may be absent. */
  predicate LengthIs(k: Codec, m: Entries<string, Node>, key: string, v: int) {
    if !Has(m, key) then v == -1
    else var n := Get(m, key).value; n.Scalar? && k.readInt(n.text) == Some(v)
  }

  /** A refresh in Hz that may be absent, read in mHz. */
  predicate RefreshIs(k: Codec, m: Entries<string, Node>, v: int) {
    if !Has(m, "HZ") then v == -1
    else
      var n := Get(m, "HZ").value;
      n.Scalar? && k.readReal(n.text).Some? && v == Scale.Round(k.readReal(n.text).value * 1000.0)
  }

  /** A flag is on or off in one of three spellings, and off when it is absent. */
  ghost predicate FlagIs(m: Entries<string, Node>, key: string, v: bool) {
    if !Has(m, key) then !v
    else
      var n := Get(m, key).value;
      n.Scalar? && exists t | t in (if v then {"ON", "TRUE", "YES"} else {"OFF", "FALSE", "NO"}) :: SameNoCase(t, n.text)
  }

  lemma FlagRead(m: Entries<string, Node>, key: string, v: bool)
    ensures Field(m, key, ReadBool, false) == Some(v) <==> FlagIs(m, key, v)
  {
    hide SameNoCase, OnOffVal;
    if Has(m, key) && Get(m, key).value.Scalar? {
      OnOffValIs(Get(m, key).value.text);
    }
  }

  lemma FieldsRead(k: Codec, m: Entries<string, Node>, key: string, v: int)
    ensures Field(m, key, (n: Node) => ReadInt(k, n), -1) == Some(v) <==> LengthIs(k, m, key, v)
    ensures Field(m, "HZ", ReadHz(k), -1) == Some(v) <==> RefreshIs(k, m, v)
  {
  }

  /** Main result: what a MODE is read as, field by field; it is refused exactly when some field is malformed. */
  lemma ModeRead(k: Codec, n: Node, mode: Mode)
    requires n.Mapping?
    ensures var m := ToMap(n.pairs);
      ReadMode(k)(n) == Some(mode) <==>
        && LengthIs(k, m, "WIDTH", mode.width) && LengthIs(k, m, "HEIGHT", mode.height)
        && RefreshIs(k, m, mode.refresh) && !mode.warned
        && FlagIs(m, "MAX", mode.max) && FlagIs(m, "MAX_PREFERRED_REFRESH", mode.maxPreferredRefresh)
  {
    hide Field, ReadHz, ReadBool, LengthIs, RefreshIs, FlagIs;
    var m := ToMap(n.pairs);
    FieldsRead(k, m, "WIDTH", mode.width);
    FieldsRead(k, m, "HEIGHT", mode.height);
    FieldsRead(k, m, "HZ", mode.refresh);
    FlagRead(m, "MAX", mode.max);
    FlagRead(m, "MAX_PREFERRED_REFRESH", mode.maxPreferredRefresh);
  }

  // -------- DISABLED --------

  /** Some item of the sequence is read as a condition. */
  ghost predicate HasCondition(k: Codec, items: seq<Node>) {
    exists i | 0 <= i < |items| :: ReadCondition(k, items[i]).Some?
  }

  /** Every condition is read from some item. */
  ghost predicate AllFrom(k: Codec, cs: seq<Condition>, items: seq<Node>) {
    forall j | 0 <= j < |cs| :: exists i | 0 <= i < |items| :: ReadCondition(k, items[i]) == Some(cs[j])
  }

  /** Every condition that is read has an equal. */
  ghost predicate AllIn(k: Codec, items: seq<Node>, cs: seq<Condition>) {
    forall i | 0 <= i < |items| && ReadCondition(k, items[i]).Some? ::
      exists j | 0 <= j < |cs| :: SameCondition()(cs[j], ReadCondition(k, items[i]).value)
  }

  lemma {:induction false} AddConditionsRead(k: Codec, items: seq<Node>, n: nat)
    requires n <= |items|
    ensures AddConditions(k, [], items[..n]) == AddConditionsTo(k, items, n)
  {
    AddConditionsSplit(k, [], items[..n]);
    if n > 0 {
      AddConditionsRead(k, items, n - 1);
      assert items[..n][..n - 1] == items[..n - 1];
    }
  }

  function AddConditionsTo(k: Codec, items: seq<Node>, n: nat): seq<Condition>
    requires n <= |items|
  {
    if n == 0 then [] else AddCondition(k, AddConditionsTo(k, items, n - 1), items[n - 1])
  }

  lemma {:induction false} AddConditionsSplit(k: Codec, to: seq<Condition>, items: seq<Node>)
    ensures items != [] ==>
      AddConditions(k, to, items) == AddCondition(k, AddConditions(k, to, items[..|items| - 1]), items[|items| - 1])
    decreases |items|
  {
    hide AddCondition;
    if |items| > 1 {
      AddConditionsSplit(k, AddCondition(k, to, items[0]), items[1..]);
      assert items[1..][..|items| - 2] == items[..|items| - 1][1..];
    }
  }

  lemma {:induction false} AddedConditions(k: Codec, items: seq<Node>, n: nat)
    requires n <= |items|
    ensures var cs := AddConditionsTo(k, items, n);
      AllFrom(k, cs, items[..n]) && AllIn(k, items[..n], cs) && (cs == [] <==> !HasCondition(k, items[..n]))
  {
    hide SameCondition, ReadCondition, AllFrom, AllIn, HasCondition;
    if n == 0 {
      NoneAdded(k);
    } else {
      AddedConditions(k, items, n - 1);
      var was, cs, c := AddConditionsTo(k, items, n - 1), AddConditionsTo(k, items, n), ReadCondition(k, items[n - 1]);
      assert items[..n] == items[..n - 1] + [items[n - 1]];
      if c.Some? {
        SameConditionReflexive(c.value);
        assert cs != [] && (cs == was || cs == was + [c.value]);
        AddedStep(k, items[..n - 1], items[n - 1], was, cs, c.value);
      } else {
        SkippedStep(k, items[..n - 1], items[n - 1], was);
      }
    }
  }

  lemma NoneAdded(k: Codec)
    ensures AllFrom(k, [], []) && AllIn(k, [], []) && !HasCondition(k, [])
  {
  }

  lemma SkippedStep(k: Codec, items: seq<Node>, item: Node, cs: seq<Condition>)
    requires AllFrom(k, cs, items) && AllIn(k, items, cs) && ReadCondition(k, item).None?
    ensures AllFrom(k, cs, items + [item]) && AllIn(k, items + [item], cs)
    ensures HasCondition(k, items + [item]) == HasCondition(k, items)
  {
    hide SameCondition, ReadCondition;
    var all := items + [item];
    assert forall i | 0 <= i < |items| :: all[i] == items[i];
    assert all[|items|] == item;
  }

  lemma AddedStep(k: Codec, items: seq<Node>, item: Node, was: seq<Condition>, cs: seq<Condition>, c: Condition)
    requires AllFrom(k, was, items) && AllIn(k, items, was) && ReadCondition(k, item) == Some(c)
    requires cs == OrderedSet.Add(was, c, SameCondition()) && SameCondition()(c, c)
    ensures AllFrom(k, cs, items + [item]) && AllIn(k, items + [item], cs) && HasCondition(k, items + [item])
  {
    hide SameCondition, ReadCondition;
    var all := items + [item];
    assert all[|items|] == item;
    forall j | 0 <= j < |cs| ensures exists i | 0 <= i < |all| :: ReadCondition(k, all[i]) == Some(cs[j]) {
      if j < |was| {
        var i :| 0 <= i < |items| && ReadCondition(k, items[i]) == Some(was[j]);
        assert all[i] == items[i];
      }
    }
    forall i | 0 <= i < |all| && ReadCondition(k, all[i]).Some?
      ensures exists j | 0 <= j < |cs| :: SameCondition()(cs[j], ReadCondition(k, all[i]).value)
    {
      if i < |items| {
        var j :| 0 <= j < |was| && SameCondition()(was[j], ReadCondition(k, items[i]).value);
        assert cs[j] == was[j];
      } else if OrderedSet.Has(was, c, SameCondition()) {
        assert SameCondition()(was[OrderedSet.IndexOf(was, c, SameCondition())], c);
      } else {
        assert cs[|was|] == c;
      }
    }
  }

  /**
   Main result: an entry of DISABLED is unconditional when it is a scalar, conditional when it has an IF with some
   condition that is read, and then with exactly those that are; anything else is refused.
   */
  lemma DisabledRead(k: Codec, n: Node)
    ensures var read := ReadDisabled(k)(n);
      && (read == Some([]) <==> n.Scalar?)
      && (read.Some? && !n.Scalar? <==>
            n.Mapping? && Has(ToMap(n.pairs), "IF") && Get(ToMap(n.pairs), "IF").value.Sequence?
            && HasCondition(k, Get(ToMap(n.pairs), "IF").value.items))
      && (read.Some? && !n.Scalar? ==>
            var items := Get(ToMap(n.pairs), "IF").value.items;
            AllFrom(k, read.value, items) && AllIn(k, items, read.value))
  {
    hide ReadCondition, SameCondition, AllFrom, AllIn, HasCondition;
    if n.Mapping? && Has(ToMap(n.pairs), "IF") && Get(ToMap(n.pairs), "IF").value.Sequence? {
      var items := Get(ToMap(n.pairs), "IF").value.items;
      assert items[..|items|] == items;
      AddConditionsRead(k, items, |items|);
      AddedConditions(k, items, |items|);
    }
  }

  // -------- values of the wrong kind --------

  /** A value that is no scalar, where one is due, is read as the default. */
  lemma MalformedIsDefault(k: Codec, e: E.Element, items: seq<Node>)
    ensures var r := Read(k, [(E.ElementName(e), Sequence(items))]);
      && (e.Arrange? ==> r == INITIAL.(arrange := Some(Layout.Row)))
      && (e.Align? ==> r == INITIAL.(align := Some(Layout.Top)))
      && (e.Scaling? ==> r == INITIAL.(scaling := Some(On)))
      && (e.AutoScale? ==> r == INITIAL.(autoScale := Some(On)))
      && (e.RoundTo? ==> r == INITIAL.(roundTo := Some(8)))
      && (e.RoundStrategy? ==> r == INITIAL.(roundStrategy := Some(Scale.Nearest)))
      && (e.Dpi? ==> r == INITIAL.(dpi := 96))
      && (e.ScaleMin? ==> r == INITIAL.(scaleMin := 1.0))
      && (e.ScaleMax? ==> r == INITIAL.(scaleMax := -1.0))
      && (e.LidMonitor? ==> r == INITIAL.(lidMonitor := Some(On)))
      && (e.LogThreshold? || e.Scales? || e.Modes? || e.Transforms? || e.Disabled? ==> r == INITIAL)
  {
    E.ElementReadsBack(e);
    var pairs := [(E.ElementName(e), Sequence(items))];
    assert pairs[1..] == [];
    assert ReadPairs(k, INITIAL, pairs) == ReadElement(k, INITIAL, e, Sequence(items));
  }
}
