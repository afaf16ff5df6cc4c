/** Defaults, validation, and the changes that IPC requests make to the configuration. */
module Merge {
  import opened Seqs
  import opened OrderedMap
  import opened Modes
  import opened Config
  import OrderedSet
  import Layout
  import Scale

  datatype Command = Set | Del | Toggle

  // -------- defaults and validation --------

  function Or<T>(a: Option<T>, default: T): Option<T> {
    if a.Some? then a else Some(default)
  }

  function LidCondition(): seq<Condition> {
    [Condition([], [], Some(Closed))]
  }

  /** cfg_disabled_add_lid_condition */
  function AddLidCondition(disableds: Entries<string, seq<Condition>>, nameDesc: string): Entries<string, seq<Condition>> {
    if Has(disableds, nameDesc) then disableds else Put(disableds, nameDesc, LidCondition())
  }

  /** cfg_apply_defaults; the log threshold has none here. */
  function Defaulted(c: Cfg): Cfg {
    c.(arrange := Or(c.arrange, Layout.Row),
       align := Or(c.align, Layout.Top),
       scaling := Or(c.scaling, On),
       autoScale := Or(c.autoScale, On),
       roundTo := Or(c.roundTo, Scale.ROUND_TO_DEFAULT),
       roundStrategy := Or(c.roundStrategy, Scale.Nearest),
       dpi := if c.dpi == 0 then DPI_DEFAULT else c.dpi,
       scaleMin := if c.scaleMin == 0.0 then MIN_DEFAULT else c.scaleMin,
       scaleMax := if c.scaleMax == 0.0 then MAX_DEFAULT else c.scaleMax,
       callback := Or(c.callback, CALLBACK_DEFAULT),
       lidMonitor := Or(c.lidMonitor, On),
       disableds := if !c.disabledsEmpty && c.disableds == [] then AddLidCondition(c.disableds, LAPTOP_DEFAULT) else c.disableds)
  }

  predicate AlignFits(arrange: Option<Layout.Arrange>, align: Option<Layout.Align>) {
    && align.Some?
    && if arrange == Some(Layout.Col) then align.value.Left? || align.value.Middle? || align.value.Right?
       else align.value.Top? || align.value.Middle? || align.value.Bottom?
  }

  /** mode_is_invalid: -1 is a dimension that was not given. */
  predicate ModeInvalid(m: Mode) {
    || (m.width != -1 && m.width <= 0)
    || (m.height != -1 && m.height <= 0)
    || (m.refresh != -1 && m.refresh <= 0)
    || (!m.max && !m.maxPreferredRefresh && (m.width == -1 || m.height == -1))
  }

  function InvalidEntry(): ((string, Mode)) -> bool {
    (e: (string, Mode)) => ModeInvalid(e.1)
  }

  predicate Valid(c: Cfg) {
    && AlignFits(c.arrange, c.align)
    && c.dpi > Scale.AUTO_SCALE_DPI_MIN
    && forall i | 0 <= i < |c.modes| :: !ModeInvalid(c.modes[i].1)
  }

  /** cfg_validate_fix */
  function Fixed(c: Cfg): Cfg {
    c.(align := if AlignFits(c.arrange, c.align) then c.align
         else if c.arrange == Some(Layout.Col) then Some(Layout.Left) else Some(Layout.Top),
       dpi := if c.dpi <= Scale.AUTO_SCALE_DPI_MIN then DPI_DEFAULT else c.dpi,
       modes := Filter(c.modes, Not(InvalidEntry())))
  }

  lemma {:induction false} FilterKeepsAll<T>(s: seq<T>, pass: T -> bool)
    ensures |Filter(s, pass)| <= |s|
    ensures Filter(s, pass) == s <==> forall i | 0 <= i < |s| :: pass(s[i])
  {
    if s != [] {
      assert s == [s[0]] + s[1..];
      FilterKeepsAll(s[1..], pass);
      if pass(s[0]) {
        assert Filter(s, pass)[1..] == Filter(s[1..], pass);
      }
    }
  }

  /** Main result: fixing makes a configuration valid, and changes exactly the invalid ones. */
  lemma FixedIsValid(c: Cfg)
    ensures Valid(Fixed(c))
    ensures Valid(c) <==> Fixed(c) == c
    ensures Fixed(Fixed(c)) == Fixed(c)
  {
    forall i | 0 <= i < |Fixed(c).modes| ensures !ModeInvalid(Fixed(c).modes[i].1) {
      FilterMember(c.modes, Not(InvalidEntry()), Fixed(c).modes[i]);
    }
    FilterKeepsAll(c.modes, Not(InvalidEntry()));
    FilterKeepsAll(Fixed(c).modes, Not(InvalidEntry()));
  }

  /** The modes that fixing keeps are exactly the valid ones. */
  lemma FixedModes(c: Cfg, key: string)
    requires Unique(c.modes)
    ensures var was := Get(c.modes, key);
      Get(Fixed(c).modes, key) == if was.Some? && !ModeInvalid(was.value) then was else None
  {
    FilterGet(c.modes, Not(InvalidEntry()), key);
  }

  // -------- merges --------

  function MergeSet(to: Cfg, from: Cfg): Cfg {
    to.(align := if from.align.Some? then from.align else to.align,
        arrange := if from.arrange.Some? then from.arrange else to.arrange,
        autoScale := if from.autoScale.Some? then from.autoScale else to.autoScale,
        scaling := if from.scaling.Some? then from.scaling else to.scaling,
        callback := if from.callback.Some? then from.callback else to.callback,
        disableds := PutAll(to.disableds, from.disableds),
        modes := PutAll(to.modes, from.modes),
        scales := PutAll(to.scales, from.scales),
        transforms := PutAll(to.transforms, from.transforms),
        vrrOff := AddNames(to.vrrOff, from.vrrOff),
        order := if from.order != [] then from.order else to.order)
  }

  function MergeDel(to: Cfg, from: Cfg): Cfg {
    to.(disableds := RemoveIn(to.disableds, from.disableds),
        modes := RemoveIn(to.modes, from.modes),
        scales := RemoveIn(to.scales, from.scales),
        transforms := RemoveIn(to.transforms, from.transforms),
        vrrOff := RemoveNames(to.vrrOff, from.vrrOff),
        callback := if from.callback.Some? then Some("") else to.callback)
  }

  /** The request passes ON for what is to be toggled. */
  function MergeToggle(to: Cfg, from: Cfg): Cfg {
    to.(scaling := if from.scaling == Some(On) then Inverted(to.scaling) else to.scaling,
        autoScale := if from.autoScale == Some(On) then Inverted(to.autoScale) else to.autoScale,
        vrrOff := ToggleNames(to.vrrOff, from.vrrOff),
        disableds := ToggleKeys(to.disableds, from.disableds))
  }

  function Inverted(v: Option<OnOff>): Option<OnOff> {
    if v == Some(On) then Some(Off) else Some(On)
  }

  function AddNames(s: seq<string>, other: seq<string>): seq<string>
    decreases |other|
  {
    if other == [] then s else AddNames(OrderedSet.Add(s, other[0], SameString()), other[1..])
  }

  function RemoveNames(s: seq<string>, other: seq<string>): seq<string>
    decreases |other|
  {
    if other == [] then s else RemoveNames(OrderedSet.Remove(s, other[0], SameString()), other[1..])
  }

  function ToggleName(s: seq<string>, n: string): seq<string> {
    if n in s then OrderedSet.Remove(s, n, SameString()) else OrderedSet.Add(s, n, SameString())
  }

  function ToggleNames(s: seq<string>, other: seq<string>): seq<string>
    decreases |other|
  {
    if other == [] then s else ToggleNames(ToggleName(s, other[0]), other[1..])
  }

  function ToggleKey<V>(m: Entries<string, V>, k: string, v: V): Entries<string, V> {
    if Has(m, k) then Remove(m, k) else Put(m, k, v)
  }

  function ToggleKeys<V>(m: Entries<string, V>, other: Entries<string, V>): Entries<string, V>
    decreases |other|
  {
    if other == [] then m else ToggleKeys(ToggleKey(m, other[0].0, other[0].1), other[1..])
  }

  function Merged(to: Cfg, from: Cfg, command: Command): Cfg {
    match command
    case Set => MergeSet(to, from)
    case Del => MergeDel(to, from)
    case Toggle => MergeToggle(to, from)
  }

  /** cfg_merge: the fixed merge, or nothing when that is no change. */
  function CfgMerge(to: Cfg, from: Cfg, command: Command): Option<Cfg> {
    var merged := Fixed(Merged(to, from, command));
    if CfgEqual(merged, to) then None else Some(merged)
  }

  // -------- names --------

  lemma ToggleNameMember(s: seq<string>, n: string, q: string)
    requires Distinct(s)
    ensures Distinct(ToggleName(s, n))
    ensures q in ToggleName(s, n) <==> if q == n then q !in s else q in s
  {
    DistinctNoTwins(s);
    AnyName();
    OrderedSet.AddGrows(s, n, SameString(), OrderedSet.Any(), q);
    OrderedSet.RemoveShrinks(s, n, SameString(), OrderedSet.Any(), q);
    HasName(s, q);
    HasName(ToggleName(s, n), q);
    DistinctNoTwins(ToggleName(s, n));
  }

  /** Toggling flips exactly the given names. */
  lemma {:induction false} ToggleNamesMember(s: seq<string>, other: seq<string>, q: string)
    requires Distinct(s) && Distinct(other)
    ensures Distinct(ToggleNames(s, other))
    ensures q in ToggleNames(s, other) <==> if q in other then q !in s else q in s
    decreases |other|
  {
    if other != [] {
      assert other == [other[0]] + other[1..] && other[0] !in other[1..];
      ToggleNameMember(s, other[0], q);
      ToggleNamesMember(ToggleName(s, other[0]), other[1..], q);
    }
  }

  lemma {:induction false} AddNamesDistinct(s: seq<string>, other: seq<string>)
    requires Distinct(s)
    ensures Distinct(AddNames(s, other))
    decreases |other|
  {
    if other != [] {
      DistinctNoTwins(s);
      AnyName();
      OrderedSet.AddGrows(s, other[0], SameString(), OrderedSet.Any(), other[0]);
      DistinctNoTwins(OrderedSet.Add(s, other[0], SameString()));
      AddNamesDistinct(OrderedSet.Add(s, other[0], SameString()), other[1..]);
    }
  }

  lemma {:induction false} RemoveNamesDistinct(s: seq<string>, other: seq<string>)
    requires Distinct(s)
    ensures Distinct(RemoveNames(s, other))
    decreases |other|
  {
    if other != [] {
      DistinctNoTwins(s);
      AnyName();
      OrderedSet.RemoveShrinks(s, other[0], SameString(), OrderedSet.Any(), other[0]);
      DistinctNoTwins(OrderedSet.Remove(s, other[0], SameString()));
      RemoveNamesDistinct(OrderedSet.Remove(s, other[0], SameString()), other[1..]);
    }
  }

  // -------- toggled keys --------

  lemma ToggleKeyGet<V>(m: Entries<string, V>, k: string, v: V, q: string)
    requires Unique(m)
    ensures Unique(ToggleKey(m, k, v))
    ensures Get(ToggleKey(m, k, v), q) == if q != k then Get(m, q) else if Has(m, k) then None else Some(v)
  {
    PutKeys(m, k, v);
    PutGet(m, k, v, q);
    RemoveFilters(m, k);
    RemoveGet(m, k, q);
  }

  /** Toggling removes exactly the given keys that are there, and puts exactly the others. */
  lemma {:induction false} ToggleKeysGet<V>(m: Entries<string, V>, other: Entries<string, V>, q: string)
    requires Unique(m) && Unique(other)
    ensures Unique(ToggleKeys(m, other))
    ensures Get(ToggleKeys(m, other), q) ==
      if !Has(other, q) then Get(m, q) else if Has(m, q) then None else Get(other, q)
    decreases |other|
  {
    if other != [] {
      TailUnique(other);
      TailGet(other, q);
      ToggleKeyGet(m, other[0].0, other[0].1, q);
      ToggleKeysGet(ToggleKey(m, other[0].0, other[0].1), other[1..], q);
    }
  }

  // -------- every reachable configuration is valid --------

  datatype Change =
    | Load(file: Option<Cfg>)     // g_cfg_file_init_read: the defaults without a readable file
    | Reload(file: Option<Cfg>)   // g_cfg_file_reload: no change without a readable file
    | Request(command: Command, cfg: Cfg)

  function Applied(c: Cfg, change: Change): Cfg {
    match change
    case Load(file) => Fixed(Defaulted(if file.Some? then file.value else INITIAL))
    case Reload(file) => if file.Some? then Fixed(Defaulted(file.value)) else c
    case Request(command, cfg) =>
      var merged := CfgMerge(c, cfg, command);
      if merged.Some? then merged.value else c
  }

  /** The configurations that a change brings are built by the containers. */
  ghost predicate Brought(change: Change) {
    match change
    case Load(file) => file.Some? ==> WellFormed(file.value)
    case Reload(file) => file.Some? ==> WellFormed(file.value)
    case Request(_, cfg) => WellFormed(cfg)
  }

  /** What an active configuration has been given a value for. */
  predicate Complete(c: Cfg) {
    && c.arrange.Some? && c.align.Some? && c.scaling.Some? && c.autoScale.Some? && c.callback.Some?
    && c.roundTo.Some? && c.roundStrategy.Some? && c.lidMonitor.Some?
    && c.dpi != 0 && c.scaleMin != 0.0 && c.scaleMax != 0.0
  }

  ghost predicate Active(c: Cfg) {
    WellFormed(c) && Complete(c) && Valid(c)
  }

  lemma {:induction false} ToggleKeysValues<V>(m: Entries<string, V>, other: Entries<string, V>, ok: V -> bool)
    requires AllValues(m, ok) && AllValues(other, ok)
    ensures AllValues(ToggleKeys(m, other), ok)
    decreases |other|
  {
    if other != [] {
      ToggleKeysValues(ToggleKey(m, other[0].0, other[0].1), other[1..], ok);
    }
  }

  /** Merging and defaulting keep the conditions of every entry apart. */
  lemma MergedConditions(to: Cfg, from: Cfg, command: Command)
    requires WellFormed(to) && WellFormed(from)
    ensures AllValues(Merged(to, from, command).disableds, ConditionsDistinct())
  {
    hide ConditionsDistinct;
    match command
    case Set => PutAllValues(to.disableds, from.disableds, ConditionsDistinct());
    case Del =>
      RemoveInFilters(to.disableds, from.disableds);
      FilterValues(to.disableds, KeyNotIn(from.disableds), ConditionsDistinct());
    case Toggle => ToggleKeysValues(to.disableds, from.disableds, ConditionsDistinct());
  }

  lemma FixedActive(c: Cfg)
    requires WellFormed(c) && Complete(c)
    ensures Active(Fixed(c))
  {
    FixedIsValid(c);
    UniqueFilter(c.modes, Not(InvalidEntry()));
  }

  lemma DefaultedComplete(c: Cfg)
    requires WellFormed(c)
    ensures WellFormed(Defaulted(c)) && Complete(Defaulted(c))
  {
    PutKeys(c.disableds, LAPTOP_DEFAULT, LidCondition());
    assert ConditionsDistinct()(LidCondition());
  }

  lemma SetComplete(to: Cfg, from: Cfg)
    requires WellFormed(to) && Complete(to) && WellFormed(from)
    ensures WellFormed(MergeSet(to, from)) && Complete(MergeSet(to, from))
  {
    MergedConditions(to, from, Set);
    hide AllValues, PutAll, AddNames;
    PutAllGet(to.disableds, from.disableds, "");
    PutAllGet(to.modes, from.modes, "");
    PutAllGet(to.scales, from.scales, "");
    PutAllGet(to.transforms, from.transforms, "");
    AddNamesDistinct(to.vrrOff, from.vrrOff);
  }

  lemma DelComplete(to: Cfg, from: Cfg)
    requires WellFormed(to) && Complete(to) && WellFormed(from)
    ensures WellFormed(MergeDel(to, from)) && Complete(MergeDel(to, from))
  {
    MergedConditions(to, from, Del);
    hide AllValues, RemoveIn, RemoveNames;
    RemoveInFilters(to.disableds, from.disableds);
    RemoveInFilters(to.modes, from.modes);
    RemoveInFilters(to.scales, from.scales);
    RemoveInFilters(to.transforms, from.transforms);
    RemoveNamesDistinct(to.vrrOff, from.vrrOff);
  }

  lemma ToggleComplete(to: Cfg, from: Cfg)
    requires WellFormed(to) && Complete(to) && WellFormed(from)
    ensures WellFormed(MergeToggle(to, from)) && Complete(MergeToggle(to, from))
  {
    MergedConditions(to, from, Toggle);
    hide AllValues, ToggleKeys, ToggleNames;
    ToggleNamesMember(to.vrrOff, from.vrrOff, "");
    ToggleKeysGet(to.disableds, from.disableds, "");
  }

  lemma MergedComplete(to: Cfg, from: Cfg, command: Command)
    requires WellFormed(to) && Complete(to) && WellFormed(from)
    ensures WellFormed(Merged(to, from, command)) && Complete(Merged(to, from, command))
  {
    hide WellFormed, Complete, MergeSet, MergeDel, MergeToggle;
    match command
    case Set => SetComplete(to, from);
    case Del => DelComplete(to, from);
    case Toggle => ToggleComplete(to, from);
  }

  lemma AppliedActive(c: Cfg, change: Change)
    requires Brought(change) && (Active(c) || change.Load?)
    ensures Active(Applied(c, change))
  {
    match change
    case Load(file) =>
      var read := if file.Some? then file.value else INITIAL;
      DefaultedComplete(read);
      FixedActive(Defaulted(read));
    case Reload(file) =>
      if file.Some? {
        DefaultedComplete(file.value);
        FixedActive(Defaulted(file.value));
      }
    case Request(command, cfg) =>
      MergedComplete(c, cfg, command);
      FixedActive(Merged(c, cfg, command));
  }

  /** What is adopted is active; and of DEL and TOGGLE it is the merge itself, since only SET can need fixing. */
  lemma MergeAdopted(to: Cfg, from: Cfg, command: Command)
    requires Active(to) && WellFormed(from)
    ensures CfgMerge(to, from, command).Some? ==> Active(CfgMerge(to, from, command).value)
    ensures command != Set ==> Fixed(Merged(to, from, command)) == Merged(to, from, command)
  {
    MergedComplete(to, from, command);
    FixedActive(Merged(to, from, command));
    if command == Del {
      RemoveInFilters(to.modes, from.modes);
      forall i | 0 <= i < |MergeDel(to, from).modes| ensures !ModeInvalid(MergeDel(to, from).modes[i].1) {
        FilterMember(to.modes, KeyNotIn(from.modes), MergeDel(to, from).modes[i]);
      }
    }
    FixedIsValid(Merged(to, from, command));
  }

  // -------- when a request changes anything --------

  predicate Overlaps<V, W>(m: Entries<string, V>, other: Entries<string, W>) {
    exists i | 0 <= i < |other| :: Has(m, other[i].0)
  }

  lemma HasAt<V>(m: Entries<string, V>, k: string)
    ensures Has(m, k) <==> exists i | 0 <= i < |m| :: m[i].0 == k
  {
    if Has(m, k) {
      assert m[IndexOf(m, k)].0 == k;
    }
    if i :| 0 <= i < |m| && m[i].0 == k {
      assert Keys(m)[i] == k;
    }
  }

  lemma RemoveInSame<V>(m: Entries<string, V>, other: Entries<string, V>, same: (V, V) -> bool)
    requires Unique(m) && forall i | 0 <= i < |m| :: same(m[i].1, m[i].1)
    ensures Equal(RemoveIn(m, other), m, same) <==> !Overlaps(m, other)
  {
    RemoveInFilters(m, other);
    if i :| 0 <= i < |other| && Has(m, other[i].0) {
      var k := other[i].0;
      HasAt(other, k);
      RemoveInGet(m, other, k);
      assert m[IndexOf(m, k)].0 == k;
    } else {
      forall e | e in m ensures KeyNotIn(other)(e) {
        HasAt(m, e.0);
        HasAt(other, e.0);
      }
      FilterAll(m, KeyNotIn(other));
      EqualReflexive(m, same);
    }
  }

  lemma RemoveNameMember(s: seq<string>, n: string, q: string)
    requires Distinct(s)
    ensures Distinct(OrderedSet.Remove(s, n, SameString()))
    ensures q in OrderedSet.Remove(s, n, SameString()) <==> q in s && q != n
  {
    DistinctNoTwins(s);
    AnyName();
    OrderedSet.RemoveShrinks(s, n, SameString(), OrderedSet.Any(), q);
    HasName(s, q);
    HasName(OrderedSet.Remove(s, n, SameString()), q);
    DistinctNoTwins(OrderedSet.Remove(s, n, SameString()));
  }

  lemma {:induction false} RemoveNamesMember(s: seq<string>, other: seq<string>, q: string)
    requires Distinct(s)
    ensures Distinct(RemoveNames(s, other))
    ensures q in RemoveNames(s, other) <==> q in s && q !in other
    decreases |other|
  {
    if other != [] {
      assert other == [other[0]] + other[1..];
      RemoveNameMember(s, other[0], q);
      RemoveNamesMember(OrderedSet.Remove(s, other[0], SameString()), other[1..], q);
    }
  }

  lemma RemoveNamesSame(s: seq<string>, other: seq<string>)
    requires Distinct(s)
    ensures SameNames(RemoveNames(s, other), s) <==> forall n | n in other :: n !in s
  {
    forall q ensures q in RemoveNames(s, other) <==> q in s && q !in other {
      RemoveNamesMember(s, other, q);
    }
    RemoveNamesMember(s, other, "");
    SameNamesIff(RemoveNames(s, other), s);
  }

  /** DEL asks for something that is there. */
  predicate DelFinds(to: Cfg, from: Cfg) {
    || Overlaps(to.disableds, from.disableds) || Overlaps(to.modes, from.modes)
    || Overlaps(to.scales, from.scales) || Overlaps(to.transforms, from.transforms)
    || (exists i | 0 <= i < |from.vrrOff| :: from.vrrOff[i] in to.vrrOff)
    || (from.callback.Some? && to.callback != Some(""))
  }

  /** Main result: DEL changes the configuration exactly when something that it names is there. */
  lemma DelChangesIff(to: Cfg, from: Cfg)
    requires Active(to) && WellFormed(from)
    ensures CfgMerge(to, from, Del).Some? <==> DelFinds(to, from)
  {
    MergeAdopted(to, from, Del);
    forall i | 0 <= i < |to.disableds| ensures SameDisabled()(to.disableds[i].1, to.disableds[i].1) {
      SameDisabledReflexive(to.disableds[i].1);
    }
    RemoveInSame(to.disableds, from.disableds, SameDisabled());
    RemoveInSame(to.modes, from.modes, SameMode());
    RemoveInSame(to.scales, from.scales, SameInt());
    RemoveInSame(to.transforms, from.transforms, SameNat());
    RemoveNamesSame(to.vrrOff, from.vrrOff);
    SameNamesReflexive(to.order);
    assert (exists n :: n in from.vrrOff && n in to.vrrOff) ==> exists i | 0 <= i < |from.vrrOff| :: from.vrrOff[i] in to.vrrOff;
  }

  /** SET gives an entry that is not there, or is there with another value. */
  predicate Brings<V>(m: Entries<string, V>, other: Entries<string, V>, same: (V, V) -> bool) {
    exists i | 0 <= i < |other| :: !(Has(m, other[i].0) && same(other[i].1, Get(m, other[i].0).value))
  }

  lemma PutAllSame<V>(m: Entries<string, V>, other: Entries<string, V>, same: (V, V) -> bool)
    requires Unique(m) && Unique(other) && forall i | 0 <= i < |m| :: same(m[i].1, m[i].1)
    ensures Equal(PutAll(m, other), m, same) <==> !Brings(m, other, same)
  {
    hide PutAll, Unique;
    var all := PutAll(m, other);
    forall k ensures Get(all, k) == if Has(other, k) then Get(other, k) else Get(m, k) {
      PutAllGet(m, other, k);
    }
    PutAllGet(m, other, "");
    EqualIsSameMap(all, m, same);
    forall i | 0 <= i < |other| ensures Get(other, other[i].0) == Some(other[i].1) && Has(all, other[i].0) {
      EntryAt(other, i);
    }
    if Equal(all, m, same) {
      forall i | 0 <= i < |other| ensures Has(m, other[i].0) && same(other[i].1, Get(m, other[i].0).value) {
        assert other[i].0 in KeySet(all);
      }
    }
    if !Brings(m, other, same) {
      forall i | 0 <= i < |m| ensures Get(all, m[i].0).Some? && same(Get(all, m[i].0).value, m[i].1) {
        EntryAt(m, i);
        if Has(other, m[i].0) {
          assert other[IndexOf(other, m[i].0)].0 == m[i].0;
        }
      }
      KeysOnly(all, m, other);
      KeysSize(all, m);
    }
  }

  /** Keys that all come from m, when those of other do. */
  lemma KeysOnly<V>(all: Entries<string, V>, m: Entries<string, V>, other: Entries<string, V>)
    requires forall k :: Get(all, k) == if Has(other, k) then Get(other, k) else Get(m, k)
    requires forall i | 0 <= i < |other| :: Has(m, other[i].0)
    ensures KeySet(all) == KeySet(m)
  {
    forall k ensures k in KeySet(all) <==> k in KeySet(m) {
      assert k in KeySet(all) <==> Get(all, k).Some?;
      if Has(other, k) {
        assert other[IndexOf(other, k)].0 == k;
      }
    }
  }

  lemma KeysSize<V>(a: Entries<string, V>, b: Entries<string, V>)
    requires Unique(a) && Unique(b) && KeySet(a) == KeySet(b)
    ensures |a| == |b|
  {
    DistinctCount(Keys(a));
    DistinctCount(Keys(b));
    assert KeySet(a) == Members(Keys(a)) && KeySet(b) == Members(Keys(b));
  }

  /** SET gives a MODE that is valid and not there so, or that is invalid and has the name of one that is there. */
  predicate BringsMode(m: Entries<string, Mode>, other: Entries<string, Mode>) {
    exists i | 0 <= i < |other| ::
      if ModeInvalid(other[i].1) then Has(m, other[i].0) else Get(m, other[i].0) != Some(other[i].1)
  }

  /** What a merged and fixed SET has for a name. */
  function SetMode(m: Entries<string, Mode>, other: Entries<string, Mode>, k: string): Option<Mode> {
    var was := if Has(other, k) then Get(other, k) else Get(m, k);
    if was.Some? && !ModeInvalid(was.value) then was else None
  }

  lemma SetModesAre(to: Cfg, from: Cfg)
    requires Active(to) && WellFormed(from)
    ensures var fixed := Fixed(MergeSet(to, from)).modes;
      Unique(fixed) && forall k :: Get(fixed, k) == SetMode(to.modes, from.modes, k)
  {
    PutAllGet(to.modes, from.modes, "");
    UniqueFilter(PutAll(to.modes, from.modes), Not(InvalidEntry()));
    forall k ensures Get(Fixed(MergeSet(to, from)).modes, k) == SetMode(to.modes, from.modes, k) {
      PutAllGet(to.modes, from.modes, k);
      FixedModes(MergeSet(to, from), k);
    }
  }

  /** Two maps with the same lookups are equal, and only such. */
  lemma SameLookups(a: Entries<string, Mode>, b: Entries<string, Mode>)
    requires Unique(a) && Unique(b)
    ensures Equal(a, b, SameMode()) <==> forall k :: Get(a, k) == Get(b, k)
  {
    EqualIsSameMap(a, b, SameMode());
    forall k ensures (k in KeySet(a) <==> Get(a, k).Some?) && (k in KeySet(b) <==> Get(b, k).Some?) {
    }
  }

  lemma SetModesSame(to: Cfg, from: Cfg)
    requires Active(to) && WellFormed(from)
    ensures Equal(Fixed(MergeSet(to, from)).modes, to.modes, SameMode()) <==> !BringsMode(to.modes, from.modes)
  {
    SetModesAre(to, from);
    SameLookups(Fixed(MergeSet(to, from)).modes, to.modes);
    hide Fixed, MergeSet, Equal;
    var (m, other) := (to.modes, from.modes);
    forall k | Has(m, k) ensures !ModeInvalid(Get(m, k).value) {
      assert m[IndexOf(m, k)].1 == Get(m, k).value;
    }
    forall i | 0 <= i < |other| ensures Get(other, other[i].0) == Some(other[i].1) {
      EntryAt(other, i);
    }
    if !BringsMode(m, other) {
      forall k ensures SetMode(m, other, k) == Get(m, k) {
        if Has(other, k) {
          assert other[IndexOf(other, k)] == (k, Get(other, k).value);
        }
      }
    }
    if i :| 0 <= i < |other| && if ModeInvalid(other[i].1) then Has(m, other[i].0) else Get(m, other[i].0) != Some(other[i].1) {
      assert SetMode(m, other, other[i].0) != Get(m, other[i].0);
    }
  }

  lemma {:induction false} AddNamesMember(s: seq<string>, other: seq<string>, q: string)
    requires Distinct(s)
    ensures q in AddNames(s, other) <==> q in s || q in other
    decreases |other|
  {
    if other != [] {
      var next := OrderedSet.Add(s, other[0], SameString());
      assert other == [other[0]] + other[1..];
      DistinctNoTwins(s);
      AnyName();
      OrderedSet.AddGrows(s, other[0], SameString(), OrderedSet.Any(), q);
      HasName(s, q);
      HasName(next, q);
      DistinctNoTwins(next);
      AddNamesMember(next, other[1..], q);
    }
  }

  lemma AddNamesSame(s: seq<string>, other: seq<string>)
    requires Distinct(s)
    ensures SameNames(AddNames(s, other), s) <==> forall n | n in other :: n in s
  {
    forall q ensures q in AddNames(s, other) <==> q in s || q in other {
      AddNamesMember(s, other, q);
    }
    AddNamesDistinct(s, other);
    SameNamesIff(AddNames(s, other), s);
  }

  function Given<V>(given: Option<V>, current: Option<V>): Option<V> {
    if given.Some? then given else current
  }

  /** SET gives a value that is not the current one; an alignment as it fits the arrangement. */
  predicate SetBringsScalar(to: Cfg, from: Cfg) {
    var (arrange, align) := (Given(from.arrange, to.arrange), Given(from.align, to.align));
    || arrange != to.arrange
    || to.align != (if AlignFits(arrange, align) then align
                    else if arrange == Some(Layout.Col) then Some(Layout.Left) else Some(Layout.Top))
    || Given(from.autoScale, to.autoScale) != to.autoScale || Given(from.scaling, to.scaling) != to.scaling
    || Given(from.callback, to.callback) != to.callback
  }

  predicate SetBrings(to: Cfg, from: Cfg) {
    || SetBringsScalar(to, from)
    || Brings(to.disableds, from.disableds, SameDisabled()) || BringsMode(to.modes, from.modes)
    || Brings(to.scales, from.scales, SameInt()) || Brings(to.transforms, from.transforms, SameNat())
    || (exists i | 0 <= i < |from.vrrOff| :: from.vrrOff[i] !in to.vrrOff)
    || (from.order != [] && !SameNames(from.order, to.order))
  }

  /** Main result: SET changes the configuration exactly when it brings something that it does not have. */
  lemma SetChangesIff(to: Cfg, from: Cfg)
    requires Active(to) && WellFormed(from)
    ensures CfgMerge(to, from, Set).Some? <==> SetBrings(to, from)
  {
    hide Brings, BringsMode, Equal, PutAll, AddNames, SameDisabled;
    forall i | 0 <= i < |to.disableds| ensures SameDisabled()(to.disableds[i].1, to.disableds[i].1) {
      SameDisabledReflexive(to.disableds[i].1);
    }
    PutAllSame(to.disableds, from.disableds, SameDisabled());
    SetModesSame(to, from);
    PutAllSame(to.scales, from.scales, SameInt());
    PutAllSame(to.transforms, from.transforms, SameNat());
    AddNamesSame(to.vrrOff, from.vrrOff);
    SameNamesReflexive(to.order);
    assert (exists n :: n in from.vrrOff && n !in to.vrrOff) ==> exists i | 0 <= i < |from.vrrOff| :: from.vrrOff[i] !in to.vrrOff;
  }

  /** A SET of an invalid MODE removes the MODE of that name, which the merge has overwritten before it is fixed. */
  lemma SetInvalidModeRemoves(to: Cfg, from: Cfg, k: string)
    requires Active(to) && WellFormed(from) && Get(from.modes, k).Some? && ModeInvalid(Get(from.modes, k).value)
    ensures Get(Fixed(MergeSet(to, from)).modes, k) == None
    ensures Has(to.modes, k) ==> CfgMerge(to, from, Set).Some? && !Has(CfgMerge(to, from, Set).value.modes, k)
  {
    PutAllGet(to.modes, from.modes, k);
    FixedModes(MergeSet(to, from), k);
    if Has(to.modes, k) {
      SetChangesIff(to, from);
      assert from.modes[IndexOf(from.modes, k)] == (k, Get(from.modes, k).value);
    }
  }

  lemma ToggleKeysSame<V>(m: Entries<string, V>, other: Entries<string, V>, same: (V, V) -> bool)
    requires Unique(m) && Unique(other) && forall i | 0 <= i < |m| :: same(m[i].1, m[i].1)
    ensures Equal(ToggleKeys(m, other), m, same) <==> other == []
  {
    if other == [] {
      EqualReflexive(m, same);
    } else {
      var k := other[0].0;
      EntryAt(other, 0);
      ToggleKeysGet(m, other, k);
      EqualIsSameMap(ToggleKeys(m, other), m, same);
      assert k in KeySet(m) <==> Has(m, k);
      assert k in KeySet(ToggleKeys(m, other)) <==> Has(ToggleKeys(m, other), k);
    }
  }

  lemma ToggleNamesSame(s: seq<string>, other: seq<string>)
    requires Distinct(s) && Distinct(other)
    ensures SameNames(ToggleNames(s, other), s) <==> other == []
  {
    var n := if other == [] then "" else other[0];
    ToggleNamesMember(s, other, n);
    SameNamesIff(ToggleNames(s, other), s);
  }

  /** Main result: TOGGLE changes the configuration exactly when it asks for anything. */
  lemma ToggleChangesIff(to: Cfg, from: Cfg)
    requires Active(to) && WellFormed(from)
    ensures CfgMerge(to, from, Toggle).Some? <==>
      from.scaling == Some(On) || from.autoScale == Some(On) || from.vrrOff != [] || from.disableds != []
  {
    MergeAdopted(to, from, Toggle);
    CfgEqualReflexive(to);
    forall i | 0 <= i < |to.disableds| ensures SameDisabled()(to.disableds[i].1, to.disableds[i].1) {
      SameDisabledReflexive(to.disableds[i].1);
    }
    ToggleKeysSame(to.disableds, from.disableds, SameDisabled());
    ToggleNamesSame(to.vrrOff, from.vrrOff);
    assert Inverted(to.scaling) != to.scaling && Inverted(to.autoScale) != to.autoScale by {
      assert to.scaling.value.On? || to.scaling.value.Off?;
      assert to.autoScale.value.On? || to.autoScale.value.Off?;
    }
  }

  // -------- toggling twice --------

  /**
   Main result: toggling the same request twice gives an equal configuration exactly when the
   DISABLED entries that both have are equal.
   */
  lemma ToggleTwice(c: Cfg, r: Cfg)
    requires Active(c) && WellFormed(r)
    ensures CfgEqual(MergeToggle(MergeToggle(c, r), r), c) <==>
      forall k | k in KeySet(r.disableds) :: Has(c.disableds, k) ==>
        SameDisabled()(Get(r.disableds, k).value, Get(c.disableds, k).value)
  {
    var once := MergeToggle(c, r);
    var twice := MergeToggle(once, r);
    forall n ensures n in twice.vrrOff <==> n in c.vrrOff {
      ToggleNamesMember(c.vrrOff, r.vrrOff, n);
      ToggleNamesMember(once.vrrOff, r.vrrOff, n);
    }
    ToggleNamesMember(c.vrrOff, r.vrrOff, "");
    ToggleNamesMember(once.vrrOff, r.vrrOff, "");
    SameNamesIff(twice.vrrOff, c.vrrOff);
    CfgEqualReflexive(c);
    InvertTwice(c.scaling);
    InvertTwice(c.autoScale);
    assert SameScalars(twice, c);
    ToggleKeysTwice(c.disableds, r.disableds);
    assert CfgEqual(twice, c) <==> Equal(twice.disableds, c.disableds, SameDisabled());
  }

  /** The entries that both have are equal. */
  ghost predicate SharedEqual(c: Cfg, r: Cfg) {
    forall k | k in KeySet(r.disableds) :: Has(c.disableds, k) ==>
      SameDisabled()(Get(r.disableds, k).value, Get(c.disableds, k).value)
  }

  /** Main result: the same of two requests, as the program deals with them. */
  lemma ToggleRequestsTwice(c: Cfg, r: Cfg)
    requires Active(c) && WellFormed(r)
    ensures CfgEqual(Applied(Applied(c, Request(Toggle, r)), Request(Toggle, r)), c) <==> SharedEqual(c, r)
  {
    ToggleChangesIff(c, r);
    CfgEqualReflexive(c);
    if CfgMerge(c, r, Toggle).Some? {
      MergeAdopted(c, r, Toggle);
      var once := MergeToggle(c, r);
      ToggleChangesIff(once, r);
      MergeAdopted(once, r, Toggle);
      ToggleTwice(c, r);
    } else {
      assert KeySet(r.disableds) == {};
    }
  }

  /** It is not always so: an unconditional entry, toggled by a request that gives it a condition, gains it. */
  lemma ToggleTwiceDiffers() returns (c: Cfg, r: Cfg)
    ensures Active(c) && WellFormed(r) && !CfgEqual(MergeToggle(MergeToggle(c, r), r), c)
    ensures !CfgEqual(Applied(Applied(c, Request(Toggle, r)), Request(Toggle, r)), c)
  {
    var always, closed := [("HDMI-A-1", [])], [("HDMI-A-1", LidCondition())];
    assert Keys(always) == ["HDMI-A-1"] && Keys(closed) == ["HDMI-A-1"];
    var read := INITIAL.(disableds := always);
    c, r := Fixed(Defaulted(read)), INITIAL.(disableds := closed);
    DefaultedComplete(read);
    FixedActive(Defaulted(read));
    ToggleTwice(c, r);
    EntryAt(always, 0);
    EntryAt(closed, 0);
    assert "HDMI-A-1" in KeySet(closed);
    ToggleRequestsTwice(c, r);
  }

  lemma InvertTwice(v: Option<OnOff>)
    requires v.Some?
    ensures Inverted(Inverted(v)) == v
  {
    assert v.value.On? || v.value.Off?;
  }

  lemma ToggleKeysTwice(m: Entries<string, seq<Condition>>, r: Entries<string, seq<Condition>>)
    requires Unique(m) && Unique(r)
    ensures Equal(ToggleKeys(ToggleKeys(m, r), r), m, SameDisabled()) <==>
      forall k | k in KeySet(r) :: Has(m, k) ==> SameDisabled()(Get(r, k).value, Get(m, k).value)
  {
    var twice := ToggleKeys(ToggleKeys(m, r), r);
    forall k ensures Get(twice, k) == if Has(r, k) && Has(m, k) then Get(r, k) else Get(m, k) {
      ToggleKeysGet(m, r, k);
      ToggleKeysGet(ToggleKeys(m, r), r, k);
    }
    ToggleKeysGet(m, r, "");
    ToggleKeysGet(ToggleKeys(m, r), r, "");
    EqualIsSameMap(twice, m, SameDisabled());
    forall k ensures k in KeySet(twice) <==> k in KeySet(m) {
      assert Get(twice, k).Some? <==> Get(m, k).Some?;
    }
    forall k | k in KeySet(m) ensures Get(m, k).Some? && SameDisabled()(Get(m, k).value, Get(m, k).value) {
      SameDisabledReflexive(Get(m, k).value);
    }
  }
}
