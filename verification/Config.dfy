/** The configuration, its equality, and the conditions that disable a display. */
module Config {
  import opened Seqs
  import opened OrderedMap
  import opened Names
  import opened Modes
  import OrderedSet
  import Layout
  import Scale

  datatype OnOff = On | Off
  datatype LidCondition = Closed | Open | NotPresent
  datatype LogThreshold = Debug | Info | Warning | Error | Fatal

  /** All that is given must be met. */
  datatype Condition = Condition(plugged: seq<string>, unplugged: seq<string>, lid: Option<LidCondition>)

  /** None, empty or zero means that the user has not set it; no conditions means always disabled. */
  datatype Cfg = Cfg(
    arrange: Option<Layout.Arrange>,
    align: Option<Layout.Align>,
    order: seq<string>,
    scaling: Option<OnOff>,
    roundStrategy: Option<Scale.Strategy>,
    roundTo: Option<Scale.Base>,
    autoScale: Option<OnOff>,
    dpi: int,
    scaleMin: real,
    scaleMax: real,
    scales: Entries<string, int>,
    modes: Entries<string, Mode>,
    transforms: Entries<string, nat>,
    vrrOff: seq<string>,
    callback: Option<string>,
    lidMonitor: Option<OnOff>,
    logThreshold: Option<LogThreshold>,
    disableds: Entries<string, seq<Condition>>,
    disabledsEmpty: bool)

  /** cfg_init */
  const INITIAL: Cfg := Cfg(None, None, [], None, None, None, None, 0, 0.0, 0.0, [], [], [], [], None, None, None, [], false)

  const DPI_DEFAULT: int := Scale.AUTO_SCALE_DPI_DEFAULT
  const MIN_DEFAULT: real := 1.0
  const MAX_DEFAULT: real := -1.0
  const CALLBACK_DEFAULT: string := "notify-send \"way-displays ${CALLBACK_LEVEL}\" \"${CALLBACK_MSG}\""
  const LAPTOP_DEFAULT: string := "!^eDP-[0-9]"

  // -------- equality --------

  function SameString(): (string, string) -> bool {
    (a, b) => a == b
  }

  predicate SameNames(a: seq<string>, b: seq<string>) {
    OrderedSet.Equal(a, b, SameString())
  }

  function SameCondition(): (Condition, Condition) -> bool {
    (a: Condition, b: Condition) => a.lid == b.lid && SameNames(a.plugged, b.plugged) && SameNames(a.unplugged, b.unplugged)
  }

  /** disabled_equal */
  function SameDisabled(): (seq<Condition>, seq<Condition>) -> bool {
    (a, b) => OrderedSet.Equal(a, b, SameCondition())
  }

  function SameMode(): (Mode, Mode) -> bool {
    (a, b) => a == b
  }

  function SameInt(): (int, int) -> bool {
    (a, b) => a == b
  }

  function SameNat(): (nat, nat) -> bool {
    (a, b) => a == b
  }

  /** What cfg_equal compares one by one. */
  predicate SameScalars(a: Cfg, b: Cfg) {
    && a.align == b.align && a.arrange == b.arrange
    && a.autoScale == b.autoScale && a.dpi == b.dpi && a.scaleMax == b.scaleMax && a.scaleMin == b.scaleMin
    && a.lidMonitor == b.lidMonitor && a.logThreshold == b.logThreshold
    && a.roundStrategy == b.roundStrategy && a.roundTo == b.roundTo
    && a.scaling == b.scaling && a.callback == b.callback
  }

  /** cfg_equal: the marker of an empty DISABLED map plays no part. */
  predicate CfgEqual(a: Cfg, b: Cfg) {
    && SameScalars(a, b)
    && Equal(a.disableds, b.disableds, SameDisabled())
    && Equal(a.modes, b.modes, SameMode())
    && Equal(a.scales, b.scales, SameInt())
    && Equal(a.transforms, b.transforms, SameNat())
    && SameNames(a.vrrOff, b.vrrOff)
    && SameNames(a.order, b.order)
  }

  /** The names of a condition are sets of their own. */
  function NamesDistinct(): Condition -> bool {
    (c: Condition) => Distinct(c.plugged) && Distinct(c.unplugged)
  }

  /** A set of conditions, none equal to another. */
  function ConditionsDistinct(): seq<Condition> -> bool {
    cs => OrderedSet.All(cs, NamesDistinct()) && OrderedSet.NoTwins(cs, SameCondition())
  }

  /** What the containers keep: unique keys and no equal elements, in conditions too. */
  ghost predicate WellFormed(c: Cfg) {
    && AllValues(c.disableds, ConditionsDistinct())
    && Unique(c.scales) && Unique(c.modes) && Unique(c.transforms) && Unique(c.disableds)
    && Distinct(c.order) && Distinct(c.vrrOff)
  }

  lemma SameNamesReflexive(s: seq<string>)
    ensures SameNames(s, s)
  {
    forall i | 0 <= i < |s| ensures OrderedSet.Has(s, s[i], SameString()) {
      OrderedSet.HasBy(s, s[i], SameString(), i);
    }
  }

  lemma SameConditionReflexive(c: Condition)
    ensures SameCondition()(c, c)
  {
    SameNamesReflexive(c.plugged);
    SameNamesReflexive(c.unplugged);
  }

  lemma SameDisabledReflexive(s: seq<Condition>)
    ensures SameDisabled()(s, s)
  {
    forall i | 0 <= i < |s| ensures OrderedSet.Has(s, s[i], SameCondition()) {
      SameConditionReflexive(s[i]);
      OrderedSet.HasBy(s, s[i], SameCondition(), i);
    }
  }

  lemma EqualReflexive<V>(m: Entries<string, V>, same: (V, V) -> bool)
    requires Unique(m) && forall i | 0 <= i < |m| :: same(m[i].1, m[i].1)
    ensures Equal(m, m, same)
  {
    forall i | 0 <= i < |m| ensures Get(m, m[i].0).Some? && same(Get(m, m[i].0).value, m[i].1) {
      EntryAt(m, i);
    }
  }

  lemma CfgEqualReflexive(c: Cfg)
    requires WellFormed(c)
    ensures CfgEqual(c, c)
  {
    forall i | 0 <= i < |c.disableds| ensures SameDisabled()(c.disableds[i].1, c.disableds[i].1) {
      SameDisabledReflexive(c.disableds[i].1);
    }
    EqualReflexive(c.disableds, SameDisabled());
    EqualReflexive(c.modes, SameMode());
    EqualReflexive(c.scales, SameInt());
    EqualReflexive(c.transforms, SameNat());
    SameNamesReflexive(c.vrrOff);
    SameNamesReflexive(c.order);
  }

  // -------- names as sets --------

  lemma HasName(s: seq<string>, n: string)
    ensures OrderedSet.Has(s, n, SameString()) <==> n in s
  {
  }

  lemma DistinctNoTwins(s: seq<string>)
    ensures Distinct(s) <==> OrderedSet.NoTwins(s, SameString())
  {
  }

  /** Names are compared by equality, so any may be compared. */
  lemma AnyName()
    ensures OrderedSet.Equivalence(SameString(), OrderedSet.Any())
  {
  }

  lemma SameNamesIff(a: seq<string>, b: seq<string>)
    requires Distinct(a) && Distinct(b)
    ensures SameNames(a, b) <==> forall n :: n in a <==> n in b
  {
    DistinctNoTwins(a);
    DistinctNoTwins(b);
    AnyName();
    OrderedSet.EqualIsSameSet(a, b, SameString(), OrderedSet.Any());
    if SameNames(a, b) {
      forall n ensures n in a <==> n in b {
        HasName(a, n);
        HasName(b, n);
      }
    }
    if forall n :: n in a <==> n in b {
      forall i | 0 <= i < |a| ensures OrderedSet.Has(b, a[i], SameString()) {
        HasName(b, a[i]);
      }
      forall i | 0 <= i < |b| ensures OrderedSet.Has(a, b[i], SameString()) {
        HasName(a, b[i]);
      }
    }
  }

  // -------- equality is an equivalence --------

  /** Two conditions are equal when they want the same of the lid, and name the same displays, in whatever order. */
  lemma SameConditionIff(a: Condition, b: Condition)
    requires NamesDistinct()(a) && NamesDistinct()(b)
    ensures SameCondition()(a, b) <==>
      a.lid == b.lid && (forall n :: n in a.plugged <==> n in b.plugged) && forall n :: n in a.unplugged <==> n in b.unplugged
  {
    SameNamesIff(a.plugged, b.plugged);
    SameNamesIff(a.unplugged, b.unplugged);
  }

  /** Equality of conditions is one, of conditions that the containers build. */
  lemma SameConditionEquivalence()
    ensures OrderedSet.Equivalence(SameCondition(), NamesDistinct())
  {
    var same, ok := SameCondition(), NamesDistinct();
    forall x | ok(x) ensures same(x, x) {
      SameConditionReflexive(x);
    }
    forall x, y | ok(x) && ok(y) ensures same(x, y) == same(y, x) {
      SameNamesIff(x.plugged, y.plugged);
      SameNamesIff(y.plugged, x.plugged);
      SameNamesIff(x.unplugged, y.unplugged);
      SameNamesIff(y.unplugged, x.unplugged);
    }
    forall x, y, z | ok(x) && ok(y) && ok(z) && same(x, y) && same(y, z) ensures same(x, z) {
      SameNamesTransitive(x.plugged, y.plugged, z.plugged);
      SameNamesTransitive(x.unplugged, y.unplugged, z.unplugged);
    }
  }

  lemma SameNamesSymmetric(a: seq<string>, b: seq<string>)
    requires Distinct(a) && Distinct(b)
    ensures SameNames(a, b) == SameNames(b, a)
  {
    SameNamesIff(a, b);
    SameNamesIff(b, a);
  }

  lemma SameNamesTransitive(a: seq<string>, b: seq<string>, c: seq<string>)
    requires SameNames(a, b) && SameNames(b, c)
    ensures SameNames(a, c)
  {
    AnyName();
    OrderedSet.EqualTransitive(a, b, c, SameString(), OrderedSet.Any());
  }

  /** It is not one of all conditions: names given twice can make up for names that are missing. */
  lemma SameConditionNotSymmetric()
    ensures exists x, y :: SameCondition()(x, y) && !SameCondition()(y, x)
  {
    var x, y := Condition(["a", "b"], [], None), Condition(["a", "a"], [], None);
    SameNamesReflexive([]);
    OrderedSet.HasBy(x.plugged, "a", SameString(), 0);
    assert !OrderedSet.Has(y.plugged, "b", SameString());
    assert x.plugged[1] == "b";
    assert SameCondition()(x, y) && !SameCondition()(y, x);
  }

  /** So is equality of the values of DISABLED: sets of such conditions. */
  lemma SameDisabledEquivalence()
    ensures OrderedSet.Equivalence(SameDisabled(), ConditionsDistinct())
  {
    SameConditionEquivalence();
    var same, ok, eq, fit := SameDisabled(), ConditionsDistinct(), SameCondition(), NamesDistinct();
    forall x | ok(x) ensures same(x, x) {
      SameDisabledReflexive(x);
    }
    forall x, y | ok(x) && ok(y) ensures same(x, y) == same(y, x) {
      OrderedSet.EqualSymmetric(x, y, eq, fit);
    }
    forall x, y, z | ok(x) && ok(y) && ok(z) && same(x, y) && same(y, z) ensures same(x, z) {
      OrderedSet.EqualTransitive(x, y, z, eq, fit);
    }
  }

  /** Main result: of configurations as the containers build them, equality is symmetric. */
  lemma CfgEqualSymmetric(a: Cfg, b: Cfg)
    requires WellFormed(a) && WellFormed(b)
    ensures CfgEqual(a, b) == CfgEqual(b, a)
  {
    SameDisabledEquivalence();
    hide ConditionsDistinct, SameDisabled;
    EqualSymmetric(a.disableds, b.disableds, SameDisabled(), ConditionsDistinct());
    EqualSymmetric(a.modes, b.modes, SameMode(), OrderedSet.Any());
    EqualSymmetric(a.scales, b.scales, SameInt(), OrderedSet.Any());
    EqualSymmetric(a.transforms, b.transforms, SameNat(), OrderedSet.Any());
    SameNamesSymmetric(a.vrrOff, b.vrrOff);
    SameNamesSymmetric(a.order, b.order);
  }

  /** Main result: and transitive. */
  lemma CfgEqualTransitive(a: Cfg, b: Cfg, c: Cfg)
    requires WellFormed(a) && WellFormed(b) && WellFormed(c) && CfgEqual(a, b) && CfgEqual(b, c)
    ensures CfgEqual(a, c)
  {
    SameDisabledEquivalence();
    hide ConditionsDistinct, SameDisabled;
    EqualTransitive(a.disableds, b.disableds, c.disableds, SameDisabled(), ConditionsDistinct());
    EqualTransitive(a.modes, b.modes, c.modes, SameMode(), OrderedSet.Any());
    EqualTransitive(a.scales, b.scales, c.scales, SameInt(), OrderedSet.Any());
    EqualTransitive(a.transforms, b.transforms, c.transforms, SameNat(), OrderedSet.Any());
    SameNamesTransitive(a.vrrOff, b.vrrOff, c.vrrOff);
    SameNamesTransitive(a.order, b.order, c.order);
  }

  // -------- conditions --------

  /** ppmap_find of the heads by name. */
  predicate Plugged(rx: Regex, heads: seq<Name>, nameDesc: string) {
    exists i | 0 <= i < |heads| :: Matches(rx, heads[i], nameDesc)
  }

  /** The lid is absent, or it is closed or not. */
  predicate LidMet(lid: Option<bool>, failLidClosed: bool, wanted: Option<LidCondition>) {
    match wanted
    case None => true
    case Some(Closed) => !failLidClosed && lid == Some(true)
    case Some(Open) => lid == Some(false)
    case Some(NotPresent) => lid == None
  }

  predicate ConditionMet(rx: Regex, heads: seq<Name>, lid: Option<bool>, failLidClosed: bool, c: Condition) {
    && (forall i | 0 <= i < |c.plugged| :: Plugged(rx, heads, c.plugged[i]))
    && (forall i | 0 <= i < |c.unplugged| :: !Plugged(rx, heads, c.unplugged[i]))
    && LidMet(lid, failLidClosed, c.lid)
  }

  /** A DISABLED entry that is in force for a head it names. */
  predicate InForce(rx: Regex, heads: seq<Name>, lid: Option<bool>, failLidClosed: bool, conditions: seq<Condition>) {
    conditions == [] || exists i | 0 <= i < |conditions| :: ConditionMet(rx, heads, lid, failLidClosed, conditions[i])
  }

  predicate DisabledApplies(rx: Regex, heads: seq<Name>, lid: Option<bool>, failLidClosed: bool,
      disableds: Entries<string, seq<Condition>>, head: Name)
  {
    exists i | 0 <= i < |disableds| ::
      Matches(rx, head, disableds[i].0) && InForce(rx, heads, lid, failLidClosed, disableds[i].1)
  }

  method AnyMatches(rx: Regex, heads: seq<Name>, nameDesc: string) returns (found: bool)
    ensures found == Plugged(rx, heads, nameDesc)
  {
    for i := 0 to |heads|
      invariant forall j | 0 <= j < i :: !Matches(rx, heads[j], nameDesc)
    {
      if Matches(rx, heads[i], nameDesc) {
        return true;
      }
    }
    return false;
  }

  method CfgConditionMet(rx: Regex, heads: seq<Name>, lid: Option<bool>, failLidClosed: bool, c: Condition)
    returns (met: bool)
    ensures met == ConditionMet(rx, heads, lid, failLidClosed, c)
  {
    for i := 0 to |c.plugged|
      invariant forall j | 0 <= j < i :: Plugged(rx, heads, c.plugged[j])
    {
      var found := AnyMatches(rx, heads, c.plugged[i]);
      if !found {
        return false;
      }
    }
    for i := 0 to |c.unplugged|
      invariant forall j | 0 <= j < i :: !Plugged(rx, heads, c.unplugged[j])
    {
      var found := AnyMatches(rx, heads, c.unplugged[i]);
      if found {
        return false;
      }
    }
    match c.lid {
      case Some(Closed) =>
        if failLidClosed || lid.None? || !lid.value {
          return false;
        }
      case Some(Open) =>
        if lid.None? || lid.value {
          return false;
        }
      case Some(NotPresent) =>
        if lid.Some? {
          return false;
        }
      case None =>
    }
    return true;
  }

  method CfgDisabledAppliesToHead(rx: Regex, heads: seq<Name>, lid: Option<bool>, failLidClosed: bool,
      disableds: Entries<string, seq<Condition>>, head: Name) returns (applies: bool)
    ensures applies == DisabledApplies(rx, heads, lid, failLidClosed, disableds, head)
  {
    for i := 0 to |disableds|
      invariant forall j | 0 <= j < i ::
        !(Matches(rx, head, disableds[j].0) && InForce(rx, heads, lid, failLidClosed, disableds[j].1))
    {
      if Matches(rx, head, disableds[i].0) {
        var conditions := disableds[i].1;
        if |conditions| == 0 {
          return true;
        }
        for k := 0 to |conditions|
          invariant forall l | 0 <= l < k :: !ConditionMet(rx, heads, lid, failLidClosed, conditions[l])
        {
          var met := CfgConditionMet(rx, heads, lid, failLidClosed, conditions[k]);
          if met {
            return true;
          }
        }
      }
    }
    return false;
  }
}
