/** The loops that write and read the configuration, against what they are to write and read. */
module YamlLoops {
  import opened Seqs
  import opened OrderedMap
  import opened Config
  import opened YamlText
  import opened Yaml
  import E = YamlElements
  import OrderedSet
  import Layout
  import Scale

  // -------- writing --------

  /** yaml_map_add_sset */
  method NamesNode(names: seq<string>) returns (n: Node)
    ensures n == WriteNames(names)
  {
    if |names| == 0 {
      return Scalar("");
    }
    var items: seq<Node> := [];
    for i := 0 to |names|
      invariant |items| == i && forall j | 0 <= j < i :: items[j] == Scalar(names[j])
    {
      items := items + [Scalar(names[i])];
    }
    assert items == WriteItems(names);
    n := Sequence(items);
  }

  /** yaml_map_from_scales, yaml_map_from_cfg_modes, yaml_map_from_transforms and yaml_map_from_disableds. */
  method MapNode<V>(m: Entries<string, V>, write: V -> Option<Node>) returns (n: Node)
    ensures n == WriteMap(m, write)
  {
    if |m| == 0 {
      return Scalar("");
    }
    var pairs: Pairs := [];
    for i := 0 to |m|
      invariant pairs + WriteEntries(m[i..], write) == WriteEntries(m, write)
    {
      assert m[i..][0] == m[i] && m[i..][1..] == m[i + 1..];
      pairs := pairs + Pair(m[i].0, write(m[i].1));
    }
    assert m[|m|..] == [];
    n := Mapping(pairs);
  }

  /** yaml_map_from_cfg; the elements are written in their fixed order. */
  method MapFromCfg(k: Codec, c: Cfg) returns (pairs: Pairs)
    ensures pairs == Write(k, c)
  {
    pairs := PairsFor(k, c, ELEMENTS);
  }

  method PairsFor(k: Codec, c: Cfg, es: seq<E.Element>) returns (pairs: Pairs)
    ensures pairs == WriteAll(k, c, es)
  {
    hide WriteElement, WriteAll, E.ElementName, Pair;
    pairs := [];
    assert es[0..] == es && [] + WriteAll(k, c, es) == WriteAll(k, c, es);
    for i := 0 to |es|
      invariant pairs + WriteAll(k, c, es[i..]) == WriteAll(k, c, es)
    {
      WriteStep(k, c, es, i, pairs);
      var n := ElementNode(k, c, es[i]);
      pairs := pairs + Pair(E.ElementName(es[i]), n);
    }
    WriteEnd(k, c, es, pairs);
  }

  lemma WriteStep(k: Codec, c: Cfg, es: seq<E.Element>, i: nat, pairs: Pairs)
    requires i < |es|
    ensures pairs + WriteAll(k, c, es[i..]) ==
            pairs + Pair(E.ElementName(es[i]), WriteElement(k, c, es[i])) + WriteAll(k, c, es[i + 1..])
  {
  }

  lemma WriteEnd(k: Codec, c: Cfg, es: seq<E.Element>, pairs: Pairs)
    ensures pairs + WriteAll(k, c, es[|es|..]) == pairs
  {
  }

  /** yaml_map_add_enum: a value without a name is not written, and an OnOff is written as a boolean. */
  method EnumNode<V>(v: Option<V>, name: V -> string) returns (n: Option<Node>)
    ensures n == if v.Some? then Some(Scalar(name(v.value))) else None
  {
    n := None;
    if v.Some? {
      n := Some(Scalar(name(v.value)));
    }
  }

  /** yaml_map_add_int_nz */
  method IntNode(k: Codec, v: int) returns (n: Option<Node>)
    ensures n == WriteInt(k, v)
  {
    if v == 0 {
      return None;
    }
    n := Some(Scalar(k.showInt(v)));
  }

  /** yaml_map_add_float_nz */
  method RealNode(k: Codec, v: real) returns (n: Option<Node>)
    ensures n == WriteReal(k, v)
  {
    if v == 0.0 {
      return None;
    }
    n := Some(Scalar(k.showReal(v)));
  }

  /** yaml_map_add_str */
  method StrNode(v: Option<string>) returns (n: Option<Node>)
    ensures n == Text(v)
  {
    if v.None? {
      return None;
    }
    n := Some(Scalar(v.value));
  }

  /** One line of yaml_map_from_cfg. */
  method ElementNode(k: Codec, c: Cfg, e: E.Element) returns (n: Option<Node>)
    ensures n == WriteElement(k, c, e)
  {
    hide WriteMap, WriteNames, WriteInt, WriteReal, Text;
    match e {
      case Arrange => n := EnumNode(c.arrange, ArrangeName);
      case Align => n := EnumNode(c.align, AlignName);
      case Order =>
        var order := NamesNode(c.order);
        n := Some(order);
      case Scaling => n := EnumNode(c.scaling, OnOffName);
      case RoundTo => n := EnumNode(c.roundTo, RoundToName);
      case RoundStrategy => n := EnumNode(c.roundStrategy, StrategyName);
      case AutoScale => n := EnumNode(c.autoScale, OnOffName);
      case Dpi => n := IntNode(k, c.dpi);
      case ScaleMin => n := RealNode(k, c.scaleMin);
      case ScaleMax => n := RealNode(k, c.scaleMax);
      case Scales =>
        var scales := MapNode(c.scales, WriteScale(k));
        n := Some(scales);
      case Modes =>
        var modes := MapNode(c.modes, WriteMode(k));
        n := Some(modes);
      case Transforms =>
        var transforms := MapNode(c.transforms, WriteTransform());
        n := Some(transforms);
      case VrrOff =>
        var vrrOff := NamesNode(c.vrrOff);
        n := Some(vrrOff);
      case Callback => n := StrNode(c.callback);
      case LidMonitor => n := EnumNode(c.lidMonitor, OnOffName);
      case LogThreshold => n := EnumNode(c.logThreshold, ThresholdName);
      case Disabled =>
        var disableds := MapNode(c.disableds, WriteDisabled());
        n := Some(disableds);
    }
  }

  // -------- reading --------

  /** yaml_seq_into_name_desc_sset */
  method SeqIntoNames(k: Codec, to: seq<string>, n: Node) returns (names: seq<string>)
    ensures names == ReadNames(k, to, n)
  {
    names := to;
    if !n.Sequence? {
      return;
    }
    for i := 0 to |n.items|
      invariant AddItems(k, names, n.items[i..]) == AddItems(k, to, n.items)
    {
      var item := n.items[i];
      assert n.items[i..][0] == item && n.items[i..][1..] == n.items[i + 1..];
      if item.Scalar? && ValidName(k, item.text) {
        names := OrderedSet.Add(names, item.text, SameString());
      }
    }
    assert n.items[|n.items|..] == [];
  }

  /** yaml_map_to_spmap */
  method MapToEntries(pairs: Pairs) returns (m: Entries<string, Node>)
    ensures m == ToMap(pairs)
  {
    m := [];
    for i := 0 to |pairs|
      invariant PutAll(m, pairs[i..]) == ToMap(pairs)
    {
      assert pairs[i..][0] == pairs[i] && pairs[i..][1..] == pairs[i + 1..];
      m := Put(m, pairs[i].0, pairs[i].1);
    }
    assert pairs[|pairs|..] == [];
  }

  /** yaml_map_into_scales, _cfg_modes and _transforms, which put if absent, and _disableds, which overwrites. */
  method MapInto<V>(k: Codec, to: Entries<string, V>, n: Node, read: Node -> Option<V>, overwrite: bool)
    returns (entries: Entries<string, V>)
    ensures entries == ReadMap(k, to, n, read, overwrite)
  {
    entries := to;
    if !n.Mapping? {
      return;
    }
    var m := MapToEntries(n.pairs);
    for i := 0 to |m|
      invariant IntoMap(k, entries, m[i..], read, overwrite) == IntoMap(k, to, m, read, overwrite)
    {
      var (key, node) := m[i];
      assert m[i..][0] == m[i] && m[i..][1..] == m[i + 1..];
      if !ValidName(k, key) {
        continue;
      }
      var v := read(node);
      if v.None? {
        continue;
      }
      if overwrite || !Has(entries, key) {
        entries := Put(entries, key, v.value);
      }
    }
    assert m[|m|..] == [];
  }

  /** yaml_seq_into_col with yaml_map_into_conditions. */
  method SeqIntoConditions(k: Codec, items: seq<Node>) returns (conditions: seq<Condition>)
    ensures conditions == AddConditions(k, [], items)
  {
    conditions := [];
    for i := 0 to |items|
      invariant AddConditions(k, conditions, items[i..]) == AddConditions(k, [], items)
    {
      assert items[i..][0] == items[i] && items[i..][1..] == items[i + 1..];
      var c := ReadCondition(k, items[i]);
      if c.Some? {
        conditions := OrderedSet.Add(conditions, c.value, SameCondition());
      }
    }
    assert items[|items|..] == [];
  }

  /** yaml_map_to_cfg */
  method MapToCfg(k: Codec, pairs: Pairs) returns (cfg: Cfg)
    ensures cfg == Read(k, pairs)
  {
    hide ReadElement;
    cfg := INITIAL;
    for i := 0 to |pairs|
      invariant ReadPairs(k, cfg, pairs[i..]) == Read(k, pairs)
    {
      assert pairs[i..][0] == pairs[i] && pairs[i..][1..] == pairs[i + 1..];
      var (key, n) := pairs[i];
      var e := E.ElementVal(key);
      if e.Some? {
        cfg := ElementInto(k, cfg, e.value, n);
      }
    }
    assert pairs[|pairs|..] == [];
  }

  /** yaml_scalar_to_enum: none unless a scalar that names a value. */
  method ScalarToEnum<V>(n: Node, val: string -> Option<V>) returns (v: Option<V>)
    ensures v == ReadEnum(n, val)
  {
    v := None;
    if n.Scalar? {
      v := val(n.text);
    }
  }

  /** yaml_scalar_to_enum_def and yaml_scalar_to_on_off_def */
  method ScalarToEnumDef<V>(def: V, n: Node, val: string -> Option<V>) returns (v: V)
    ensures Some(v) == OrElse(ReadEnum(n, val), def)
  {
    var read := ScalarToEnum(n, val);
    if read.None? {
      return def;
    }
    v := read.value;
  }

  /** yaml_scalar_to_int_def */
  method ScalarToIntDef(k: Codec, def: int, n: Node) returns (v: int)
    ensures v == OrElse(ReadInt(k, n), def).value
  {
    v := def;
    if n.Scalar? {
      var read := k.readInt(n.text);
      if read.Some? {
        v := read.value;
      }
    }
  }

  /** yaml_scalar_to_float_def */
  method ScalarToFloatDef(k: Codec, def: real, n: Node) returns (v: real)
    ensures v == OrElse(ReadReal(k, n), def).value
  {
    v := def;
    if n.Scalar? {
      var read := k.readReal(n.text);
      if read.Some? {
        v := read.value;
      }
    }
  }

  /** yaml_scalar_to_string_def */
  method ScalarToStringDef(def: string, n: Node) returns (v: string)
    ensures v == if n.Scalar? then n.text else def
  {
    if n.Scalar? {
      return n.text;
    }
    v := def;
  }

  /** yaml_scalar_to_scale_round_to */
  method ScalarToRoundTo(k: Codec, n: Node) returns (v: Scale.Base)
    ensures Some(v) == ReadRoundTo(k, n)
  {
    v := Scale.ROUND_TO_DEFAULT;
    if n.Scalar? {
      var read := k.readReal(n.text);
      if read.Some? {
        var b := RoundToVal(read.value);
        if b.Some? {
          v := b.value;
        }
      }
    }
  }

  /** The switch of yaml_map_to_cfg. */
  method ElementInto(k: Codec, c: Cfg, e: E.Element, n: Node) returns (cfg: Cfg)
    ensures cfg == ReadElement(k, c, e, n)
  {
    hide ReadMap, ReadNames, ReadEnum, ReadInt, ReadReal, ReadRoundTo;
    cfg := c;
    match e {
      case Order =>
        var order := SeqIntoNames(k, c.order, n);
        cfg := cfg.(order := order);
      case RoundTo =>
        var roundTo := ScalarToRoundTo(k, n);
        cfg := cfg.(roundTo := Some(roundTo));
      case Dpi =>
        var dpi := ScalarToIntDef(k, DPI_DEFAULT, n);
        cfg := cfg.(dpi := dpi);
      case ScaleMin =>
        var scaleMin := ScalarToFloatDef(k, MIN_DEFAULT, n);
        cfg := cfg.(scaleMin := scaleMin);
      case ScaleMax =>
        var scaleMax := ScalarToFloatDef(k, MAX_DEFAULT, n);
        cfg := cfg.(scaleMax := scaleMax);
      case Scales =>
        var scales := MapInto(k, c.scales, n, ReadScale(k), false);
        cfg := cfg.(scales := scales);
      case Modes =>
        var modes := MapInto(k, c.modes, n, ReadMode(k), false);
        cfg := cfg.(modes := modes);
      case Transforms =>
        var transforms := MapInto(k, c.transforms, n, ReadTransform(), false);
        cfg := cfg.(transforms := transforms);
      case VrrOff =>
        var vrrOff := SeqIntoNames(k, c.vrrOff, n);
        cfg := cfg.(vrrOff := vrrOff);
      case Callback =>
        var callback := ScalarToStringDef(CALLBACK_DEFAULT, n);
        cfg := cfg.(callback := Some(callback));
      case Disabled =>
        var disableds := MapInto(k, c.disableds, n, ReadDisabled(k), true);
        cfg := cfg.(disableds := disableds);
        if n.Mapping? {
          cfg := cfg.(disabledsEmpty := |disableds| == 0);
        } else if n.Scalar? {
          cfg := cfg.(disabledsEmpty := true);
        }
      case _ => cfg := EnumInto(c, e, n);
    }
  }

  /** The values of the same switch that are read by name. */
  method EnumInto(c: Cfg, e: E.Element, n: Node) returns (cfg: Cfg)
    requires e.Arrange? || e.Align? || e.Scaling? || e.AutoScale? || e.LidMonitor? || e.RoundStrategy? || e.LogThreshold?
    ensures forall k :: cfg == ReadElement(k, c, e, n)
  {
    hide ReadEnum;
    cfg := c;
    match e {
      case Arrange =>
        var arrange := ScalarToEnumDef(Layout.Row, n, ArrangeVal);
        cfg := cfg.(arrange := Some(arrange));
      case Align =>
        var align := ScalarToEnumDef(Layout.Top, n, AlignVal);
        cfg := cfg.(align := Some(align));
      case Scaling =>
        var scaling := ScalarToEnumDef(On, n, OnOffVal);
        cfg := cfg.(scaling := Some(scaling));
      case RoundStrategy =>
        var roundStrategy := ScalarToEnumDef(Scale.Nearest, n, StrategyVal);
        cfg := cfg.(roundStrategy := Some(roundStrategy));
      case AutoScale =>
        var autoScale := ScalarToEnumDef(On, n, OnOffVal);
        cfg := cfg.(autoScale := Some(autoScale));
      case LidMonitor =>
        var lidMonitor := ScalarToEnumDef(On, n, OnOffVal);
        cfg := cfg.(lidMonitor := Some(lidMonitor));
      case LogThreshold =>
        var logThreshold := ScalarToEnum(n, ThresholdVal);
        cfg := cfg.(logThreshold := logThreshold);
    }
  }
}
