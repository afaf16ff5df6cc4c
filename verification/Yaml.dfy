/** Writing the configuration as a YAML node tree, and reading it back. */
module Yaml {
  import opened Seqs
  import opened OrderedMap
  import opened Modes
  import opened Config
  import opened YamlText
  import E = YamlElements
  import OrderedSet
  import Layout
  import Scale

  datatype Node = Scalar(text: string) | Sequence(items: seq<Node>) | Mapping(pairs: Pairs)

  type Pairs = seq<(string, Node)>

  // -------- writing --------

  /** A pair, or nothing when there is no value to write. */
  function Pair(name: string, node: Option<Node>): Pairs {
    if node.Some? then [(name, node.value)] else []
  }

  function Text(s: Option<string>): Option<Node> {
    if s.Some? then Some(Scalar(s.value)) else None
  }

  function WriteItems(names: seq<string>): seq<Node> {
    seq(|names|, i requires 0 <= i < |names| => Scalar(names[i]))
  }

  /** yaml_map_add_sset: an empty set is an empty scalar. */
  function WriteNames(names: seq<string>): Node {
    if names == [] then Scalar("") else Sequence(WriteItems(names))
  }

  function WriteInt(k: Codec, n: int): Option<Node> {
    if n == 0 then None else Some(Scalar(k.showInt(n)))
  }

  function WriteReal(k: Codec, x: real): Option<Node> {
    if x == 0.0 then None else Some(Scalar(k.showReal(x)))
  }

  /** The entries that have a value to write. */
  function WriteEntries<V>(m: Entries<string, V>, write: V -> Option<Node>): Pairs {
    if m == [] then [] else Pair(m[0].0, write(m[0].1)) + WriteEntries(m[1..], write)
  }

  /** An empty map is an empty scalar. */
  function WriteMap<V>(m: Entries<string, V>, write: V -> Option<Node>): Node {
    if m == [] then Scalar("") else Mapping(WriteEntries(m, write))
  }

  function WriteScale(k: Codec): int -> Option<Node> {
    (v: int) => WriteReal(k, v as real / 1000.0)
  }

  function WriteTransform(): nat -> Option<Node> {
    (t: nat) => Text(TransformName(t))
  }

  function WriteHz(k: Codec, m: Mode): Option<Node> {
    if m.refresh == -1 then None else Some(Scalar(k.showReal(m.refresh as real / 1000.0)))
  }

  /** MAX and MAX_PREFERRED_REFRESH are written alone. */
  function WriteMode(k: Codec): Mode -> Option<Node> {
    (m: Mode) =>
      if m.max then Some(Mapping([("MAX", Scalar("TRUE"))]))
      else if m.maxPreferredRefresh then Some(Mapping([("MAX_PREFERRED_REFRESH", Scalar("TRUE"))]))
      else
        Some(Mapping([("WIDTH", Scalar(k.showInt(m.width))), ("HEIGHT", Scalar(k.showInt(m.height)))]
                     + Pair("HZ", WriteHz(k, m))))
  }

  /** yaml_map_from_condition */
  function WriteCondition(c: Condition): Node {
    Mapping(Pair("PLUGGED", if c.plugged == [] then None else Some(WriteNames(c.plugged)))
      + (Pair("UNPLUGGED", if c.unplugged == [] then None else Some(WriteNames(c.unplugged)))
         + Pair("LID", if c.lid.Some? then Some(Scalar(LidName(c.lid.value))) else None)))
  }

  function WriteConditions(cs: seq<Condition>): seq<Node> {
    seq(|cs|, i requires 0 <= i < |cs| => WriteCondition(cs[i]))
  }

  function WriteDisabled(): seq<Condition> -> Option<Node> {
    cs => Some(if cs == [] then Scalar("") else Mapping([("IF", Sequence(WriteConditions(cs)))]))
  }

  /** What is written for one element of the configuration, if anything. */
  function WriteElement(k: Codec, c: Cfg, e: E.Element): Option<Node> {
    match e
    case Arrange => if c.arrange.Some? then Some(Scalar(ArrangeName(c.arrange.value))) else None
    case Align => if c.align.Some? then Some(Scalar(AlignName(c.align.value))) else None
    case Order => Some(WriteNames(c.order))
    case Scaling => if c.scaling.Some? then Some(Scalar(OnOffName(c.scaling.value))) else None
    case RoundTo => if c.roundTo.Some? then Some(Scalar(RoundToName(c.roundTo.value))) else None
    case RoundStrategy => if c.roundStrategy.Some? then Some(Scalar(StrategyName(c.roundStrategy.value))) else None
    case AutoScale => if c.autoScale.Some? then Some(Scalar(OnOffName(c.autoScale.value))) else None
    case Dpi => WriteInt(k, c.dpi)
    case ScaleMin => WriteReal(k, c.scaleMin)
    case ScaleMax => WriteReal(k, c.scaleMax)
    case Scales => Some(WriteMap(c.scales, WriteScale(k)))
    case Modes => Some(WriteMap(c.modes, WriteMode(k)))
    case Transforms => Some(WriteMap(c.transforms, WriteTransform()))
    case VrrOff => Some(WriteNames(c.vrrOff))
    case Callback => Text(c.callback)
    case LidMonitor => if c.lidMonitor.Some? then Some(Scalar(OnOffName(c.lidMonitor.value))) else None
    case LogThreshold => if c.logThreshold.Some? then Some(Scalar(ThresholdName(c.logThreshold.value))) else None
    case Disabled => Some(WriteMap(c.disableds, WriteDisabled()))
  }

  /** The order in which they are written. */
  const ELEMENTS: seq<E.Element> := [
    E.Arrange, E.Align, E.Order, E.Scaling, E.RoundTo, E.RoundStrategy, E.AutoScale, E.Dpi, E.ScaleMin, E.ScaleMax,
    E.Scales, E.Modes, E.Transforms, E.VrrOff, E.Callback, E.LidMonitor, E.LogThreshold, E.Disabled]

  function WriteAll(k: Codec, c: Cfg, es: seq<E.Element>): Pairs {
    if es == [] then [] else Pair(E.ElementName(es[0]), WriteElement(k, c, es[0])) + WriteAll(k, c, es[1..])
  }

  /** yaml_map_from_cfg */
  function Write(k: Codec, c: Cfg): Pairs {
    WriteAll(k, c, ELEMENTS)
  }

  // -------- reading --------

  /** yaml_map_to_spmap: the last of equal keys counts. */
  function ToMap(pairs: Pairs): Entries<string, Node> {
    PutAll([], pairs)
  }

  function ReadInt(k: Codec, n: Node): Option<int> {
    if n.Scalar? then k.readInt(n.text) else None
  }

  function ReadReal(k: Codec, n: Node): Option<real> {
    if n.Scalar? then k.readReal(n.text) else None
  }

  function ReadEnum<V>(n: Node, val: string -> Option<V>): Option<V> {
    if n.Scalar? then val(n.text) else None
  }

  function ReadBool(n: Node): Option<bool> {
    if n.Scalar? && OnOffVal(n.text).Some? then Some(OnOffVal(n.text).value.On?) else None
  }

  function OrElse<V>(v: Option<V>, default: V): Option<V> {
    if v.Some? then v else Some(default)
  }

  /** One item of yaml_seq_into_name_desc_sset. */
  function AddName(k: Codec, to: seq<string>, item: Node): seq<string> {
    if item.Scalar? && ValidName(k, item.text) then OrderedSet.Add(to, item.text, SameString()) else to
  }

  function AddItems(k: Codec, to: seq<string>, items: seq<Node>): seq<string>
    decreases |items|
  {
    if items == [] then to else AddItems(k, AddName(k, to, items[0]), items[1..])
  }

  /** yaml_seq_into_name_desc_sset */
  function ReadNames(k: Codec, to: seq<string>, n: Node): seq<string> {
    if n.Sequence? then AddItems(k, to, n.items) else to
  }

  /** What a loop of the yaml_map_into functions does with an entry: an invalid one is skipped. */
  function IntoEntry<V>(k: Codec, to: Entries<string, V>, key: string, v: Option<V>, overwrite: bool): Entries<string, V> {
    if !ValidName(k, key) || v.None? || (Has(to, key) && !overwrite) then to else Put(to, key, v.value)
  }

  function IntoMap<V>(k: Codec, to: Entries<string, V>, m: Pairs, read: Node -> Option<V>, overwrite: bool): Entries<string, V>
    decreases |m|
  {
    if m == [] then to else IntoMap(k, IntoEntry(k, to, m[0].0, read(m[0].1), overwrite), m[1..], read, overwrite)
  }

  /** A map is read key by key; anything else, the old schema included, leaves it as it is. */
  function ReadMap<V>(k: Codec, to: Entries<string, V>, n: Node, read: Node -> Option<V>, overwrite: bool): Entries<string, V> {
    if n.Mapping? then IntoMap(k, to, ToMap(n.pairs), read, overwrite) else to
  }

  function ReadScale(k: Codec): Node -> Option<int> {
    (n: Node) => var x := ReadReal(k, n); if x.None? || x.value <= 0.0 then None else Some(Scale.Round(x.value * 1000.0))
  }

  function ReadTransform(): Node -> Option<nat> {
    (n: Node) => ReadEnum(n, TransformVal)
  }

  /** A value that may be absent, but not malformed. */
  function Field<V>(m: Entries<string, Node>, key: string, read: Node -> Option<V>, absent: V): Option<V> {
    if Has(m, key) then read(Get(m, key).value) else Some(absent)
  }

  function ReadHz(k: Codec): Node -> Option<int> {
    (n: Node) => var hz := ReadReal(k, n); if hz.None? then None else Some(Scale.Round(hz.value * 1000.0))
  }

  /** yaml_map_to_cfg_mode */
  function ReadMode(k: Codec): Node -> Option<Mode> {
    (n: Node) =>
      if !n.Mapping? then None
      else
        var m := ToMap(n.pairs);
        var width := Field(m, "WIDTH", (n: Node) => ReadInt(k, n), -1);
        var height := Field(m, "HEIGHT", (n: Node) => ReadInt(k, n), -1);
        var hz := Field(m, "HZ", ReadHz(k), -1);
        var max, pref := Field(m, "MAX", ReadBool, false), Field(m, "MAX_PREFERRED_REFRESH", ReadBool, false);
        if width.None? || height.None? || hz.None? || max.None? || pref.None? then None
        else Some(Mode(width.value, height.value, hz.value, max.value, pref.value, false))
  }

  /** yaml_map_into_conditions, up to adding it: a condition without any content is none. */
  function ReadCondition(k: Codec, n: Node): Option<Condition> {
    if !n.Mapping? then None
    else
      var m := ToMap(n.pairs);
      var plugged := if Has(m, "PLUGGED") then ReadNames(k, [], Get(m, "PLUGGED").value) else [];
      var unplugged := if Has(m, "UNPLUGGED") then ReadNames(k, [], Get(m, "UNPLUGGED").value) else [];
      var lid := if Has(m, "LID") then ReadEnum(Get(m, "LID").value, LidVal) else None;
      if (Has(m, "LID") && lid.None?) || (plugged == [] && unplugged == [] && lid.None?) then None
      else Some(Condition(plugged, unplugged, lid))
  }

  function AddCondition(k: Codec, to: seq<Condition>, n: Node): seq<Condition> {
    var c := ReadCondition(k, n);
    if c.Some? then OrderedSet.Add(to, c.value, SameCondition()) else to
  }

  function AddConditions(k: Codec, to: seq<Condition>, items: seq<Node>): seq<Condition>
    decreases |items|
  {
    if items == [] then to else AddConditions(k, AddCondition(k, to, items[0]), items[1..])
  }

  /** A scalar is unconditional; a map must have some condition (yaml_map_to_disabled_cond). */
  function ReadDisabled(k: Codec): Node -> Option<seq<Condition>> {
    (n: Node) => match n
      case Scalar(_) => Some([])
      case Sequence(_) => None
      case Mapping(pairs) =>
        var m := ToMap(pairs);
        if !Has(m, "IF") || !Get(m, "IF").value.Sequence? then None
        else
          var cs := AddConditions(k, [], Get(m, "IF").value.items);
          if cs == [] then None else Some(cs)
  }

  function ReadRoundTo(k: Codec, n: Node): Option<Scale.Base> {
    var x := ReadReal(k, n);
    OrElse(if x.Some? then RoundToVal(x.value) else None, Scale.ROUND_TO_DEFAULT)
  }

  /** One turn of yaml_map_to_cfg. */
  function ReadElement(k: Codec, c: Cfg, e: E.Element, n: Node): Cfg {
    match e
    case Arrange => c.(arrange := OrElse(ReadEnum(n, ArrangeVal), Layout.Row))
    case Align => c.(align := OrElse(ReadEnum(n, AlignVal), Layout.Top))
    case Order => c.(order := ReadNames(k, c.order, n))
    case Scaling => c.(scaling := OrElse(ReadEnum(n, OnOffVal), On))
    case RoundTo => c.(roundTo := ReadRoundTo(k, n))
    case RoundStrategy => c.(roundStrategy := OrElse(ReadEnum(n, StrategyVal), Scale.Nearest))
    case AutoScale => c.(autoScale := OrElse(ReadEnum(n, OnOffVal), On))
    case Dpi => c.(dpi := OrElse(ReadInt(k, n), DPI_DEFAULT).value)
    case ScaleMin => c.(scaleMin := OrElse(ReadReal(k, n), MIN_DEFAULT).value)
    case ScaleMax => c.(scaleMax := OrElse(ReadReal(k, n), MAX_DEFAULT).value)
    case Scales => c.(scales := ReadMap(k, c.scales, n, ReadScale(k), false))
    case Modes => c.(modes := ReadMap(k, c.modes, n, ReadMode(k), false))
    case Transforms => c.(transforms := ReadMap(k, c.transforms, n, ReadTransform(), false))
    case VrrOff => c.(vrrOff := ReadNames(k, c.vrrOff, n))
    case Callback => c.(callback := if n.Scalar? then Some(n.text) else Some(CALLBACK_DEFAULT))
    case LidMonitor => c.(lidMonitor := OrElse(ReadEnum(n, OnOffVal), On))
    case LogThreshold => c.(logThreshold := ReadEnum(n, ThresholdVal))
    case Disabled =>
      var disableds := ReadMap(k, c.disableds, n, ReadDisabled(k), true);
      c.(disableds := disableds,
         disabledsEmpty := if n.Mapping? then disableds == [] else n.Scalar? || c.disabledsEmpty)
  }

  function ReadPair(k: Codec, c: Cfg, key: string, n: Node): Cfg {
    var e := E.ElementVal(key);
    if e.Some? then ReadElement(k, c, e.value, n) else c
  }

  function ReadPairs(k: Codec, c: Cfg, pairs: Pairs): Cfg
    decreases |pairs|
  {
    if pairs == [] then c else ReadPairs(k, ReadPair(k, c, pairs[0].0, pairs[0].1), pairs[1..])
  }

  /** yaml_map_to_cfg */
  function Read(k: Codec, pairs: Pairs): Cfg {
    ReadPairs(k, INITIAL, pairs)
  }
}
