/** A written configuration reads back as it was. */
module YamlRoundTrip {
  import opened Seqs
  import opened OrderedMap
  import opened Modes
  import opened Config
  import opened Merge
  import opened YamlText
  import opened Yaml
  import E = YamlElements
  import OrderedSet
  import Scale

  // -------- maps of nodes --------

  lemma {:induction false} PutAllOn(pairs: Pairs, i: nat)
    requires Unique(pairs) && i <= |pairs|
    ensures PutAll(pairs[..i], pairs[i..]) == pairs
    decreases |pairs| - i
  {
    if i < |pairs| {
      assert !Has(pairs[..i], pairs[i].0) by {
        assert forall j | 0 <= j < i :: Keys(pairs[..i])[j] == Keys(pairs)[j] != Keys(pairs)[i];
      }
      assert Put(pairs[..i], pairs[i].0, pairs[i].1) == pairs[..i + 1];
      assert pairs[i..][0] == pairs[i] && pairs[i..][1..] == pairs[i + 1..];
      PutAllOn(pairs, i + 1);
    } else {
      assert pairs[..i] == pairs && pairs[i..] == [];
    }
  }

  /** Without equal keys, the map has exactly the pairs, in their order. */
  lemma ToMapIs(pairs: Pairs)
    requires Unique(pairs)
    ensures ToMap(pairs) == pairs
  {
    PutAllOn(pairs, 0);
    assert pairs[..0] == [] && pairs[0..] == pairs;
  }

  lemma GetFirst(e: (string, Node), rest: Pairs, key: string)
    ensures Get([e] + rest, key) == if e.0 == key then Some(e.1) else Get(rest, key)
  {
    var all := [e] + rest;
    assert all[0] == e && all[1..] == rest;
    assert IndexOf(all, key) == if e.0 == key then 0 else 1 + IndexOf(rest, key);
  }

  lemma UniqueFirst(e: (string, Node), rest: Pairs)
    requires Unique(rest) && Get(rest, e.0).None?
    ensures Unique([e] + rest)
  {
    assert Keys([e] + rest) == [e.0] + Keys(rest);
  }

  /** An optional pair comes first, and is the one that counts for its key. */
  lemma PairFirst(name: string, node: Option<Node>, rest: Pairs, key: string)
    ensures Get(Pair(name, node) + rest, key) == if node.Some? && name == key then node else Get(rest, key)
    ensures Unique(rest) && Get(rest, name).None? ==> Unique(Pair(name, node) + rest)
  {
    hide Get, Unique;
    if node.Some? {
      GetFirst((name, node.value), rest, key);
      if Unique(rest) && Get(rest, name).None? {
        UniqueFirst((name, node.value), rest);
      }
    } else {
      assert Pair(name, node) + rest == rest;
    }
  }

  // -------- names --------

  predicate NamesFit(k: Codec, s: seq<string>) {
    Distinct(s) && forall i | 0 <= i < |s| :: ValidName(k, s[i])
  }

  lemma {:induction false} ItemsReadBack(k: Codec, s: seq<string>, i: nat)
    requires NamesFit(k, s) && i <= |s|
    ensures AddItems(k, s[..i], WriteItems(s)[i..]) == s
    decreases |s| - i
  {
    var items := WriteItems(s);
    if i < |s| {
      HasName(s[..i], s[i]);
      assert items[i..][0] == Scalar(s[i]) && items[i..][1..] == items[i + 1..];
      assert AddName(k, s[..i], items[i]) == s[..i + 1];
      ItemsReadBack(k, s, i + 1);
    } else {
      assert s[..i] == s && items[i..] == [];
    }
  }

  lemma NamesReadBack(k: Codec, s: seq<string>)
    requires NamesFit(k, s)
    ensures ReadNames(k, [], WriteNames(s)) == s
  {
    ItemsReadBack(k, s, 0);
    assert s[..0] == [] && WriteItems(s)[0..] == WriteItems(s);
  }

  // -------- maps by name --------

  /** The entry is written, and its value is read back. */
  ghost predicate EntryFits<V(!new)>(k: Codec, e: (string, V), write: V -> Option<Node>, read: Node -> Option<V>) {
    ValidName(k, e.0) && write(e.1).Some? && read(write(e.1).value) == Some(e.1)
  }

  lemma {:induction false} WriteEntriesIs<V(!new)>(m: Entries<string, V>, write: V -> Option<Node>)
    requires forall i | 0 <= i < |m| :: write(m[i].1).Some?
    ensures |WriteEntries(m, write)| == |m|
    ensures forall i | 0 <= i < |m| :: WriteEntries(m, write)[i] == (m[i].0, write(m[i].1).value)
  {
    if m != [] {
      WriteEntriesIs(m[1..], write);
    }
  }

  lemma {:induction false} EntriesReadBack<V(!new)>(k: Codec, m: Entries<string, V>, pairs: Pairs, read: Node -> Option<V>,
      overwrite: bool, i: nat)
    requires Unique(m) && |pairs| == |m| && i <= |m|
    requires forall j | 0 <= j < |m| :: pairs[j].0 == m[j].0 && ValidName(k, m[j].0) && read(pairs[j].1) == Some(m[j].1)
    ensures IntoMap(k, m[..i], pairs[i..], read, overwrite) == m
    decreases |m| - i
  {
    if i < |m| {
      assert !Has(m[..i], m[i].0) by {
        assert forall j | 0 <= j < i :: Keys(m[..i])[j] == Keys(m)[j] != Keys(m)[i];
      }
      assert IntoEntry(k, m[..i], m[i].0, read(pairs[i].1), overwrite) == m[..i + 1];
      assert pairs[i..][0] == pairs[i] && pairs[i..][1..] == pairs[i + 1..];
      EntriesReadBack(k, m, pairs, read, overwrite, i + 1);
    } else {
      assert m[..i] == m && pairs[i..] == [];
    }
  }

  lemma MapReadsBack<V(!new)>(k: Codec, m: Entries<string, V>, write: V -> Option<Node>, read: Node -> Option<V>, overwrite: bool)
    requires Unique(m) && forall i | 0 <= i < |m| :: EntryFits(k, m[i], write, read)
    ensures ReadMap(k, [], WriteMap(m, write), read, overwrite) == m
  {
    if m != [] {
      assert forall i | 0 <= i < |m| :: EntryFits(k, m[i], write, read) ==> write(m[i].1).Some?;
      var pairs := WriteEntries(m, write);
      WriteEntriesIs(m, write);
      assert Keys(pairs) == Keys(m);
      ToMapIs(pairs);
      EntriesReadBack(k, m, pairs, read, overwrite, 0);
      assert m[..0] == [] && pairs[0..] == pairs;
    }
  }

  // -------- values --------

  lemma RoundWhole(n: int)
    ensures Scale.Round(n as real / 1000.0 * 1000.0) == n
  {
    assert n as real / 1000.0 * 1000.0 == n as real;
    Scale.RoundByWhole(Scale.Nearest, n);
  }

  predicate ScaleFits(k: Codec, v: int) {
    v > 0 && RealReadsBack(k, v as real / 1000.0)
  }

  lemma ScaleReadsBack(k: Codec, v: int)
    requires ScaleFits(k, v)
    ensures WriteScale(k)(v).Some? && ReadScale(k)(WriteScale(k)(v).value) == Some(v)
  {
    RoundWhole(v);
    assert v as real / 1000.0 > 0.0;
  }

  /** The numbers that are written of the mode survive. */
  predicate NumbersFit(k: Codec, m: Mode) {
    m.max || m.maxPreferredRefresh ||
    (IntReadsBack(k, m.width) && IntReadsBack(k, m.height) && (m.refresh != -1 ==> RealReadsBack(k, m.refresh as real / 1000.0)))
  }

  /** A mode that asks for the maximum asks for nothing else; and it has not been warned about. */
  predicate Canonical(m: Mode) {
    && !m.warned
    && (m.max ==> m == UNSET.(max := true))
    && (m.maxPreferredRefresh ==> m == UNSET.(maxPreferredRefresh := true))
  }

  lemma MaxReads(k: Codec, name: string)
    requires name == "MAX" || name == "MAX_PREFERRED_REFRESH"
    ensures ReadMode(k)(Mapping([(name, Scalar("TRUE"))])) ==
      Some(if name == "MAX" then UNSET.(max := true) else UNSET.(maxPreferredRefresh := true))
  {
    var pairs := [(name, Scalar("TRUE"))];
    assert Keys(pairs) == [name];
    ToMapIs(pairs);
    OnOffReadsBack(On);
  }

  /** The keys of a written size. */
  lemma SizeKeys(width: Node, height: Node, hz: Option<Node>)
    ensures var all := [("WIDTH", width), ("HEIGHT", height)] + Pair("HZ", hz);
      && ToMap(all) == all
      && Get(all, "WIDTH") == Some(width) && Get(all, "HEIGHT") == Some(height) && Get(all, "HZ") == hz
      && !Has(all, "MAX") && !Has(all, "MAX_PREFERRED_REFRESH")
  {
    var all := [("WIDTH", width), ("HEIGHT", height)] + Pair("HZ", hz);
    assert Keys(all) == ["WIDTH", "HEIGHT"] + if hz.Some? then ["HZ"] else [];
    ToMapIs(all);
    EntryAt(all, 0);
    EntryAt(all, 1);
    if hz.Some? {
      EntryAt(all, 2);
    }
  }

  lemma SizeReads(k: Codec, m: Mode)
    requires NumbersFit(k, m) && !m.max && !m.maxPreferredRefresh
    ensures ReadMode(k)(WriteMode(k)(m).value) == Some(m.(warned := false))
  {
    hide ToMap, Get, Has;
    SizeKeys(Scalar(k.showInt(m.width)), Scalar(k.showInt(m.height)), WriteHz(k, m));
    GetHas(WriteMode(k)(m).value.pairs);
    RoundWhole(m.refresh);
  }

  lemma GetHas(m: Entries<string, Node>)
    ensures forall key :: Has(m, key) <==> Get(m, key).Some?
  {
  }

  /** Main result: a mode whose numbers survive reads back exactly when it is canonical. */
  lemma ModeReadsBackIff(k: Codec, m: Mode)
    requires NumbersFit(k, m)
    ensures WriteMode(k)(m).Some?
    ensures ReadMode(k)(WriteMode(k)(m).value) == Some(m) <==> Canonical(m)
  {
    if m.max {
      MaxReads(k, "MAX");
    } else if m.maxPreferredRefresh {
      MaxReads(k, "MAX_PREFERRED_REFRESH");
    } else {
      SizeReads(k, m);
    }
  }

  /** A valid MODE that asks for MAX and for a size is not read back: only MAX is written. */
  lemma ModeDoesNotReadBack(k: Codec)
    ensures exists m ::
      !ModeInvalid(m) && NumbersFit(k, m) && !m.warned && ReadMode(k)(WriteMode(k)(m).value) != Some(m)
  {
    var m := Mode(1920, 1080, -1, true, false, false);
    ModeReadsBackIff(k, m);
    assert !ModeInvalid(m);
  }

  // -------- conditions --------

  predicate ConditionFits(k: Codec, c: Condition) {
    && NamesFit(k, c.plugged) && NamesFit(k, c.unplugged)
    && (c.plugged != [] || c.unplugged != [] || c.lid.Some?)
  }

  /** The keys of a written condition. */
  lemma ConditionKeys(plugged: Option<Node>, unplugged: Option<Node>, lid: Option<Node>, key: string)
    ensures var all := Pair("PLUGGED", plugged) + (Pair("UNPLUGGED", unplugged) + Pair("LID", lid));
      && ToMap(all) == all
      && Get(all, key) == if key == "PLUGGED" then plugged else if key == "UNPLUGGED" then unplugged else
                          if key == "LID" then lid else None
  {
    hide Pair, Get, ToMap;
    GetNone(key);
    GetNone("UNPLUGGED");
    GetNone("PLUGGED");
    GetNone("LID");
    var last := Pair("LID", lid);
    assert last + [] == last;
    var rest := Pair("UNPLUGGED", unplugged) + last;
    PairFirst("LID", lid, [], key);
    PairFirst("LID", lid, [], "UNPLUGGED");
    PairFirst("LID", lid, [], "PLUGGED");
    PairFirst("UNPLUGGED", unplugged, last, key);
    PairFirst("UNPLUGGED", unplugged, last, "PLUGGED");
    PairFirst("PLUGGED", plugged, rest, key);
    ToMapIs(Pair("PLUGGED", plugged) + rest);
  }

  lemma GetNone(key: string)
    ensures Get<string, Node>([], key) == None && Unique<string, Node>([])
  {
  }

  lemma ConditionReadsBack(k: Codec, c: Condition)
    requires ConditionFits(k, c)
    ensures ReadCondition(k, WriteCondition(c)) == Some(c)
  {
    hide ToMap, Get, Has, ReadNames, WriteNames;
    var plugged := if c.plugged == [] then None else Some(WriteNames(c.plugged));
    var unplugged := if c.unplugged == [] then None else Some(WriteNames(c.unplugged));
    var lid := if c.lid.Some? then Some(Scalar(LidName(c.lid.value))) else None;
    ConditionKeys(plugged, unplugged, lid, "PLUGGED");
    ConditionKeys(plugged, unplugged, lid, "UNPLUGGED");
    ConditionKeys(plugged, unplugged, lid, "LID");
    GetHas(WriteCondition(c).pairs);
    NamesReadBack(k, c.plugged);
    NamesReadBack(k, c.unplugged);
    if c.lid.Some? {
      LidReadsBack(c.lid.value);
    }
  }

  predicate ConditionsFit(k: Codec, cs: seq<Condition>) {
    OrderedSet.NoTwins(cs, SameCondition()) && forall i | 0 <= i < |cs| :: ConditionFits(k, cs[i])
  }

  lemma {:induction false} ConditionsReadBack(k: Codec, cs: seq<Condition>, i: nat)
    requires ConditionsFit(k, cs) && i <= |cs|
    ensures AddConditions(k, cs[..i], WriteConditions(cs)[i..]) == cs
    decreases |cs| - i
  {
    var items := WriteConditions(cs);
    hide ReadCondition, WriteCondition, ConditionFits, SameCondition;
    if i < |cs| {
      ConditionReadsBack(k, cs[i]);
      assert !OrderedSet.Has(cs[..i], cs[i], SameCondition());
      assert AddCondition(k, cs[..i], items[i]) == cs[..i + 1];
      assert items[i..][0] == items[i] && items[i..][1..] == items[i + 1..];
      ConditionsReadBack(k, cs, i + 1);
    } else {
      assert cs[..i] == cs && items[i..] == [];
    }
  }

  lemma DisabledReadsBack(k: Codec, cs: seq<Condition>)
    requires ConditionsFit(k, cs)
    ensures WriteDisabled()(cs).Some? && ReadDisabled(k)(WriteDisabled()(cs).value) == Some(cs)
  {
    if cs != [] {
      var pairs := [("IF", Sequence(WriteConditions(cs)))];
      assert Keys(pairs) == ["IF"];
      ToMapIs(pairs);
      EntryAt(pairs, 0);
      ConditionsReadBack(k, cs, 0);
      assert cs[..0] == [] && WriteConditions(cs)[0..] == WriteConditions(cs);
    }
  }

  // -------- the whole configuration --------

  /**
   What survives being written: names that compile, numbers that keep their value, positive scales,
   transforms that have a name, conditions with content, and canonical modes.
   */
  ghost predicate Writable(k: Codec, c: Cfg) {
    OtherwiseWritable(k, c) && forall i | 0 <= i < |c.modes| :: Canonical(c.modes[i].1)
  }

  ghost predicate OtherwiseWritable(k: Codec, c: Cfg) {
    && WellFormed(c) && NamesFit(k, c.order) && NamesFit(k, c.vrrOff)
    && (forall i | 0 <= i < |c.scales| :: ValidName(k, c.scales[i].0) && ScaleFits(k, c.scales[i].1))
    && (forall i | 0 <= i < |c.modes| :: ValidName(k, c.modes[i].0) && NumbersFit(k, c.modes[i].1))
    && (forall i | 0 <= i < |c.transforms| :: ValidName(k, c.transforms[i].0) && TransformName(c.transforms[i].1).Some?)
    && (forall i | 0 <= i < |c.disableds| :: ValidName(k, c.disableds[i].0) && ConditionsFit(k, c.disableds[i].1))
    && IntReadsBack(k, c.dpi) && RealReadsBack(k, c.scaleMin) && RealReadsBack(k, c.scaleMax)
    && (c.roundTo.Some? ==> k.readReal(RoundToName(c.roundTo.value)) == Some(Step(c.roundTo.value)))
  }

  /** r has of one element what c has. */
  predicate Agree(r: Cfg, c: Cfg, e: E.Element) {
    match e
    case Arrange => r.arrange == c.arrange
    case Align => r.align == c.align
    case Order => r.order == c.order
    case Scaling => r.scaling == c.scaling
    case RoundTo => r.roundTo == c.roundTo
    case RoundStrategy => r.roundStrategy == c.roundStrategy
    case AutoScale => r.autoScale == c.autoScale
    case Dpi => r.dpi == c.dpi
    case ScaleMin => r.scaleMin == c.scaleMin
    case ScaleMax => r.scaleMax == c.scaleMax
    case Scales => r.scales == c.scales
    case Modes => r.modes == c.modes
    case Transforms => r.transforms == c.transforms
    case VrrOff => r.vrrOff == c.vrrOff
    case Callback => r.callback == c.callback
    case LidMonitor => r.lidMonitor == c.lidMonitor
    case LogThreshold => r.logThreshold == c.logThreshold
    case Disabled => r.disableds == c.disableds && r.disabledsEmpty == c.disabledsEmpty
  }

  /** What reads back from c: an empty DISABLED has been marked as such. */
  function Marked(c: Cfg): Cfg {
    c.(disabledsEmpty := c.disableds == [])
  }

  /** Reading one element leaves the others alone. */
  lemma ReadsOnly(k: Codec, r: Cfg, c: Cfg, e: E.Element, n: Node, other: E.Element)
    requires e != other
    ensures Agree(ReadElement(k, r, e, n), c, other) == Agree(r, c, other)
  {
    hide ReadMap, ReadNames, ReadEnum, ReadRoundTo, ReadInt, ReadReal;
  }

  lemma MapsReadBack(k: Codec, c: Cfg)
    requires Writable(k, c)
    ensures ReadMap(k, [], WriteMap(c.scales, WriteScale(k)), ReadScale(k), false) == c.scales
    ensures ReadMap(k, [], WriteMap(c.modes, WriteMode(k)), ReadMode(k), false) == c.modes
    ensures ReadMap(k, [], WriteMap(c.transforms, WriteTransform()), ReadTransform(), false) == c.transforms
    ensures ReadMap(k, [], WriteMap(c.disableds, WriteDisabled()), ReadDisabled(k), true) == c.disableds
  {
    hide ReadMap, WriteMap, ConditionsFit, NumbersFit, ReadMode, WriteMode, ReadDisabled, WriteDisabled;
    forall i | 0 <= i < |c.scales| ensures EntryFits(k, c.scales[i], WriteScale(k), ReadScale(k)) {
      ScaleReadsBack(k, c.scales[i].1);
    }
    MapReadsBack(k, c.scales, WriteScale(k), ReadScale(k), false);
    forall i | 0 <= i < |c.modes| ensures EntryFits(k, c.modes[i], WriteMode(k), ReadMode(k)) {
      ModeReadsBackIff(k, c.modes[i].1);
    }
    MapReadsBack(k, c.modes, WriteMode(k), ReadMode(k), false);
    forall i | 0 <= i < |c.transforms| ensures EntryFits(k, c.transforms[i], WriteTransform(), ReadTransform()) {
      TransformReadsBack(c.transforms[i].1);
    }
    MapReadsBack(k, c.transforms, WriteTransform(), ReadTransform(), false);
    forall i | 0 <= i < |c.disableds| ensures EntryFits(k, c.disableds[i], WriteDisabled(), ReadDisabled(k)) {
      DisabledReadsBack(k, c.disableds[i].1);
    }
    MapReadsBack(k, c.disableds, WriteDisabled(), ReadDisabled(k), true);
  }

  /** A value that is written by name. */
  lemma NamedReads(k: Codec, c: Cfg, r: Cfg, e: E.Element)
    requires e.Arrange? || e.Align? || e.Scaling? || e.AutoScale? || e.LidMonitor? || e.RoundStrategy? || e.LogThreshold?
    requires Agree(r, INITIAL, e)
    ensures var n := WriteElement(k, c, e);
      Agree(if n.Some? then ReadElement(k, r, e, n.value) else r, c, e)
  {
    hide ArrangeName, AlignName, OnOffName, StrategyName, ThresholdName;
    hide ArrangeVal, AlignVal, OnOffVal, StrategyVal, ThresholdVal;
    match e
    case Arrange => if c.arrange.Some? { ArrangeReadsBack(c.arrange.value); }
    case Align => if c.align.Some? { AlignReadsBack(c.align.value); }
    case Scaling => if c.scaling.Some? { OnOffReadsBack(c.scaling.value); }
    case AutoScale => if c.autoScale.Some? { OnOffReadsBack(c.autoScale.value); }
    case LidMonitor => if c.lidMonitor.Some? { OnOffReadsBack(c.lidMonitor.value); }
    case RoundStrategy => if c.roundStrategy.Some? { StrategyReadsBack(c.roundStrategy.value); }
    case LogThreshold => if c.logThreshold.Some? { ThresholdReadsBack(c.logThreshold.value); }
  }

  /** One element: what is read over what cfg_init has. */
  lemma ElementReads(k: Codec, c: Cfg, r: Cfg, e: E.Element)
    requires Writable(k, c) && Agree(r, INITIAL, e)
    ensures var n := WriteElement(k, c, e);
      Agree(if n.Some? then ReadElement(k, r, e, n.value) else r, Marked(c), e)
  {
    hide ReadMap, WriteEntries, ReadNames, WriteNames, WellFormed, ReadEnum;
    match e
    case Order => NamesReadBack(k, c.order);
    case VrrOff => NamesReadBack(k, c.vrrOff);
    case Scales => MapsReadBack(k, c);
    case Modes => MapsReadBack(k, c);
    case Transforms => MapsReadBack(k, c);
    case Disabled => MapsReadBack(k, c);
    case RoundTo => if c.roundTo.Some? { RoundToReadsBack(c.roundTo.value); }
    case Dpi =>
    case ScaleMin =>
    case ScaleMax =>
    case Callback =>
    case _ => NamedReads(k, c, r, e);
  }

  lemma PairReads(k: Codec, r: Cfg, e: E.Element, n: Option<Node>, rest: Pairs)
    ensures ReadPairs(k, r, Pair(E.ElementName(e), n) + rest) ==
            ReadPairs(k, if n.Some? then ReadElement(k, r, e, n.value) else r, rest)
  {
    E.ElementReadsBack(e);
    hide ReadElement;
    if n.Some? {
      var pairs := [(E.ElementName(e), n.value)] + rest;
      assert pairs[0] == (E.ElementName(e), n.value) && pairs[1..] == rest;
    } else {
      assert [] + rest == rest;
    }
  }

  /** Reading what has been written of es: r has read the elements before already. */
  lemma {:induction false} AllRead(k: Codec, c: Cfg, r: Cfg, es: seq<E.Element>)
    requires Writable(k, c) && Distinct(es)
    requires forall e | e in es :: Agree(r, INITIAL, e)
    requires forall e: E.Element | e !in es :: Agree(r, Marked(c), e)
    ensures forall e: E.Element :: Agree(ReadPairs(k, r, WriteAll(k, c, es)), Marked(c), e)
    decreases |es|
  {
    hide Agree, Writable, ReadElement, WriteElement;
    if es != [] {
      var first, rest, n := es[0], es[1..], WriteElement(k, c, es[0]);
      var next := if n.Some? then ReadElement(k, r, first, n.value) else r;
      assert es == [first] + rest && first !in rest;
      PairReads(k, r, first, n, WriteAll(k, c, rest));
      ElementReads(k, c, r, first);
      if n.Some? {
        forall e: E.Element | e != first
          ensures Agree(next, INITIAL, e) == Agree(r, INITIAL, e) && Agree(next, Marked(c), e) == Agree(r, Marked(c), e)
        {
          ReadsOnly(k, r, INITIAL, first, n.value, e);
          ReadsOnly(k, r, Marked(c), first, n.value, e);
        }
      }
      AllRead(k, c, next, rest);
    }
  }

  lemma ElementsAll()
    ensures Distinct(ELEMENTS) && forall e: E.Element :: e in ELEMENTS
  {
    forall e: E.Element ensures e in ELEMENTS {
      match e
      case Arrange => assert ELEMENTS[0] == e;
      case Align => assert ELEMENTS[1] == e;
      case Order => assert ELEMENTS[2] == e;
      case Scaling => assert ELEMENTS[3] == e;
      case RoundTo => assert ELEMENTS[4] == e;
      case RoundStrategy => assert ELEMENTS[5] == e;
      case AutoScale => assert ELEMENTS[6] == e;
      case Dpi => assert ELEMENTS[7] == e;
      case ScaleMin => assert ELEMENTS[8] == e;
      case ScaleMax => assert ELEMENTS[9] == e;
      case Scales => assert ELEMENTS[10] == e;
      case Modes => assert ELEMENTS[11] == e;
      case Transforms => assert ELEMENTS[12] == e;
      case VrrOff => assert ELEMENTS[13] == e;
      case Callback => assert ELEMENTS[14] == e;
      case LidMonitor => assert ELEMENTS[15] == e;
      case LogThreshold => assert ELEMENTS[16] == e;
      case Disabled => assert ELEMENTS[17] == e;
    }
  }

  lemma AgreeScalars(r: Cfg, c: Cfg)
    requires forall e: E.Element :: Agree(r, c, e)
    ensures r.arrange == c.arrange && r.align == c.align && r.scaling == c.scaling && r.roundTo == c.roundTo
    ensures r.roundStrategy == c.roundStrategy && r.autoScale == c.autoScale && r.dpi == c.dpi
    ensures r.scaleMin == c.scaleMin && r.scaleMax == c.scaleMax
  {
    assert Agree(r, c, E.Arrange) && Agree(r, c, E.Align) && Agree(r, c, E.Scaling) && Agree(r, c, E.RoundTo);
    assert Agree(r, c, E.RoundStrategy) && Agree(r, c, E.AutoScale) && Agree(r, c, E.Dpi);
    assert Agree(r, c, E.ScaleMin) && Agree(r, c, E.ScaleMax);
  }

  lemma AgreeOthers(r: Cfg, c: Cfg)
    requires forall e: E.Element :: Agree(r, c, e)
    ensures r.order == c.order && r.scales == c.scales && r.modes == c.modes && r.transforms == c.transforms
    ensures r.vrrOff == c.vrrOff && r.callback == c.callback && r.lidMonitor == c.lidMonitor
    ensures r.logThreshold == c.logThreshold && r.disableds == c.disableds && r.disabledsEmpty == c.disabledsEmpty
  {
    assert Agree(r, c, E.Order) && Agree(r, c, E.Scales) && Agree(r, c, E.Modes) && Agree(r, c, E.Transforms);
    assert Agree(r, c, E.VrrOff) && Agree(r, c, E.Callback) && Agree(r, c, E.LidMonitor);
    assert Agree(r, c, E.LogThreshold) && Agree(r, c, E.Disabled);
  }

  lemma AgreeAll(r: Cfg, c: Cfg)
    requires forall e: E.Element :: Agree(r, c, e)
    ensures r == c
  {
    hide Agree;
    AgreeScalars(r, c);
    AgreeOthers(r, c);
  }

  /**
   Main result: a configuration that is written and read again is the same in every field, but that
   an empty DISABLED map is marked as the user's wish.
   */
  lemma RoundTrip(k: Codec, c: Cfg)
    requires Writable(k, c)
    ensures Read(k, Write(k, c)) == Marked(c)
    ensures CfgEqual(Read(k, Write(k, c)), c)
  {
    hide Agree, Writable;
    ElementsAll();
    AllRead(k, c, INITIAL, ELEMENTS) by {
      forall e ensures Agree(INITIAL, INITIAL, e) {
        AgreeSelf(INITIAL, e);
      }
    }
    AgreeAll(Read(k, Write(k, c)), Marked(c));
    WritableWellFormed(k, c);
    CfgEqualReflexive(c);
  }

  // -------- modes that are not canonical --------

  /** What is written of a mode is what is written of this one. */
  function AsWritten(m: Mode): Mode {
    if m.max then UNSET.(max := true)
    else if m.maxPreferredRefresh then UNSET.(maxPreferredRefresh := true)
    else m.(warned := false)
  }

  function ModesAsWritten(modes: Entries<string, Mode>): (ms: Entries<string, Mode>)
    ensures |ms| == |modes| && forall i | 0 <= i < |modes| :: ms[i] == (modes[i].0, AsWritten(modes[i].1))
  {
    seq(|modes|, i requires 0 <= i < |modes| => (modes[i].0, AsWritten(modes[i].1)))
  }

  lemma SameModeWritten(k: Codec, m: Mode)
    ensures WriteMode(k)(AsWritten(m)) == WriteMode(k)(m)
  {
  }

  lemma {:induction false} SameEntriesWritten(k: Codec, a: Entries<string, Mode>, b: Entries<string, Mode>)
    requires |a| == |b| && forall i | 0 <= i < |a| :: b[i] == (a[i].0, AsWritten(a[i].1))
    ensures WriteEntries(b, WriteMode(k)) == WriteEntries(a, WriteMode(k))
  {
    if a != [] {
      SameModeWritten(k, a[0].1);
      SameEntriesWritten(k, a[1..], b[1..]);
    }
  }

  lemma ElementWritten(k: Codec, c: Cfg, e: E.Element)
    ensures WriteElement(k, c.(modes := ModesAsWritten(c.modes)), e) == WriteElement(k, c, e)
  {
    hide WriteEntries, WriteMode;
    SameEntriesWritten(k, c.modes, ModesAsWritten(c.modes));
  }

  lemma {:induction false} SameWritten(k: Codec, c: Cfg, es: seq<E.Element>)
    ensures WriteAll(k, c.(modes := ModesAsWritten(c.modes)), es) == WriteAll(k, c, es)
  {
    hide WriteElement, E.ElementName;
    if es != [] {
      ElementWritten(k, c, es[0]);
      SameWritten(k, c, es[1..]);
    }
  }

  lemma AsWrittenWritable(k: Codec, c: Cfg)
    requires OtherwiseWritable(k, c)
    ensures Writable(k, c.(modes := ModesAsWritten(c.modes)))
  {
    assert Keys(ModesAsWritten(c.modes)) == Keys(c.modes);
  }

  /** The modes are equal exactly when they were canonical. */
  lemma ModesEqualIff(modes: Entries<string, Mode>)
    requires Unique(modes)
    ensures Equal(ModesAsWritten(modes), modes, SameMode()) <==> forall i | 0 <= i < |modes| :: Canonical(modes[i].1)
  {
    var written := ModesAsWritten(modes);
    assert Keys(written) == Keys(modes);
    forall i | 0 <= i < |modes| ensures Get(written, modes[i].0) == Some(AsWritten(modes[i].1)) {
      EntryAt(written, i);
    }
    assert forall m :: AsWritten(m) == m <==> Canonical(m);
  }

  /**
   Main result: a configuration that is otherwise writable reads back equal exactly when each of its modes
   is canonical; and always with the modes as they are written.
   */
  lemma RoundTripIff(k: Codec, c: Cfg)
    requires OtherwiseWritable(k, c)
    ensures Read(k, Write(k, c)) == Marked(c.(modes := ModesAsWritten(c.modes)))
    ensures CfgEqual(Read(k, Write(k, c)), c) <==> forall i | 0 <= i < |c.modes| :: Canonical(c.modes[i].1)
  {
    var d := c.(modes := ModesAsWritten(c.modes));
    AsWrittenWritable(k, c);
    SameWritten(k, c, ELEMENTS);
    RoundTrip(k, d);
    ModesEqualIff(c.modes);
    CfgEqualReflexive(c);
  }

  lemma AgreeSelf(c: Cfg, e: E.Element)
    ensures Agree(c, c, e)
  {
  }

  lemma WritableWellFormed(k: Codec, c: Cfg)
    requires Writable(k, c)
    ensures WellFormed(c)
  {
  }

  /**
   Main result: loading the file that an active configuration was written to keeps that configuration;
   the defaults add nothing, so an emptied DISABLED map does not regain the lid condition.
   */
  lemma ReloadKeeps(k: Codec, c: Cfg)
    requires Active(c) && Writable(k, c)
    ensures var loaded := Applied(c, Reload(Some(Read(k, Write(k, c)))));
      loaded == Marked(c) && CfgEqual(loaded, c) && loaded.disableds == c.disableds
  {
    RoundTrip(k, c);
    FixedIsValid(Marked(c));
    assert Defaulted(Marked(c)) == Marked(c);
  }
}
