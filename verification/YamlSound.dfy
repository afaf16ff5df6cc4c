/** What any tree of YAML nodes reads as, malformed ones included; and every configuration that is reached. */
module YamlSound {
  import opened Seqs
  import opened OrderedMap
  import opened Names
  import opened Modes
  import opened Config
  import opened Merge
  import opened YamlText
  import opened Yaml
  import opened YamlRoundTrip
  import Ipc
  import E = YamlElements

  // -------- names and entries --------

  lemma AddNameSound(k: Codec, to: seq<string>, item: Node)
    requires NamesFit(k, to)
    ensures NamesFit(k, AddName(k, to, item))
  {
    if item.Scalar? {
      HasName(to, item.text);
    }
  }

  lemma {:induction false} AddItemsSound(k: Codec, to: seq<string>, items: seq<Node>)
    requires NamesFit(k, to)
    ensures NamesFit(k, AddItems(k, to, items))
    decreases |items|
  {
    if items != [] {
      AddNameSound(k, to, items[0]);
      AddItemsSound(k, AddName(k, to, items[0]), items[1..]);
    }
  }

  /** Unique keys, each a valid name. */
  predicate EntriesSound<V>(k: Codec, m: Entries<string, V>) {
    Unique(m) && forall i | 0 <= i < |m| :: ValidName(k, m[i].0)
  }

  lemma IntoEntrySound<V>(k: Codec, to: Entries<string, V>, key: string, v: Option<V>, overwrite: bool)
    requires EntriesSound(k, to)
    ensures EntriesSound(k, IntoEntry(k, to, key, v, overwrite))
  {
    if v.Some? {
      PutKeys(to, key, v.value);
    }
  }

  lemma {:induction false} IntoMapSound<V>(k: Codec, to: Entries<string, V>, m: Pairs, read: Node -> Option<V>, overwrite: bool)
    requires EntriesSound(k, to)
    ensures EntriesSound(k, IntoMap(k, to, m, read, overwrite))
    decreases |m|
  {
    if m != [] {
      IntoEntrySound(k, to, m[0].0, read(m[0].1), overwrite);
      IntoMapSound(k, IntoEntry(k, to, m[0].0, read(m[0].1), overwrite), m[1..], read, overwrite);
    }
  }

  ghost predicate IsRead<V(!new)>(v: V, read: Node -> Option<V>) {
    exists n :: read(n) == Some(v)
  }

  /** What is put is a value that was read. */
  ghost predicate ValuesFrom<V(!new)>(m: Entries<string, V>, read: Node -> Option<V>) {
    forall i | 0 <= i < |m| :: IsRead(m[i].1, read)
  }

  lemma NodeOf<V(!new)>(v: V, read: Node -> Option<V>) returns (n: Node)
    requires IsRead(v, read)
    ensures read(n) == Some(v)
  {
    n :| read(n) == Some(v);
  }

  lemma {:induction false} IntoMapValues<V(!new)>(k: Codec, to: Entries<string, V>, m: Pairs, read: Node -> Option<V>, overwrite: bool)
    requires ValuesFrom(to, read)
    ensures ValuesFrom(IntoMap(k, to, m, read, overwrite), read)
    decreases |m|
  {
    if m != [] {
      var v := read(m[0].1);
      var next := IntoEntry(k, to, m[0].0, v, overwrite);
      assert ValuesFrom(next, read) by {
        forall i | 0 <= i < |next| ensures IsRead(next[i].1, read) {
          if i >= |to| || next[i] != to[i] {
            assert read(m[0].1) == Some(next[i].1);
          }
        }
      }
      IntoMapValues(k, next, m[1..], read, overwrite);
    }
  }

  /** Main result: of a map without equal keys, exactly the valid entries are read, each by itself. */
  lemma {:induction false} IntoMapGet<V>(k: Codec, to: Entries<string, V>, m: Pairs, read: Node -> Option<V>, overwrite: bool, key: string)
    requires Unique(to) && Unique(m)
    ensures
      var v := if Has(m, key) && ValidName(k, key) then read(Get(m, key).value) else None;
      Get(IntoMap(k, to, m, read, overwrite), key) ==
        if v.None? || (Has(to, key) && !overwrite) then Get(to, key) else v
    decreases |m|
  {
    if m != [] {
      TailUnique(m);
      TailGet(m, key);
      var v := read(m[0].1);
      var next := IntoEntry(k, to, m[0].0, v, overwrite);
      if v.Some? {
        PutKeys(to, m[0].0, v.value);
        PutGet(to, m[0].0, v.value, key);
      }
      IntoMapGet(k, next, m[1..], read, overwrite, key);
    }
  }

  // -------- conditions --------

  lemma ReadNamesSound(k: Codec, to: seq<string>, n: Node)
    requires NamesFit(k, to)
    ensures NamesFit(k, ReadNames(k, to, n))
  {
    if n.Sequence? {
      AddItemsSound(k, to, n.items);
    }
  }

  lemma ReadConditionSound(k: Codec, n: Node)
    ensures ReadCondition(k, n).Some? ==> ConditionFits(k, ReadCondition(k, n).value)
  {
    hide ReadNames;
    if n.Mapping? {
      var m := ToMap(n.pairs);
      if Has(m, "PLUGGED") {
        ReadNamesSound(k, [], Get(m, "PLUGGED").value);
      }
      if Has(m, "UNPLUGGED") {
        ReadNamesSound(k, [], Get(m, "UNPLUGGED").value);
      }
    }
  }

  lemma {:induction false} AddConditionsSound(k: Codec, to: seq<Condition>, items: seq<Node>)
    requires ConditionsFit(k, to)
    ensures ConditionsFit(k, AddConditions(k, to, items))
    decreases |items|
  {
    hide SameCondition, ConditionFits, ReadCondition;
    if items != [] {
      ReadConditionSound(k, items[0]);
      AddConditionsSound(k, AddCondition(k, to, items[0]), items[1..]);
    }
  }

  lemma ReadDisabledSound(k: Codec, n: Node)
    ensures ReadDisabled(k)(n).Some? ==> ConditionsFit(k, ReadDisabled(k)(n).value)
  {
    hide AddConditions;
    if n.Mapping? && Has(ToMap(n.pairs), "IF") && Get(ToMap(n.pairs), "IF").value.Sequence? {
      AddConditionsSound(k, [], Get(ToMap(n.pairs), "IF").value.items);
    }
  }

  // -------- the whole configuration --------

  /**
   What any file or request reads as: no duplicates anywhere, names that compile, scales that are not
   negative, transforms that have a name, and conditions with content.
   */
  ghost predicate Sound(k: Codec, c: Cfg) {
    && NamesFit(k, c.order) && NamesFit(k, c.vrrOff)
    && EntriesSound(k, c.scales) && ValuesFrom(c.scales, ReadScale(k))
    && EntriesSound(k, c.modes) && ValuesFrom(c.modes, ReadMode(k))
    && EntriesSound(k, c.transforms) && ValuesFrom(c.transforms, ReadTransform())
    && EntriesSound(k, c.disableds) && ValuesFrom(c.disableds, ReadDisabled(k))
  }

  lemma ReadMapSound<V(!new)>(k: Codec, to: Entries<string, V>, n: Node, read: Node -> Option<V>, overwrite: bool)
    requires EntriesSound(k, to) && ValuesFrom(to, read)
    ensures EntriesSound(k, ReadMap(k, to, n, read, overwrite)) && ValuesFrom(ReadMap(k, to, n, read, overwrite), read)
  {
    if n.Mapping? {
      IntoMapSound(k, to, ToMap(n.pairs), read, overwrite);
      IntoMapValues(k, to, ToMap(n.pairs), read, overwrite);
    }
  }

  lemma ReadElementSound(k: Codec, c: Cfg, e: E.Element, n: Node)
    requires Sound(k, c)
    ensures Sound(k, ReadElement(k, c, e, n))
  {
    hide ReadMap, ReadNames, EntriesSound, ValuesFrom, NamesFit, ReadScale, ReadMode, ReadTransform, ReadDisabled;
    match e
    case Order => ReadNamesSound(k, c.order, n);
    case VrrOff => ReadNamesSound(k, c.vrrOff, n);
    case Scales => ReadMapSound(k, c.scales, n, ReadScale(k), false);
    case Modes => ReadMapSound(k, c.modes, n, ReadMode(k), false);
    case Transforms => ReadMapSound(k, c.transforms, n, ReadTransform(), false);
    case Disabled => ReadMapSound(k, c.disableds, n, ReadDisabled(k), true);
    case _ =>
  }

  lemma {:induction false} ReadPairsSound(k: Codec, c: Cfg, pairs: Pairs)
    requires Sound(k, c)
    ensures Sound(k, ReadPairs(k, c, pairs))
    decreases |pairs|
  {
    hide Sound, ReadElement;
    if pairs != [] {
      var e := E.ElementVal(pairs[0].0);
      if e.Some? {
        ReadElementSound(k, c, e.value, pairs[0].1);
      }
      ReadPairsSound(k, ReadPair(k, c, pairs[0].0, pairs[0].1), pairs[1..]);
    }
  }

  lemma ValuesSound(k: Codec, c: Cfg)
    requires Sound(k, c)
    ensures forall i | 0 <= i < |c.scales| :: c.scales[i].1 >= 0
    ensures forall i | 0 <= i < |c.transforms| :: TransformName(c.transforms[i].1).Some?
    ensures forall i | 0 <= i < |c.disableds| :: ConditionsFit(k, c.disableds[i].1)
  {
    hide ReadDisabled, ConditionsFit;
    forall i | 0 <= i < |c.disableds| ensures ConditionsFit(k, c.disableds[i].1) {
      var n := NodeOf(c.disableds[i].1, ReadDisabled(k));
      ReadDisabledSound(k, n);
    }
    forall i | 0 <= i < |c.scales| ensures c.scales[i].1 >= 0 {
      var n := NodeOf(c.scales[i].1, ReadScale(k));
    }
    forall i | 0 <= i < |c.transforms| ensures TransformName(c.transforms[i].1).Some? {
      var n := NodeOf(c.transforms[i].1, ReadTransform());
    }
  }

  /** Main result: whatever tree is read, the configuration is sound, and its containers have no duplicates. */
  lemma ReadSound(k: Codec, pairs: Pairs)
    ensures WellFormed(Read(k, pairs)) && Sound(k, Read(k, pairs))
    ensures forall i | 0 <= i < |Read(k, pairs).scales| :: Read(k, pairs).scales[i].1 >= 0
    ensures forall i | 0 <= i < |Read(k, pairs).transforms| :: TransformName(Read(k, pairs).transforms[i].1).Some?
    ensures forall i | 0 <= i < |Read(k, pairs).disableds| :: ConditionsFit(k, Read(k, pairs).disableds[i].1)
  {
    hide ReadPairs, ValuesFrom;
    assert Sound(k, INITIAL) by {
      NothingSound(k);
    }
    ReadPairsSound(k, INITIAL, pairs);
    ValuesSound(k, Read(k, pairs));
  }

  lemma NothingSound(k: Codec)
    ensures Sound(k, INITIAL)
  {
  }

  // -------- every configuration that is reached --------

  /** What reaches the program: files, perhaps unreadable ones, and requests, as trees. */
  datatype Input =
    | Start(file: Option<Pairs>)
    | FileChanged(file: Option<Pairs>)
    | Asked(command: Command, cfg: Pairs, heads: seq<Name>)

  function FileCfg(k: Codec, file: Option<Pairs>): Option<Cfg> {
    if file.Some? then Some(Read(k, file.value)) else None
  }

  /** A request is filtered by the configuration and heads of its time. */
  function RequestCfg(k: Codec, active: Cfg, cfg: Pairs, heads: seq<Name>): Cfg {
    var r := Read(k, cfg);
    r.(disableds := Ipc.Filtered(k.rx, active.disableds, heads, r.disableds))
  }

  function Reached(k: Codec, c: Cfg, input: Input): Cfg {
    match input
    case Start(file) => Applied(c, Load(FileCfg(k, file)))
    case FileChanged(file) => Applied(c, Reload(FileCfg(k, file)))
    case Asked(command, cfg, heads) => Applied(c, Request(command, RequestCfg(k, c, cfg, heads)))
  }

  function ReachedAfter(k: Codec, inputs: seq<Input>): Cfg {
    if inputs == [] then INITIAL
    else Reached(k, ReachedAfter(k, inputs[..|inputs| - 1]), inputs[|inputs| - 1])
  }

  lemma ReachedActive(k: Codec, c: Cfg, input: Input)
    requires Active(c) || input.Start?
    ensures Active(Reached(k, c, input))
  {
    hide Read, Active, Applied;
    match input
    case Start(file) =>
      if file.Some? {
        ReadSound(k, file.value);
      }
      AppliedActive(c, Load(FileCfg(k, file)));
    case FileChanged(file) =>
      if file.Some? {
        ReadSound(k, file.value);
      }
      AppliedActive(c, Reload(FileCfg(k, file)));
    case Asked(command, cfg, heads) =>
      ReadSound(k, cfg);
      var r := Read(k, cfg);
      Ipc.FilteredGet(k.rx, c.disableds, heads, r.disableds, "");
      FilterValues(r.disableds, Ipc.PassesEntry(k.rx, c.disableds, heads), ConditionsDistinct());
      AppliedActive(c, Request(command, RequestCfg(k, c, cfg, heads)));
  }

  /**
   Main result: from the start on, whatever files are read, in whatever state, and whatever is requested,
   the active configuration is valid, complete and without duplicates.
   */
  lemma {:induction false} AlwaysReachedActive(k: Codec, inputs: seq<Input>)
    requires inputs != [] && inputs[0].Start?
    ensures Active(ReachedAfter(k, inputs))
  {
    hide Active, Reached;
    var n := |inputs| - 1;
    if n > 0 {
      AlwaysReachedActive(k, inputs[..n]);
    } else {
      assert inputs[..n] == [];
    }
    ReachedActive(k, ReachedAfter(k, inputs[..n]), inputs[n]);
  }

  /** Main result: so equality of such configurations is an equivalence. */
  lemma ReachedEquality(k: Codec, a: seq<Input>, b: seq<Input>, c: seq<Input>)
    requires a != [] && a[0].Start? && b != [] && b[0].Start? && c != [] && c[0].Start?
    ensures var (x, y, z) := (ReachedAfter(k, a), ReachedAfter(k, b), ReachedAfter(k, c));
      CfgEqual(x, x) && CfgEqual(x, y) == CfgEqual(y, x) && (CfgEqual(x, y) && CfgEqual(y, z) ==> CfgEqual(x, z))
  {
    hide CfgEqual, ReachedAfter, WellFormed;
    var (x, y, z) := (ReachedAfter(k, a), ReachedAfter(k, b), ReachedAfter(k, c));
    AlwaysReachedActive(k, a);
    AlwaysReachedActive(k, b);
    AlwaysReachedActive(k, c);
    CfgEqualReflexive(x);
    CfgEqualSymmetric(x, y);
    if CfgEqual(x, y) && CfgEqual(y, z) {
      CfgEqualTransitive(x, y, z);
    }
  }

  // -------- a request that removes what it was to set --------

  /** A tree that gives one MODE. */
  function ModeTree(name: string, n: Node): Pairs {
    [(E.ElementName(E.Modes), Mapping([(name, n)]))]
  }

  lemma ModeTreeReads(k: Codec, name: string, n: Node)
    requires ValidName(k, name) && ReadMode(k)(n).Some?
    ensures Read(k, ModeTree(name, n)) == INITIAL.(modes := [(name, ReadMode(k)(n).value)])
  {
    hide ReadMode, ToMap;
    var tree, m := ModeTree(name, n), ReadMode(k)(n).value;
    E.ElementReadsBack(E.Modes);
    OneToMap(name, n);
    assert tree[1..] == [];
    assert ReadPairs(k, INITIAL, tree) == ReadPair(k, INITIAL, tree[0].0, tree[0].1);
    assert IntoMap(k, [], [(name, n)], ReadMode(k), false) == [(name, m)];
  }

  lemma OneToMap(name: string, n: Node)
    ensures ToMap([(name, n)]) == [(name, n)]
  {
    var none: Pairs := [];
    assert IndexOf(none, name) == 0 && Put(none, name, n) == [(name, n)];
    assert PutAll([], [(name, n)]) == PutAll(Put(none, name, n), []);
  }

  /**
   The file gives a display the MODE MAX; then a SET request gives it a MODE without anything, which is invalid.
   The display is left without a MODE.
   */
  lemma SetInvalidModeRun(k: Codec, name: string, heads: seq<Name>)
    requires ValidName(k, name)
    ensures var max := ModeTree(name, WriteMode(k)(UNSET.(max := true)).value);
      var started := [Start(Some(max))];
      && Has(ReachedAfter(k, started).modes, name)
      && !Has(ReachedAfter(k, started + [Asked(Set, ModeTree(name, Mapping([])), heads)]).modes, name)
  {
    hide Read, Active, WellFormed, ReadMode, CfgMerge, Defaulted, Fixed, RequestCfg, Unique;
    var good := UNSET.(max := true);
    var n := WriteMode(k)(good).value;
    var max, asked := ModeTree(name, n), ModeTree(name, Mapping([]));
    var started := [Start(Some(max))];
    var c := ReachedAfter(k, started);
    ModeReadsBackIff(k, good);
    ModeTreeReads(k, name, n);
    EmptyModeReads(k);
    ModeTreeReads(k, name, Mapping([]));
    AlwaysReachedActive(k, started);
    ReadSound(k, asked);
    assert started[..0] == [] && c == Fixed(Defaulted(Read(k, max)));
    ValidModeStays(INITIAL.(modes := [(name, good)]), name, good);
    assert (started + [Asked(Set, asked, heads)])[..1] == started;
    OneEntry(name, UNSET);
    var r := RequestCfg(k, c, asked, heads);
    NothingFiltered(k, c, asked, heads);
    SetInvalidModeRemoves(c, r, name);
  }

  lemma NothingFiltered(k: Codec, c: Cfg, asked: Pairs, heads: seq<Name>)
    requires Read(k, asked).disableds == []
    ensures RequestCfg(k, c, asked, heads) == Read(k, asked)
  {
    hide Read;
  }

  lemma EmptyModeReads(k: Codec)
    ensures ReadMode(k)(Mapping([])) == Some(UNSET)
  {
  }

  lemma ValidModeStays(c: Cfg, name: string, m: Mode)
    requires c.modes == [(name, m)] && !ModeInvalid(m)
    ensures Has(Fixed(Defaulted(c)).modes, name)
  {
    OneEntry(name, m);
    FixedModes(Defaulted(c), name);
  }

  lemma OneEntry(name: string, m: Mode)
    ensures Unique([(name, m)]) && Get([(name, m)], name) == Some(m)
  {
    assert Keys([(name, m)]) == [name];
  }
}
