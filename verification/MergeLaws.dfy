/** What SET, DEL and TOGGLE make of the configuration, field by field. */
module MergeLaws {
  import opened Seqs
  import opened OrderedMap
  import opened Modes
  import opened Config
  import opened Merge
  import Layout
  import Scale

  /** Fields that no request changes. */
  predicate Untouched(r: Cfg, to: Cfg) {
    && r.roundStrategy == to.roundStrategy && r.roundTo == to.roundTo && r.dpi == to.dpi
    && r.scaleMin == to.scaleMin && r.scaleMax == to.scaleMax && r.lidMonitor == to.lidMonitor
    && r.logThreshold == to.logThreshold && r.disabledsEmpty == to.disabledsEmpty
  }

  ghost predicate TookAll<V(!new)>(r: Entries<string, V>, from: Entries<string, V>, to: Entries<string, V>) {
    Unique(r) && forall k :: Get(r, k) == if Has(from, k) then Get(from, k) else Get(to, k)
  }

  /** As TookAll, but a name whose MODE is then invalid has none. */
  ghost predicate TookModes(r: Entries<string, Mode>, from: Entries<string, Mode>, to: Entries<string, Mode>) {
    Unique(r) && forall k ::
      var given := if Has(from, k) then Get(from, k) else Get(to, k);
      Get(r, k) == if given.Some? && !ModeInvalid(given.value) then given else None
  }

  ghost predicate LostAll<V(!new)>(r: Entries<string, V>, from: Entries<string, V>, to: Entries<string, V>) {
    Unique(r) && forall k :: Get(r, k) == if Has(from, k) then None else Get(to, k)
  }

  /** The alignments of a row or of a column. */
  predicate Suits(arrange: Option<Layout.Arrange>, align: Layout.Align) {
    if arrange == Some(Layout.Col) then align == Layout.Left || align == Layout.Middle || align == Layout.Right
    else align == Layout.Top || align == Layout.Middle || align == Layout.Bottom
  }

  /**
   Main result: SET takes every value that is given and keeps every other; ORDER is replaced as a whole, VRR_OFF
   is added to; an alignment that does not suit the arrangement becomes TOP or LEFT; an invalid MODE goes.
   */
  lemma SetYields(to: Cfg, from: Cfg)
    requires Active(to) && WellFormed(from) && CfgMerge(to, from, Set).Some?
    ensures var r := CfgMerge(to, from, Set).value;
      && Untouched(r, to)
      && r.arrange == (if from.arrange.Some? then from.arrange else to.arrange)
      && r.scaling == (if from.scaling.Some? then from.scaling else to.scaling)
      && r.autoScale == (if from.autoScale.Some? then from.autoScale else to.autoScale)
      && r.callback == (if from.callback.Some? then from.callback else to.callback)
      && r.order == (if from.order != [] then from.order else to.order)
      && r.align.Some? && Suits(r.arrange, r.align.value)
      && (var wanted := if from.align.Some? then from.align.value else to.align.value;
          r.align.value == if Suits(r.arrange, wanted) then wanted
                           else if r.arrange == Some(Layout.Col) then Layout.Left else Layout.Top)
      && (forall n :: n in r.vrrOff <==> n in to.vrrOff || n in from.vrrOff)
      && TookAll(r.scales, from.scales, to.scales) && TookAll(r.transforms, from.transforms, to.transforms)
      && TookAll(r.disableds, from.disableds, to.disableds) && TookModes(r.modes, from.modes, to.modes)
  {
    hide WellFormed, Complete, Valid, PutAll, AddNames, CfgEqual, ModeInvalid, Filter, Unique, Get, Distinct;
    var r := CfgMerge(to, from, Set).value;
    Parts(to);
    Parts(from);
    SetModesAre(to, from);
    forall n ensures n in r.vrrOff <==> n in to.vrrOff || n in from.vrrOff {
      AddNamesMember(to.vrrOff, from.vrrOff, n);
    }
    TakesAll(to.scales, from.scales);
    TakesAll(to.transforms, from.transforms);
    TakesAll(to.disableds, from.disableds);
  }

  lemma Parts(c: Cfg)
    requires WellFormed(c)
    ensures Unique(c.scales) && Unique(c.modes) && Unique(c.transforms) && Unique(c.disableds)
    ensures Distinct(c.order) && Distinct(c.vrrOff)
    ensures Active(c) ==> c.align.Some? && c.scaling.Some? && c.autoScale.Some? && c.dpi > Scale.AUTO_SCALE_DPI_MIN
  {
  }

  lemma TakesAll<V(!new)>(to: Entries<string, V>, from: Entries<string, V>)
    requires Unique(to) && Unique(from)
    ensures TookAll(PutAll(to, from), from, to)
  {
    PutAllGet(to, from, "");
    forall k ensures Get(PutAll(to, from), k) == if Has(from, k) then Get(from, k) else Get(to, k) {
      PutAllGet(to, from, k);
    }
  }

  lemma LosesAll<V(!new)>(to: Entries<string, V>, from: Entries<string, V>)
    requires Unique(to)
    ensures LostAll(RemoveIn(to, from), from, to)
  {
    RemoveInGet(to, from, "");
    forall k ensures Get(RemoveIn(to, from), k) == if Has(from, k) then None else Get(to, k) {
      RemoveInGet(to, from, k);
    }
  }

  /** Main result: DEL removes exactly the entries and names that are given, and any callback; it keeps all else. */
  lemma DelYields(to: Cfg, from: Cfg)
    requires Active(to) && WellFormed(from) && CfgMerge(to, from, Del).Some?
    ensures var r := CfgMerge(to, from, Del).value;
      && Untouched(r, to) && r.arrange == to.arrange && r.align == to.align
      && r.scaling == to.scaling && r.autoScale == to.autoScale && r.order == to.order
      && r.callback == (if from.callback.Some? then Some("") else to.callback)
      && (forall n :: n in r.vrrOff <==> n in to.vrrOff && n !in from.vrrOff)
      && LostAll(r.scales, from.scales, to.scales) && LostAll(r.transforms, from.transforms, to.transforms)
      && LostAll(r.disableds, from.disableds, to.disableds) && LostAll(r.modes, from.modes, to.modes)
  {
    hide WellFormed, Complete, Valid, RemoveIn, RemoveNames, CfgEqual, Fixed, Unique, Distinct;
    var r := CfgMerge(to, from, Del).value;
    Parts(to);
    MergeAdopted(to, from, Del);
    forall n ensures n in r.vrrOff <==> n in to.vrrOff && n !in from.vrrOff {
      RemoveNamesMember(to.vrrOff, from.vrrOff, n);
    }
    LosesAll(to.scales, from.scales);
    LosesAll(to.transforms, from.transforms);
    LosesAll(to.disableds, from.disableds);
    LosesAll(to.modes, from.modes);
  }

  /**
   Main result: TOGGLE turns SCALING exactly when it asks for SCALING, and AUTO_SCALE when it asks for that; it
   flips exactly the names and DISABLED entries that are given, and keeps all else.
   */
  lemma ToggleYields(to: Cfg, from: Cfg)
    requires Active(to) && WellFormed(from) && CfgMerge(to, from, Toggle).Some?
    ensures var r := CfgMerge(to, from, Toggle).value;
      && Untouched(r, to) && r.arrange == to.arrange && r.align == to.align && r.order == to.order
      && r.callback == to.callback && r.scales == to.scales && r.modes == to.modes && r.transforms == to.transforms
      && to.scaling.Some? && to.autoScale.Some? && r.scaling.Some? && r.autoScale.Some?
      && (r.scaling != to.scaling <==> from.scaling == Some(On))
      && (r.autoScale != to.autoScale <==> from.autoScale == Some(On))
      && (forall n :: n in r.vrrOff <==> (n in to.vrrOff) != (n in from.vrrOff))
      && (forall k :: Get(r.disableds, k) ==
            if !Has(from.disableds, k) then Get(to.disableds, k)
            else if Has(to.disableds, k) then None else Get(from.disableds, k))
  {
    hide WellFormed, Complete, Valid, ToggleKeys, ToggleNames, CfgEqual, Fixed, Unique, Distinct;
    var r := CfgMerge(to, from, Toggle).value;
    Parts(to);
    Parts(from);
    MergeAdopted(to, from, Toggle);
    forall n ensures n in r.vrrOff <==> (n in to.vrrOff) != (n in from.vrrOff) {
      ToggleNamesMember(to.vrrOff, from.vrrOff, n);
    }
    forall k ensures Get(r.disableds, k) ==
      if !Has(from.disableds, k) then Get(to.disableds, k)
      else if Has(to.disableds, k) then None else Get(from.disableds, k)
    {
      ToggleKeysGet(to.disableds, from.disableds, k);
    }
  }

  /** When no other part of a request is given. */
  predicate OnlyOrder(from: Cfg) {
    from == INITIAL.(order := from.order)
  }

  /**
   A SET of the names of ORDER in another order is no change: the comparison that decides whether to adopt it
   is of sets. It is adopted exactly when some name differs.
   */
  lemma SetOrderAdoptedIff(to: Cfg, from: Cfg)
    requires Active(to) && WellFormed(from) && OnlyOrder(from)
    ensures CfgMerge(to, from, Set).Some? <==>
      from.order != [] && exists n :: (n in from.order) != (n in to.order)
  {
    hide Equal, SameNames;
    Parts(to);
    SetChangesIff(to, from);
    SameNamesIff(from.order, to.order);
  }

  /** There are such a configuration and request. */
  lemma SetOrderPermuted() returns (c: Cfg, r: Cfg)
    ensures Active(c) && WellFormed(r) && OnlyOrder(r)
    ensures |r.order| == |c.order| == 2 && r.order[0] == c.order[1] && r.order[1] == c.order[0] && r.order != c.order
    ensures CfgMerge(c, r, Set).None?
  {
    var read := INITIAL.(order := ["DP-1", "DP-2"]);
    c, r := Fixed(Defaulted(read)), INITIAL.(order := ["DP-2", "DP-1"]);
    DefaultedComplete(read);
    FixedActive(Defaulted(read));
    SetOrderAdoptedIff(c, r);
  }

  // -------- files --------

  /** A MODE is kept when every dimension that it has is positive, and it has a size or asks for the maximum. */
  lemma ModeValidIff(m: Mode)
    ensures !ModeInvalid(m) <==>
      && (m.width > 0 || m.width == -1) && (m.height > 0 || m.height == -1) && (m.refresh > 0 || m.refresh == -1)
      && (m.max || m.maxPreferredRefresh || (m.width > 0 && m.height > 0))
  {
  }

  /**
   Main result: what is in force after a file has been read, at the start or again: everything that it gives, if
   it suits, and otherwise the default. A file that cannot be read is as good as empty at the start, and
   changes nothing later.
   */
  lemma FileYields(c: Cfg, file: Cfg)
    requires WellFormed(file)
    ensures var r := Applied(c, Reload(Some(file)));
      && r == Applied(c, Load(Some(file)))
      && r.arrange == (if file.arrange.Some? then file.arrange else Some(Layout.Row))
      && (var wanted := if file.align.Some? then file.align.value else Layout.Top;
          r.align == Some(if Suits(r.arrange, wanted) then wanted
                          else if r.arrange == Some(Layout.Col) then Layout.Left else Layout.Top))
      && r.scaling == (if file.scaling.Some? then file.scaling else Some(On))
      && r.autoScale == (if file.autoScale.Some? then file.autoScale else Some(On))
      && r.roundTo == (if file.roundTo.Some? then file.roundTo else Some(8))
      && r.roundStrategy == (if file.roundStrategy.Some? then file.roundStrategy else Some(Scale.Nearest))
      && r.dpi == (if file.dpi > 8 then file.dpi else 96)
      && r.scaleMin == (if file.scaleMin == 0.0 then 1.0 else file.scaleMin)
      && r.scaleMax == (if file.scaleMax == 0.0 then -1.0 else file.scaleMax)
      && r.lidMonitor == (if file.lidMonitor.Some? then file.lidMonitor else Some(On))
      && r.callback.Some? && (file.callback.Some? ==> r.callback == file.callback)
      && r.order == file.order && r.vrrOff == file.vrrOff && r.scales == file.scales && r.transforms == file.transforms
      && r.logThreshold == file.logThreshold && r.disabledsEmpty == file.disabledsEmpty
      && (file.disableds != [] || file.disabledsEmpty ==> r.disableds == file.disableds)
      && (forall k :: Get(r.modes, k) ==
            if Has(file.modes, k) && !ModeInvalid(Get(file.modes, k).value) then Get(file.modes, k) else None)
    ensures Applied(c, Load(None)) == Applied(c, Load(Some(INITIAL))) && Applied(c, Reload(None)) == c
  {
    hide WellFormed, ModeInvalid, Filter, Unique;
    Parts(file);
    forall k ensures Get(Fixed(Defaulted(file)).modes, k) ==
      if Has(file.modes, k) && !ModeInvalid(Get(file.modes, k).value) then Get(file.modes, k) else None
    {
      FixedModes(Defaulted(file), k);
    }
  }
}
