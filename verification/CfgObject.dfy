/** The configuration as the program holds it: an object that defaults, fixes and merges fill in place. */
module CfgObjects {
  import opened Seqs
  import opened OrderedMap
  import opened Modes
  import opened Config
  import opened Merge
  import OrderedSet
  import Layout
  import Scale

  class CfgObject {
    var arrange: Option<Layout.Arrange>
    var align: Option<Layout.Align>
    var order: seq<string>
    var scaling: Option<OnOff>
    var roundStrategy: Option<Scale.Strategy>
    var roundTo: Option<Scale.Base>
    var autoScale: Option<OnOff>
    var dpi: int
    var scaleMin: real
    var scaleMax: real
    var scales: Entries<string, int>
    var modes: Entries<string, Mode>
    var transforms: Entries<string, nat>
    var vrrOff: seq<string>
    var callback: Option<string>
    var lidMonitor: Option<OnOff>
    var logThreshold: Option<LogThreshold>
    var disableds: Entries<string, seq<Condition>>
    var disabledsEmpty: bool

    /** The value of all fields. */
    function View(): Cfg
      reads this
    {
      Cfg(arrange, align, order, scaling, roundStrategy, roundTo, autoScale, dpi, scaleMin, scaleMax, scales, modes,
          transforms, vrrOff, callback, lidMonitor, logThreshold, disableds, disabledsEmpty)
    }

    /** cfg_clone, of a configuration with the given value; of INITIAL it is cfg_init. */
    constructor (c: Cfg)
      ensures View() == c
    {
      arrange, align, order := c.arrange, c.align, c.order;
      scaling, roundStrategy, roundTo := c.scaling, c.roundStrategy, c.roundTo;
      autoScale, dpi, scaleMin, scaleMax := c.autoScale, c.dpi, c.scaleMin, c.scaleMax;
      scales, modes, transforms, vrrOff := c.scales, c.modes, c.transforms, c.vrrOff;
      callback, lidMonitor, logThreshold := c.callback, c.lidMonitor, c.logThreshold;
      disableds, disabledsEmpty := c.disableds, c.disabledsEmpty;
    }

    method ApplyDefaults()
      modifies this
      ensures View() == Defaulted(old(View()))
    {
      hide Or, AddLidCondition;
      DefaultScaling();
      DefaultAutoScale();
      DefaultOther();
      DefaultDisableds();
    }

    /** Unless the user has given an empty map or some valid entries. */
    method DefaultDisableds()
      modifies this`disableds
      ensures disableds ==
        if !disabledsEmpty && old(disableds) == [] then AddLidCondition(old(disableds), LAPTOP_DEFAULT) else old(disableds)
    {
      hide AddLidCondition;
      if !disabledsEmpty && |disableds| == 0 {
        disableds := AddLidCondition(disableds, LAPTOP_DEFAULT);
      }
    }

    method DefaultScaling()
      modifies this`scaling, this`roundTo, this`roundStrategy
      ensures scaling == Or(old(scaling), On) && roundTo == Or(old(roundTo), Scale.ROUND_TO_DEFAULT)
      ensures roundStrategy == Or(old(roundStrategy), Scale.Nearest)
    {
      if scaling.None? {
        scaling := Some(On);
      }
      if roundTo.None? {
        roundTo := Some(Scale.ROUND_TO_DEFAULT);
      }
      if roundStrategy.None? {
        roundStrategy := Some(Scale.Nearest);
      }
    }

    method DefaultAutoScale()
      modifies this`autoScale, this`dpi, this`scaleMin, this`scaleMax
      ensures autoScale == Or(old(autoScale), On) && dpi == if old(dpi) == 0 then DPI_DEFAULT else old(dpi)
      ensures scaleMin == if old(scaleMin) == 0.0 then MIN_DEFAULT else old(scaleMin)
      ensures scaleMax == if old(scaleMax) == 0.0 then MAX_DEFAULT else old(scaleMax)
    {
      if autoScale.None? {
        autoScale := Some(On);
      }
      if dpi == 0 {
        dpi := DPI_DEFAULT;
      }
      if scaleMin == 0.0 {
        scaleMin := MIN_DEFAULT;
      }
      if scaleMax == 0.0 {
        scaleMax := MAX_DEFAULT;
      }
    }

    method DefaultOther()
      modifies this`arrange, this`align, this`callback, this`lidMonitor
      ensures arrange == Or(old(arrange), Layout.Row) && align == Or(old(align), Layout.Top)
      ensures callback == Or(old(callback), CALLBACK_DEFAULT) && lidMonitor == Or(old(lidMonitor), On)
    {
      if arrange.None? {
        arrange := Some(Layout.Row);
      }
      if align.None? {
        align := Some(Layout.Top);
      }
      if callback.None? {
        callback := Some(CALLBACK_DEFAULT);
      }
      if lidMonitor.None? {
        lidMonitor := Some(On);
      }
    }

    /** The last loop of cfg_validate_fix: the traversal goes on where an entry has been removed. */
    method RemoveInvalidModes()
      modifies this`modes
      ensures modes == Filter(old(modes), Not(InvalidEntry()))
    {
      var i := 0;
      while i < |modes|
        invariant 0 <= i <= |modes|
        invariant modes[..i] + Filter(modes[i..], Not(InvalidEntry())) == Filter(old(modes), Not(InvalidEntry()))
        decreases |modes| - i
      {
        FixStep(modes, i);
        if ModeInvalid(modes[i].1) {
          modes := RemoveAt(modes, i);
        } else {
          i := i + 1;
        }
      }
    }

    method ValidateFix()
      modifies this`align, this`dpi, this`modes
      ensures View() == Fixed(old(View()))
    {
      match arrange {
        case Some(Col) =>
          if align != Some(Layout.Left) && align != Some(Layout.Middle) && align != Some(Layout.Right) {
            align := Some(Layout.Left);
          }
        case _ =>
          if align != Some(Layout.Top) && align != Some(Layout.Middle) && align != Some(Layout.Bottom) {
            align := Some(Layout.Top);
          }
      }
      if dpi <= Scale.AUTO_SCALE_DPI_MIN {
        dpi := DPI_DEFAULT;
      }
      RemoveInvalidModes();
    }

    method SetFrom(from: Cfg)
      modifies this
      ensures View() == MergeSet(old(View()), from)
    {
      hide PutAll, AddNames;
      SetScalars(from);
      disableds := PutAll(disableds, from.disableds);
      modes := PutAll(modes, from.modes);
      SetMaps(from);
    }

    method SetScalars(from: Cfg)
      modifies this`align, this`arrange, this`autoScale, this`scaling, this`callback
      ensures align == (if from.align.Some? then from.align else old(align))
      ensures arrange == (if from.arrange.Some? then from.arrange else old(arrange))
      ensures autoScale == (if from.autoScale.Some? then from.autoScale else old(autoScale))
      ensures scaling == (if from.scaling.Some? then from.scaling else old(scaling))
      ensures callback == if from.callback.Some? then from.callback else old(callback)
    {
      align := if from.align.Some? then from.align else align;
      arrange := if from.arrange.Some? then from.arrange else arrange;
      autoScale := if from.autoScale.Some? then from.autoScale else autoScale;
      scaling := if from.scaling.Some? then from.scaling else scaling;
      if from.callback.Some? {
        callback := from.callback;
      }
    }

    method SetMaps(from: Cfg)
      modifies this`scales, this`transforms, this`vrrOff, this`order
      ensures scales == PutAll(old(scales), from.scales) && transforms == PutAll(old(transforms), from.transforms)
      ensures vrrOff == AddNames(old(vrrOff), from.vrrOff)
      ensures order == if from.order != [] then from.order else old(order)
    {
      hide PutAll, AddNames;
      scales := PutAll(scales, from.scales);
      transforms := PutAll(transforms, from.transforms);
      vrrOff := AddNames(vrrOff, from.vrrOff);
      if |from.order| > 0 {
        order := from.order;
      }
    }

    method DelFrom(from: Cfg)
      modifies this
      ensures View() == MergeDel(old(View()), from)
    {
      hide RemoveIn, RemoveNames;
      DelMaps(from);
      vrrOff := RemoveNames(vrrOff, from.vrrOff);
      if from.callback.Some? {
        callback := Some("");
      }
    }

    method DelMaps(from: Cfg)
      modifies this`disableds, this`modes, this`scales, this`transforms
      ensures disableds == RemoveIn(old(disableds), from.disableds) && modes == RemoveIn(old(modes), from.modes)
      ensures scales == RemoveIn(old(scales), from.scales) && transforms == RemoveIn(old(transforms), from.transforms)
    {
      hide RemoveIn;
      disableds := RemoveIn(disableds, from.disableds);
      modes := RemoveIn(modes, from.modes);
      scales := RemoveIn(scales, from.scales);
      transforms := RemoveIn(transforms, from.transforms);
    }

    method ToggleFrom(from: Cfg)
      modifies this
      ensures View() == MergeToggle(old(View()), from)
    {
      hide ToggleNames, ToggleKeys;
      if from.scaling == Some(On) {
        scaling := Inverted(scaling);
      }
      if from.autoScale == Some(On) {
        autoScale := Inverted(autoScale);
      }
      ToggleVrrOff(from.vrrOff);
      ToggleDisableds(from.disableds);
    }

    method ToggleVrrOff(other: seq<string>)
      modifies this`vrrOff
      ensures vrrOff == ToggleNames(old(vrrOff), other)
    {
      for i := 0 to |other|
        invariant ToggleNames(vrrOff, other[i..]) == ToggleNames(old(vrrOff), other)
      {
        assert other[i..][1..] == other[i + 1..];
        if other[i] in vrrOff {
          vrrOff := OrderedSet.Remove(vrrOff, other[i], SameString());
        } else {
          vrrOff := OrderedSet.Add(vrrOff, other[i], SameString());
        }
      }
    }

    method ToggleDisableds(other: Entries<string, seq<Condition>>)
      modifies this`disableds
      ensures disableds == ToggleKeys(old(disableds), other)
    {
      for i := 0 to |other|
        invariant ToggleKeys(disableds, other[i..]) == ToggleKeys(old(disableds), other)
      {
        assert other[i..][1..] == other[i + 1..];
        var (k, v) := other[i];
        if Has(disableds, k) {
          disableds := Remove(disableds, k);
        } else {
          disableds := Put(disableds, k, v);
        }
      }
    }

    /** cfg_merge: a new object, or none when it would be equal to this one, which stays as it is. */
    method MergeWith(from: Cfg, command: Command) returns (merged: CfgObject?)
      ensures merged != null ==> fresh(merged)
      ensures (if merged == null then None else Some(merged.View())) == CfgMerge(View(), from, command)
    {
      hide MergeSet, MergeDel, MergeToggle, Fixed, CfgEqual;
      merged := new CfgObject(View());
      match command {
        case Del => merged.DelFrom(from);
        case Toggle => merged.ToggleFrom(from);
        case Set => merged.SetFrom(from);
      }
      merged.ValidateFix();
      if CfgEqual(merged.View(), View()) {
        merged := null;
      }
    }
  }

  /** One turn of the loop that removes invalid modes. */
  lemma FixStep(modes: Entries<string, Mode>, i: nat)
    requires i < |modes|
    ensures var (keep, fixed) := (Not(InvalidEntry()), modes[..i] + Filter(modes[i..], Not(InvalidEntry())));
      if ModeInvalid(modes[i].1)
      then RemoveAt(modes, i)[..i] + Filter(RemoveAt(modes, i)[i..], keep) == fixed
      else modes[..i + 1] + Filter(modes[i + 1..], keep) == fixed
  {
    assert modes[i..] == [modes[i]] + modes[i + 1..];
    FilterCons(modes[i], modes[i + 1..], Not(InvalidEntry()));
    if ModeInvalid(modes[i].1) {
      assert RemoveAt(modes, i)[..i] == modes[..i] && RemoveAt(modes, i)[i..] == modes[i + 1..];
    } else {
      assert modes[..i + 1] == modes[..i] + [modes[i]];
    }
  }
}
