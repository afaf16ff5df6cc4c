/** A head as the program holds it: an object whose fields the events and desire() update in place. */
module HeadObjects {
  import opened Seqs
  import opened OrderedMap
  import opened Names
  import opened Modes
  import opened Config
  import opened Merge
  import opened Reconcile
  import opened Heads
  import opened Layout
  import Scale

  class Head {
    var name: Name
    var widthMm: int
    var heightMm: int
    var modes: ModeMap
    var modesFailed: ModeMap
    var preferred: Option<ZMode>
    var scaledWidth: int
    var scaledHeight: int
    var cur: HeadState
    var des: HeadState
    var override: Override
    var reapply: bool
    var vrrFailed: bool

    /** The value of all fields. */
    function View(): HeadView
      reads this
    {
      HeadView(name, widthMm, heightMm, modes, modesFailed, preferred, scaledWidth, scaledHeight,
               cur, des, override, reapply, vrrFailed)
    }

    /** head_init, with what the compositor tells of the head at once. */
    constructor (name: Name, widthMm: int, heightMm: int, state: HeadState)
      ensures View() == NewHead(name, widthMm, heightMm, state)
    {
      this.name := name;
      this.widthMm, this.heightMm := widthMm, heightMm;
      modes, modesFailed, preferred := [], [], None;
      scaledWidth, scaledHeight := 0, 0;
      cur, des := state.(zmode := None), state.(zmode := None);
      override, reapply, vrrFailed := NoOverride, false, false;
    }

    // -------- events and requests --------

    method ReleaseMode(zmode: ZMode)
      modifies this
      ensures View() == Release(old(View()), zmode)
    {
      modes := Remove(modes, zmode);
      if preferred == Some(zmode) {
        preferred := None;
      }
      if cur.zmode == Some(zmode) {
        cur := cur.(zmode := None);
      }
      if des.zmode == Some(zmode) {
        des := des.(zmode := None);
      }
    }

    method SetModePref(zmode: ZMode)
      modifies this`preferred
      ensures View() == Prefer(old(View()), zmode)
    {
      var current := if preferred.Some? then Get(modes, preferred.value) else None;
      var advertised := Get(modes, zmode);
      if current.Some? && advertised.Some? && preferred != Some(zmode) {
        return;
      }
      preferred := Some(zmode);
    }

    /** The loop body of heads_reapply. */
    method Reapply()
      modifies this
      ensures View() == Reapplied(old(View()))
    {
      if |modesFailed| > 0 {
        ghost var all := PutAll(modes, modesFailed);
        var i := 0;
        while i < |modesFailed|
          invariant 0 <= i <= |modesFailed|
          invariant modesFailed == old(modesFailed) && PutAll(modes, modesFailed[i..]) == all
          invariant View() == old(View()).(modes := modes)
        {
          assert modesFailed[i..][0] == modesFailed[i] && modesFailed[i..][1..] == modesFailed[i + 1..];
          modes := Put(modes, modesFailed[i].0, modesFailed[i].1);
          i := i + 1;
        }
        modesFailed := [];
      }
      reapply := true;
      cur := cur.(zmode := None);
    }

    method ApplyDisabledToggle()
      modifies this`override
      ensures View() == ToggleOverride(old(View()))
    {
      if override.NoOverride? {
        if cur.enabled {
          override := OverrideFalse;
        } else {
          override := OverrideTrue;
        }
      } else {
        override := NoOverride;
      }
    }

    /** The end of head_override_ipc_disableds, when conditions are overridden. */
    method OverrideDisableds(command: Command)
      modifies this`override
      ensures View() == OverrideBy(old(View()), command)
    {
      match command {
        case Toggle => ApplyDisabledToggle();
        case Del =>
          if !cur.enabled {
            ApplyDisabledToggle();
          }
        case Set =>
          if cur.enabled {
            ApplyDisabledToggle();
          }
      }
    }

    /** act_handle_failure for a MODE. */
    method ModeFailed(zmode: Option<ZMode>)
      modifies this
      ensures View() == MoveToFailed(old(View()), zmode)
    {
      if zmode.Some? {
        var mode := Get(modes, zmode.value);
        modes := Remove(modes, zmode.value);
        if mode.Some? {
          modesFailed := Put(modesFailed, zmode.value, mode.value);
        }
      }
      cur := cur.(zmode := None);
    }

    // -------- desire --------

    method Enable(env: Env, names: seq<Name>)
      modifies this`des, this`override
      ensures View() == DesireEnabled(env, names, old(View()))
    {
      var applies := CfgDisabledAppliesToHead(env.rx, names, env.lid, |names| == 1, env.cfg.disableds, name);
      var enabled := !applies;
      if !override.NoOverride? {
        var manuallyEnabled := override.OverrideTrue?;
        if enabled == manuallyEnabled {
          override := NoOverride;
        }
      }
      match override {
        case NoOverride => des := des.(enabled := enabled);
        case OverrideTrue => des := des.(enabled := true);
        case OverrideFalse => des := des.(enabled := false);
      }
    }

    method ChooseMode(env: Env)
      modifies this`des
      ensures View() == DesireMode(env, old(View()))
    {
      if !des.enabled {
        return;
      }
      var zmode := HeadFindMode(FirstFor(env.rx, env.cfg.modes, name), modes, preferred);
      if zmode.Some? {
        des := des.(zmode := zmode);
      } else {
        des := des.(enabled := false);
      }
    }

    method ChooseScale(env: Env)
      modifies this`des
      ensures View() == DesireScale(env, old(View()))
    {
      if !des.enabled {
        return;
      }
      var c := env.cfg;
      if c.scaling == Some(Off) {
        des := des.(scale := FixedScale(c, 1.0));
        return;
      }
      var user := FirstFor(env.rx, c.scales, name);
      if user.Some? {
        des := des.(scale := FixedScale(c, user.value as real / 1000.0));
        return;
      }
      if c.autoScale == Some(On) {
        des := des.(scale := HeadAutoScale(c, View()));
      } else {
        des := des.(scale := FixedScale(c, 1.0));
      }
    }

    method ChooseTransform(env: Env)
      modifies this`des
      ensures View() == DesireTransform(env, old(View()))
    {
      if !des.enabled {
        return;
      }
      var user := FirstFor(env.rx, env.cfg.transforms, name);
      if user.Some? && user.value != 0 {
        des := des.(transform := user.value);
        return;
      }
      des := des.(transform := 0);
    }

    method ChooseAdaptiveSync(env: Env)
      modifies this`des
      ensures View() == DesireVrr(env, old(View()))
    {
      if !des.enabled {
        return;
      }
      if vrrFailed {
        return;
      }
      var off := false;
      for i := 0 to |env.cfg.vrrOff|
        invariant off <==> exists j | 0 <= j < i :: Matches(env.rx, name, env.cfg.vrrOff[j])
      {
        if Matches(env.rx, name, env.cfg.vrrOff[i]) {
          off := true;
        }
      }
      if off {
        des := des.(vrr := false);
      } else {
        des := des.(vrr := true);
      }
    }

    method ScaleDimensions(env: Env)
      modifies this`scaledWidth, this`scaledHeight
      ensures View() == DesireScaled(env, old(View()))
    {
      var mode := ModeOf(View(), des.zmode);
      if des.scale == 0 || mode.None? {
        return;
      }
      if des.transform % 2 == 0 {
        scaledWidth, scaledHeight := mode.value.width, mode.value.height;
      } else {
        scaledWidth, scaledHeight := mode.value.height, mode.value.width;
      }
      scaledHeight := Scale.ScaledLength(Base(env.cfg), des.scale, scaledHeight);
      scaledWidth := Scale.ScaledLength(Base(env.cfg), des.scale, scaledWidth);
    }

    method DisableToReapply()
      modifies this`des
      ensures View() == DesireReapply(old(View()))
    {
      if reapply {
        des := des.(enabled := false);
      }
    }

    /** The loop body of desire(). */
    method DesireAll(env: Env, names: seq<Name>)
      modifies this
      ensures View() == DesireHead(env, names, old(View()))
    {
      hide DesireEnabled, DesireMode, DesireScale, DesireTransform, DesireVrr, DesireScaled, DesireReapply;
      des := cur;
      Enable(env, names);
      ChooseMode(env);
      ChooseScale(env);
      ChooseTransform(env);
      ChooseAdaptiveSync(env);
      ScaleDimensions(env);
      DisableToReapply();
    }

    /** The switches of desire_positions, for a display that takes part. */
    method PlaceAt(c: Cfg, x: int, y: int, tallest: int, widest: int) returns (nextX: int, nextY: int)
      modifies this`des
      ensures View() == MovedTo(old(View()), Spot(c, x, y, tallest, widest, scaledWidth, scaledHeight))
      ensures nextX == if ArrangeOf(c).Row? then x + scaledWidth else x
      ensures nextY == if ArrangeOf(c).Row? then y else y + scaledHeight
    {
      hide Scale.Trunc;
      nextX, nextY := x, y;
      match c.arrange {
        case Some(Col) =>
          des := des.(y := y);
          nextY := y + scaledHeight;
          match c.align {
            case Some(Right) => des := des.(x := widest - scaledWidth);
            case Some(Middle) => des := des.(x := Scale.Trunc((widest - scaledWidth) as real / 2.0 + 0.5));
            case _ => des := des.(x := 0);
          }
        case _ =>
          des := des.(x := x);
          nextX := x + scaledWidth;
          match c.align {
            case Some(Bottom) => des := des.(y := tallest - scaledHeight);
            case Some(Middle) => des := des.(y := Scale.Trunc((tallest - scaledHeight) as real / 2.0 + 0.5));
            case _ => des := des.(y := 0);
          }
      }
    }
  }

  function MovedTo(h: HeadView, p: Point): HeadView {
    h.(des := h.des.(x := p.x, y := p.y))
  }

  /** The align switch, with what is at the far side and the space that is to spare. */
  function AlignedAt(align: Option<Align>, far: Align, spare: int): int {
    if align == Some(far) then spare
    else if align == Some(Middle) then Scale.Trunc(spare as real / 2.0 + 0.5)
    else 0
  }

  /** Where a display of the given size goes when x and y have been reached. */
  function Spot(c: Cfg, x: int, y: int, tallest: int, widest: int, width: int, height: int): Point {
    if c.arrange == Some(Col) then Point(AlignedAt(c.align, Right, widest - width), y)
    else Point(x, AlignedAt(c.align, Bottom, tallest - height))
  }
}
