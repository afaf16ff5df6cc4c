/**
 The reconcile state machine, on values: what desire() computes for every head, and what act() does
 with the compositor's answers.
 */
module Reconcile {
  import opened Seqs
  import opened OrderedMap
  import opened Names
  import opened Modes
  import opened Config
  import Order
  import Layout
  import Scale

  datatype HeadState = HeadState(
    zmode: Option<ZMode>,
    scale: int,
    enabled: bool,
    x: int,
    y: int,
    transform: nat,
    vrr: bool)

  datatype Override = NoOverride | OverrideTrue | OverrideFalse

  datatype HeadView = HeadView(
    name: Name,
    widthMm: int,
    heightMm: int,
    modes: ModeMap,
    modesFailed: ModeMap,
    preferred: Option<ZMode>,
    scaledWidth: int,
    scaledHeight: int,
    cur: HeadState,
    des: HeadState,
    override: Override,
    reapply: bool,
    vrrFailed: bool)

  /** The configuration and the lid, as act() finds them. */
  datatype Env = Env(rx: Regex, cfg: Cfg, lid: Option<bool>)

  // -------- desire, head by head --------

  /** The first entry whose name matches the head. */
  function FirstFor<V>(rx: Regex, m: Entries<string, V>, head: Name): Option<V> {
    var e := FirstThat(m, NamedFor<V>(rx, head));
    if e.Some? then Some(e.value.1) else None
  }

  function NamedFor<V>(rx: Regex, head: Name): ((string, V)) -> bool {
    (e: (string, V)) => Matches(rx, head, e.0)
  }

  /** Enabled unless disabled; the lid closed condition fails for an only head. */
  predicate AutoEnabled(env: Env, names: seq<Name>, h: HeadView) {
    !DisabledApplies(env.rx, names, env.lid, |names| == 1, env.cfg.disableds, h.name)
  }

  function DesireEnabled(env: Env, names: seq<Name>, h: HeadView): HeadView {
    var auto := AutoEnabled(env, names, h);
    // reset a manual override that the automatic state has caught up with
    var override := if !h.override.NoOverride? && auto == h.override.OverrideTrue? then NoOverride else h.override;
    var enabled := match override
      case NoOverride => auto
      case OverrideTrue => true
      case OverrideFalse => false;
    h.(override := override, des := h.des.(enabled := enabled))
  }

  function FoundMode(env: Env, h: HeadView): Option<ZMode> {
    FindMode(FirstFor(env.rx, env.cfg.modes, h.name), h.modes, h.preferred)
  }

  function DesireMode(env: Env, h: HeadView): HeadView {
    if !h.des.enabled then h
    else
      var zmode := FoundMode(env, h);
      h.(des := if zmode.Some? then h.des.(zmode := zmode) else h.des.(enabled := false))
  }

  function Strategy(c: Cfg): Scale.Strategy {
    if c.roundStrategy.Some? then c.roundStrategy.value else Scale.Nearest
  }

  function Base(c: Cfg): Scale.Base {
    if c.roundTo.Some? then c.roundTo.value else Scale.ROUND_TO_DEFAULT
  }

  /** head_get_fixed_scale under the configuration. */
  function FixedScale(c: Cfg, scale: real): int {
    Scale.FixedScale(Strategy(c), Base(c), scale)
  }

  function ModeOf(h: HeadView, zmode: Option<ZMode>): Option<Mode> {
    if zmode.Some? then Get(h.modes, zmode.value) else None
  }

  /** mode_dpi: 0 without dimensions. */
  function Dpi(mode: Option<Mode>, widthMm: int, heightMm: int): real {
    if mode.None? || widthMm == 0 || heightMm == 0 then 0.0
    else
      (mode.value.width as real / widthMm as real * 25.4 + mode.value.height as real / heightMm as real * 25.4) / 2.0
  }

  /** head_auto_scale */
  function HeadAutoScale(c: Cfg, h: HeadView): int {
    var dpi := Dpi(ModeOf(h, h.des.zmode), h.widthMm, h.heightMm);
    if h.des.zmode.None? || dpi == 0.0 then FixedScale(c, 1.0)
    else
      var dpiBase := if c.dpi != 0 then c.dpi else DPI_DEFAULT;
      Scale.AutoScale(Strategy(c), Base(c), dpiBase, c.scaleMin, c.scaleMax, dpi)
  }

  /** The user's scale, else by DPI, else 1. */
  function ScaleFor(env: Env, h: HeadView): int {
    var c := env.cfg;
    var user := FirstFor(env.rx, c.scales, h.name);
    if c.scaling == Some(Off) then FixedScale(c, 1.0)
    else if user.Some? then FixedScale(c, user.value as real / 1000.0)
    else if c.autoScale == Some(On) then HeadAutoScale(c, h)
    else FixedScale(c, 1.0)
  }

  function DesireScale(env: Env, h: HeadView): HeadView {
    if !h.des.enabled then h else h.(des := h.des.(scale := ScaleFor(env, h)))
  }

  function DesireTransform(env: Env, h: HeadView): HeadView {
    var user := FirstFor(env.rx, env.cfg.transforms, h.name);
    if !h.des.enabled then h else h.(des := h.des.(transform := if user.Some? then user.value else 0))
  }

  predicate WantsVrr(env: Env, h: HeadView) {
    !exists i | 0 <= i < |env.cfg.vrrOff| :: Matches(env.rx, h.name, env.cfg.vrrOff[i])
  }

  function DesireVrr(env: Env, h: HeadView): HeadView {
    if !h.des.enabled || h.vrrFailed then h else h.(des := h.des.(vrr := WantsVrr(env, h)))
  }

  /** The mode's dimensions, turned if the transform turns them. */
  function Turned(mode: Mode, transform: nat): (int, int) {
    if transform % 2 == 0 then (mode.width, mode.height) else (mode.height, mode.width)
  }

  function DesireScaled(env: Env, h: HeadView): HeadView {
    var mode := ModeOf(h, h.des.zmode);
    if h.des.scale == 0 || mode.None? then h
    else
      var (width, height) := Turned(mode.value, h.des.transform);
      var b := Base(env.cfg);
      h.(scaledWidth := Scale.ScaledLength(b, h.des.scale, width),
         scaledHeight := Scale.ScaledLength(b, h.des.scale, height))
  }

  function DesireReapply(h: HeadView): HeadView {
    if h.reapply then h.(des := h.des.(enabled := false)) else h
  }

  /** Whether a head is to be enabled, and with which mode. */
  function DesireChoice(env: Env, names: seq<Name>, h: HeadView): HeadView {
    DesireMode(env, DesireEnabled(env, names, h.(des := h.cur)))
  }

  /** Everything else that an enabled head is to have. */
  function DesireDetail(env: Env, h: HeadView): HeadView {
    DesireScaled(env, DesireVrr(env, DesireTransform(env, DesireScale(env, h))))
  }

  /** The loop body of desire(). */
  function DesireHead(env: Env, names: seq<Name>, h: HeadView): HeadView {
    DesireReapply(DesireDetail(env, DesireChoice(env, names, h)))
  }

  // -------- desire, all heads --------

  function NamesOf(heads: seq<HeadView>): (ns: seq<Name>)
    ensures |ns| == |heads| && forall i | 0 <= i < |heads| :: ns[i] == heads[i].name
  {
    seq(|heads|, i requires 0 <= i < |heads| => heads[i].name)
  }

  function DesireEach(env: Env, names: seq<Name>, heads: seq<HeadView>): (ds: seq<HeadView>)
    ensures |ds| == |heads| && forall i | 0 <= i < |heads| :: ds[i] == DesireHead(env, names, heads[i])
  {
    seq(|heads|, i requires 0 <= i < |heads| => DesireHead(env, names, heads[i]))
  }

  /** A head takes part in the layout when it is desired enabled with a mode. */
  predicate TakesPart(h: HeadView) {
    h.des.zmode.Some? && h.des.enabled
  }

  function BoxOf(h: HeadView): Layout.Box {
    if TakesPart(h) then Layout.Box(h.scaledWidth, h.scaledHeight, true) else Layout.Box(0, 0, false)
  }

  function Boxes(heads: seq<HeadView>, order: seq<int>): (bs: seq<Layout.Box>)
    ensures |bs| == |order|
  {
    seq(|order|, k requires 0 <= k < |order| =>
      if 0 <= order[k] < |heads| then BoxOf(heads[order[k]]) else Layout.Box(0, 0, false))
  }

  function ArrangeOf(c: Cfg): Layout.Arrange {
    if c.arrange.Some? then c.arrange.value else Layout.Row
  }

  function AlignOf(c: Cfg): Layout.Align {
    if c.align.Some? then c.align.value
    else if ArrangeOf(c) == Layout.Row then Layout.Top else Layout.Left
  }

  /** A head that takes part goes where the layout puts its box; another keeps its position. */
  function Placed(c: Cfg, h: HeadView, boxes: seq<Layout.Box>, k: nat): HeadView {
    if TakesPart(h) && k < |boxes| then
      var p := Layout.Position(ArrangeOf(c), AlignOf(c), boxes, k);
      h.(des := h.des.(x := p.x, y := p.y))
    else h
  }

  function PlaceEach(c: Cfg, heads: seq<HeadView>, order: seq<int>): (ps: seq<HeadView>)
    ensures |ps| == |heads|
    ensures forall i | 0 <= i < |heads| :: ps[i] == Placed(c, heads[i], Boxes(heads, order), PlaceIn(order, i))
  {
    var boxes := Boxes(heads, order);
    seq(|heads|, i requires 0 <= i < |heads| => Placed(c, heads[i], boxes, PlaceIn(order, i)))
  }

  /** desire() */
  function Desire(env: Env, heads: seq<HeadView>): (ds: seq<HeadView>)
    ensures |ds| == |heads|
  {
    var names := NamesOf(heads);
    PlaceEach(env.cfg, DesireEach(env, names, heads), Order.Ordered(env.rx, env.cfg.order, names))
  }

  // -------- act --------

  /** head_current_not_desired */
  predicate Differs(h: HeadView) {
    h.reapply || h.des != h.cur
  }

  /** head_reapply_required */
  predicate NeedsReapply(h: HeadView) {
    h.reapply
  }

  predicate ModeDiffers(h: HeadView) {
    h.des.zmode != h.cur.zmode
  }

  predicate VrrDiffers(h: HeadView) {
    h.des.vrr != h.cur.vrr
  }

  datatype DisplState = Idle | Succeeded | Outstanding | Cancelled | Failed

  datatype Element = Many | ModeElement | VrrElement

  /** What is being changed; a head is named by its place in discovery order. */
  datatype Delta = Delta(element: Element, head: Option<nat>, zmode: Option<ZMode>)

  const NO_DELTA: Delta := Delta(Many, None, None)

  datatype Sys = Sys(heads: seq<HeadView>, state: DisplState, delta: Delta, retries: nat, exited: bool)

  datatype Item =
    | EnableItem(head: nat, scale: int, x: int, y: int, transform: nat)
    | DisableItem(head: nat)

  /** A configuration that is applied: one to disable, one to change a mode or VRR, or many others. */
  datatype Request =
    | Disable(head: nat)
    | SetMode(head: nat, zmode: Option<ZMode>)
    | SetVrr(head: nat, vrr: bool)
    | Arrange(items: seq<Item>)

  const MAX_CANCELLATION_RETRIES: nat := 5

  function MoveToFailed(h: HeadView, zmode: Option<ZMode>): HeadView {
    var mode := ModeOf(h, zmode);
    h.(modes := if zmode.Some? then Remove(h.modes, zmode.value) else h.modes,
       modesFailed := if mode.Some? then Put(h.modesFailed, zmode.value, mode.value) else h.modesFailed,
       cur := h.cur.(zmode := None))
  }

  /** act_handle_failure */
  function HandleFailure(s: Sys): Sys {
    var d := s.delta;
    var known := d.head.Some? && d.head.value < |s.heads|;
    match d.element
    case ModeElement =>
      if known then
        s.(heads := s.heads[d.head.value := MoveToFailed(s.heads[d.head.value], d.zmode)], delta := NO_DELTA)
      else s.(delta := NO_DELTA)
    case VrrElement =>
      if known && VrrDiffers(s.heads[d.head.value]) then
        s.(heads := s.heads[d.head.value := s.heads[d.head.value].(vrrFailed := true)], delta := NO_DELTA)
      else s.(delta := NO_DELTA)
    case Many => s.(exited := true, delta := NO_DELTA)
  }

  /** act_handle_success: a VRR change that did not take is a failure. */
  function HandleSuccess(s: Sys): Sys {
    var d := s.delta;
    var known := d.head.Some? && d.head.value < |s.heads|;
    if known && d.element == ModeElement then
      var h := s.heads[d.head.value];
      s.(heads := s.heads[d.head.value := h.(cur := h.cur.(zmode := d.zmode))], retries := 0, delta := NO_DELTA)
    else if known && d.element == VrrElement && VrrDiffers(s.heads[d.head.value]) then
      HandleFailure(s.(retries := 0))
    else s.(retries := 0, delta := NO_DELTA)
  }

  /** The answer dealt with, and whether act() goes on to desire and apply. */
  function Handled(s: Sys): (Sys, bool) {
    match s.state
    case Idle => (s, true)
    case Outstanding => (s, false)
    case Succeeded => (HandleSuccess(s).(state := Idle), true)
    case Failed =>
      var h := HandleFailure(s);
      if h.exited then (h, false) else (h.(state := Idle), true)
    case Cancelled =>
      (s.(state := Idle, retries := s.retries + 1), s.retries + 1 <= MAX_CANCELLATION_RETRIES)
  }

  /** The place of the first head that passes, or |heads|. */
  function First(heads: seq<HeadView>, pass: HeadView -> bool): (i: nat)
    ensures i <= |heads| && (i < |heads| ==> pass(heads[i])) && forall j | 0 <= j < i :: !pass(heads[j])
  {
    NextAt(heads, 0, pass)
  }

  function ItemFor(h: HeadView, i: nat): Item {
    if h.des.enabled then EnableItem(i, h.des.scale, h.des.x, h.des.y, h.des.transform) else DisableItem(i)
  }

  /** An item for every changing head, in order. */
  function Items(heads: seq<HeadView>, n: nat): seq<Item>
    requires n <= |heads|
  {
    if n == 0 then []
    else Items(heads, n - 1) + if Differs(heads[n - 1]) then [ItemFor(heads[n - 1], n - 1)] else []
  }

  /** The change to be made when heads differ: reapply, then a single mode, then a single VRR, then everything else. */
  function Change(hs: seq<HeadView>): (seq<HeadView>, Delta, Request) {
    var n := |hs|;
    var reapply, mode, vrr := First(hs, NeedsReapply), First(hs, ModeDiffers), First(hs, VrrDiffers);
    if reapply < n then
      (hs[reapply := hs[reapply].(reapply := false)], Delta(Many, Some(reapply), None), Disable(reapply))
    else if mode < n then (hs, Delta(ModeElement, Some(mode), hs[mode].des.zmode), SetMode(mode, hs[mode].des.zmode))
    else if vrr < n then (hs, Delta(VrrElement, Some(vrr), None), SetVrr(vrr, hs[vrr].des.vrr))
    else (hs, NO_DELTA, Arrange(Items(hs, n)))
  }

  /** act_apply */
  function Apply(s: Sys): (Sys, Option<Request>) {
    if First(s.heads, Differs) == |s.heads| then (s.(delta := NO_DELTA), None)
    else
      var (heads, delta, request) := Change(s.heads);
      (s.(heads := heads, delta := delta, state := Outstanding), Some(request))
  }

  /** act(): at most one request. */
  function Act(env: Env, s: Sys): (Sys, Option<Request>) {
    var (handled, goOn) := Handled(s);
    if s.exited || !goOn then (handled, None) else Apply(handled.(heads := Desire(env, handled.heads)))
  }

  // -------- what one head wants, in one step --------

  /** Enabled by the configuration or by an override that still stands. */
  predicate Wants(env: Env, names: seq<Name>, h: HeadView) {
    match h.override
    case NoOverride => AutoEnabled(env, names, h)
    case OverrideTrue => true
    case OverrideFalse => false
  }

  predicate Usable(env: Env, names: seq<Name>, h: HeadView) {
    Wants(env, names, h) && h.modes != []
  }

  /** What desire() never changes of a head. */
  predicate SameHead(d: HeadView, h: HeadView) {
    && d.name == h.name && d.modes == h.modes && d.modesFailed == h.modesFailed && d.preferred == h.preferred
    && d.cur == h.cur && d.reapply == h.reapply && d.vrrFailed == h.vrrFailed
    && d.widthMm == h.widthMm && d.heightMm == h.heightMm
  }

  lemma ChoiceIs(env: Env, names: seq<Name>, h: HeadView)
    ensures var d := DesireChoice(env, names, h);
      && SameHead(d, h) && Wants(env, names, d) == Wants(env, names, h)
      && d.scaledWidth == h.scaledWidth && d.scaledHeight == h.scaledHeight
      && (Usable(env, names, h) ==> FoundMode(env, h).Some? && d.des == h.cur.(enabled := true, zmode := FoundMode(env, h)))
      && (!Usable(env, names, h) ==> d.des == h.cur.(enabled := false))
  {
  }

  /** What the details leave alone. */
  predicate Detailed(h: HeadView, d: HeadView) {
    && SameHead(d, h) && d.override == h.override
    && d.des.enabled == h.des.enabled && d.des.zmode == h.des.zmode && d.des.x == h.des.x && d.des.y == h.des.y
    && (!h.des.enabled ==> d.des == h.des)
  }

  lemma ScaledIs(env: Env, h: HeadView)
    ensures Detailed(h, DesireScaled(env, h)) && DesireScaled(env, h).des == h.des
  {
  }

  lemma DetailIs(env: Env, h: HeadView)
    ensures var d := DesireDetail(env, h);
      && Detailed(h, d)
      && d.des.vrr == (if h.des.enabled && !h.vrrFailed then WantsVrr(env, h) else h.des.vrr)
  {
  }

  /** desire() in one step: everything that is desired of a usable head; another only loses enabled. */
  lemma DesireHeadIs(env: Env, names: seq<Name>, h: HeadView)
    ensures var d := DesireHead(env, names, h);
      && SameHead(d, h) && Wants(env, names, d) == Wants(env, names, h)
      && d.des.enabled == (Usable(env, names, h) && !h.reapply)
      && d.des.x == h.cur.x && d.des.y == h.cur.y
      && (Usable(env, names, h) ==> d.des.zmode == FoundMode(env, h) && d.des.zmode.Some?)
      && (Usable(env, names, h) ==> d.des.vrr == if h.vrrFailed then h.cur.vrr else WantsVrr(env, h))
      && (!Usable(env, names, h) ==> d.des == h.cur.(enabled := false))
  {
    ChoiceIs(env, names, h);
    DetailIs(env, DesireChoice(env, names, h));
  }
}
