/** Where desire() puts the displays: the layout, through the whole pipeline. */
module Placement {
  import opened Seqs
  import opened OrderedMap
  import opened Names
  import opened Modes
  import opened Config
  import opened Reconcile
  import opened FixedPoint
  import Order
  import Layout
  import Scale

  function OrderOf(env: Env, heads: seq<HeadView>): seq<int> {
    Order.Ordered(env.rx, env.cfg.order, NamesOf(heads))
  }

  function BoxesOf(env: Env, heads: seq<HeadView>): seq<Layout.Box> {
    Boxes(DesireEach(env, NamesOf(heads), heads), OrderOf(env, heads))
  }

  /** Where a head is in the order of the layout. */
  lemma OrderPlace(env: Env, heads: seq<HeadView>, i: nat)
    requires i < |heads|
    ensures var (order, k) := (OrderOf(env, heads), PlaceIn(OrderOf(env, heads), i));
      k < |order| && order[k] == i
  {
    Order.OrderedSorts(env.rx, env.cfg.order, NamesOf(heads));
  }

  /** A head that takes part is desired where the layout puts the box of its scaled size. */
  lemma PlacedAtBox(env: Env, heads: seq<HeadView>, i: nat)
    requires i < |heads| && TakesPart(Desire(env, heads)[i])
    ensures var (k, boxes, d) := (PlaceIn(OrderOf(env, heads), i), BoxesOf(env, heads), Desire(env, heads)[i]);
      && k < |boxes| && boxes[k] == Layout.Box(d.scaledWidth, d.scaledHeight, true)
      && Layout.Point(d.des.x, d.des.y) == Layout.Position(ArrangeOf(env.cfg), AlignOf(env.cfg), boxes, k)
  {
    OrderPlace(env, heads, i);
    DesireIs(env, heads, i);
  }

  /** The user gave nothing that is negative. */
  predicate EnvPlausible(env: Env) {
    env.cfg.dpi >= 0 && forall i | 0 <= i < |env.cfg.scales| :: env.cfg.scales[i].1 >= 0
  }

  function Sized(): Mode -> bool {
    (m: Mode) => m.width >= 0 && m.height >= 0
  }

  /** Nor did the compositor. */
  predicate HeadPlausible(h: HeadView) {
    h.scaledWidth >= 0 && h.scaledHeight >= 0 && AllValues(h.modes, Sized())
  }

  predicate Plausible(env: Env, heads: seq<HeadView>) {
    EnvPlausible(env) && forall i | 0 <= i < |heads| :: HeadPlausible(heads[i])
  }

  /** What is quantised to become the scale. */
  function RatioFor(env: Env, h: HeadView): real {
    var c := env.cfg;
    var (user, dpi) := (FirstFor(env.rx, c.scales, h.name), Dpi(ModeOf(h, h.des.zmode), h.widthMm, h.heightMm));
    if c.scaling == Some(Off) then 1.0
    else if user.Some? then user.value as real / 1000.0
    else if c.autoScale == Some(On) && h.des.zmode.Some? && dpi != 0.0 then
      AutoRatio(c, if c.dpi != 0 then c.dpi else DPI_DEFAULT, dpi)
    else 1.0
  }

  lemma ScaleForSteps(env: Env, h: HeadView) returns (f: int)
    ensures ScaleFor(env, h) == Scale.Quantise(Strategy(env.cfg), Base(env.cfg), f)
    ensures f == Scale.FixedFromDouble(RatioFor(env, h))
  {
    f := Scale.FixedFromDouble(RatioFor(env, h));
  }

  /** Every scale that is desired has been quantised, and is not negative. */
  lemma ScaleForQuantised(env: Env, h: HeadView) returns (f: int)
    requires EnvPlausible(env)
    ensures ScaleFor(env, h) == Scale.Quantise(Strategy(env.cfg), Base(env.cfg), f) >= 0
  {
    f := ScaleForSteps(env, h);
    hide Scale.Quantise, Dpi, AutoRatio;
    RatioNotNegative(env, h);
    Scale.FixedScaleBounded(Strategy(env.cfg), Base(env.cfg), RatioFor(env, h), 0);
  }

  lemma RatioNotNegative(env: Env, h: HeadView)
    requires EnvPlausible(env)
    ensures RatioFor(env, h) >= 0.0
  {
    hide Dpi, AutoRatio;
    forall dpiBase, dpi | dpiBase > 0 ensures AutoRatio(env.cfg, dpiBase, dpi) >= 0.0 {
      AutoRatioPositive(env.cfg, dpiBase, dpi);
    }
  }

  function AutoRatio(c: Cfg, dpiBase: int, dpi: real): real
    requires dpiBase != 0
  {
    var b := Base(c);
    Scale.Clamp(dpi, Scale.DpiMin(b, dpiBase, c.scaleMin), Scale.DpiMax(b, dpiBase, c.scaleMax)) / dpiBase as real
  }

  lemma AutoRatioPositive(c: Cfg, dpiBase: int, dpi: real)
    requires dpiBase > 0
    ensures AutoRatio(c, dpiBase, dpi) >= 0.0
  {
  }

  lemma LengthNotNegative(b: Scale.Base, scale: int, n: int)
    requires scale >= 0 && n >= 0
    ensures Scale.ScaledLength(b, scale, n) >= 0
  {
  }

  /** What a head ends with is not negative, whether it is enabled or keeps the scale that it has. */
  lemma DesireSized(env: Env, names: seq<Name>, h: HeadView)
    requires EnvPlausible(env) && HeadPlausible(h)
    requires h.cur.scale >= 0 || DesireHead(env, names, h).des.enabled
    ensures HeadPlausible(DesireHead(env, names, h))
  {
    hide ScaleFor, DesireHead, DesireChoice, DesireDetail, Scale.ScaledLength;
    var c := DesireChoice(env, names, h);
    var d := DesireDetail(env, c);
    DesireHeadIs(env, names, h);
    ChoiceIs(env, names, h);
    DetailIs(env, c);
    DetailScaled(env, c);
    ReapplySized(env, names, h);
    if c.des.enabled {
      DetailDes(env, c);
      var f := ScaleForQuantised(env, c);
    }
    var mode := ModeOf(d, d.des.zmode);
    if d.des.scale != 0 && mode.Some? {
      var k := IndexOf(d.modes, d.des.zmode.value);
      assert mode.value == h.modes[k].1 && Sized()(mode.value);
      LengthNotNegative(Base(env.cfg), d.des.scale, mode.value.width);
      LengthNotNegative(Base(env.cfg), d.des.scale, mode.value.height);
    }
  }

  lemma ReapplySized(env: Env, names: seq<Name>, h: HeadView)
    ensures var (d, r) := (DesireDetail(env, DesireChoice(env, names, h)), DesireHead(env, names, h));
      r.scaledWidth == d.scaledWidth && r.scaledHeight == d.scaledHeight && (r.des.enabled ==> d.des.enabled)
  {
  }

  lemma BoxesSized(env: Env, heads: seq<HeadView>)
    requires Plausible(env, heads)
    ensures Layout.Sized(BoxesOf(env, heads))
  {
    var order, boxes := OrderOf(env, heads), BoxesOf(env, heads);
    forall k | 0 <= k < |boxes| && boxes[k].on ensures boxes[k].width >= 0 && boxes[k].height >= 0 {
      DesireIs(env, heads, order[k]);
      DesireSized(env, NamesOf(heads), heads[order[k]]);
    }
  }

  /** The share of a head along the axis that the displays are arranged on. */
  function From(env: Env, d: HeadView): int {
    if ArrangeOf(env.cfg).Row? then d.des.x else d.des.y
  }

  function Length(env: Env, d: HeadView): int {
    if ArrangeOf(env.cfg).Row? then d.scaledWidth else d.scaledHeight
  }

  /**
   Main result: two displays that take part never overlap: the one whose chosen ORDER name, match kind
   and discovery come first ends where the other starts or before it.
   */
  lemma DesiredApart(env: Env, heads: seq<HeadView>, i: nat, j: nat)
    requires i < |heads| && j < |heads| && i != j && Plausible(env, heads)
    ensures var (a, b) := (Desire(env, heads)[i], Desire(env, heads)[j]);
      TakesPart(a) && TakesPart(b) ==>
        if Order.Precedes(Order.RankOf(env.rx, env.cfg.order, NamesOf(heads)), i, j)
        then From(env, a) + Length(env, a) <= From(env, b)
        else From(env, b) + Length(env, b) <= From(env, a)
  {
    hide Desire, BoxesOf, NamesOf, Order.Ordered;
    if TakesPart(Desire(env, heads)[i]) && TakesPart(Desire(env, heads)[j]) {
      PlacedAtBox(env, heads, i);
      PlacedAtBox(env, heads, j);
      OrderPlace(env, heads, i);
      OrderPlace(env, heads, j);
      BoxesSized(env, heads);
      Order.OrderedSorts(env.rx, env.cfg.order, NamesOf(heads));
      var order, boxes := OrderOf(env, heads), BoxesOf(env, heads);
      var p, q := PlaceIn(order, i), PlaceIn(order, j);
      Layout.StartGrows(ArrangeOf(env.cfg), boxes, if p < q then p else q, if p < q then q else p);
    }
  }

  /** A display that does not take part keeps its position. */
  lemma OthersKeepPosition(env: Env, heads: seq<HeadView>, i: nat)
    requires i < |heads|
    ensures var d := Desire(env, heads)[i];
      !TakesPart(d) ==> d.des.x == heads[i].cur.x && d.des.y == heads[i].cur.y
  {
    DesireIs(env, heads, i);
    DesireHeadIs(env, NamesOf(heads), heads[i]);
  }
}
