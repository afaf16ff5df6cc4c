/** What desire() makes of the user's entries and of a display's mode: scale, transform, VRR, size and position. */
module DesiredLaws {
  import opened Seqs
  import opened OrderedMap
  import opened Names
  import opened Modes
  import opened Config
  import opened Reconcile
  import opened FixedPoint
  import opened Placement
  import opened AutoScaleLaws
  import Order
  import Layout
  import Scale

  // -------- the user's entries --------

  /** The i-th entry is the first whose name matches the display. */
  predicate FirstNamed<V>(rx: Regex, m: Entries<string, V>, head: Name, i: nat) {
    i < |m| && Matches(rx, head, m[i].0) && forall j | 0 <= j < i :: !Matches(rx, head, m[j].0)
  }

  predicate NoneNamed<V>(rx: Regex, m: Entries<string, V>, head: Name) {
    forall j | 0 <= j < |m| :: !Matches(rx, head, m[j].0)
  }

  lemma FirstForIs<V>(rx: Regex, m: Entries<string, V>, head: Name)
    ensures FirstFor(rx, m, head).None? <==> NoneNamed(rx, m, head)
    ensures forall i: nat | FirstNamed(rx, m, head, i) :: FirstFor(rx, m, head) == Some(m[i].1)
  {
    var i := NextAt(m, 0, NamedFor<V>(rx, head));
    assert i < |m| ==> NamedFor<V>(rx, head)(m[i]);
  }

  lemma SomeNamed<V>(rx: Regex, m: Entries<string, V>, head: Name) returns (i: nat)
    requires !NoneNamed(rx, m, head)
    ensures FirstNamed(rx, m, head, i)
  {
    i := NextAt(m, 0, NamedFor<V>(rx, head));
  }

  /** How the configuration asks for scales to be rounded: to the nearest eighth if it does not say. */
  predicate RoundsBy(c: Cfg, strategy: Scale.Strategy, b: Scale.Base) {
    && (c.roundStrategy == Some(strategy) || (c.roundStrategy.None? && strategy == Scale.Nearest))
    && (c.roundTo == Some(b) || (c.roundTo.None? && b == 8))
  }

  /** The mean of both axes; 0 when a length is not known. */
  lemma DpiIsMean(mode: Option<Mode>, widthMm: int, heightMm: int, x: real, y: real)
    ensures mode.None? || widthMm == 0 || heightMm == 0 ==> Dpi(mode, widthMm, heightMm) == 0.0
    ensures mode.Some? && widthMm != 0 && heightMm != 0 ==>
      x * widthMm as real == mode.value.width as real * 25.4 && y * heightMm as real == mode.value.height as real * 25.4 ==>
      Dpi(mode, widthMm, heightMm) - x == y - Dpi(mode, widthMm, heightMm)
    ensures mode.Some? && widthMm > 0 && heightMm > 0 && mode.value.width > 0 && mode.value.height > 0 ==>
      Dpi(mode, widthMm, heightMm) > 0.0
  {
    if mode.Some? && widthMm != 0 && heightMm != 0 {
      Quotient(mode.value.width as real, widthMm as real, x);
      Quotient(mode.value.height as real, heightMm as real, y);
    }
  }

  lemma Quotient(n: real, d: real, x: real)
    requires d != 0.0
    ensures x * d == n * 25.4 ==> x == n / d * 25.4
  {
    var q := n / d;
    assert q * d == n;
    if x * d == n * 25.4 {
      assert (x - q * 25.4) * d == 0.0;
    }
  }

  /**
   The scale: 1 when scaling is off; else the first SCALE that matches; else by DPI, when AUTO_SCALE is on and
   the DPI is known; else 1.
   */
  predicate ScaleIs(env: Env, strategy: Scale.Strategy, b: Scale.Base, h: HeadView, scale: int) {
    var (c, dpi) := (env.cfg, Dpi(ModeOf(h, h.des.zmode), h.widthMm, h.heightMm));
    if c.scaling == Some(Off) then scale == 256
    else if !NoneNamed(env.rx, c.scales, h.name) then
      forall i | 0 <= i < |c.scales| && FirstNamed(env.rx, c.scales, h.name, i) ::
        NextTo(strategy, b, c.scales[i].1 as real / 1000.0, scale)
    else if c.autoScale == Some(On) && dpi != 0.0 then
      scale == Scale.AutoScale(strategy, b, if c.dpi == 0 then 96 else c.dpi, c.scaleMin, c.scaleMax, dpi)
    else scale == 256
  }

  /** The transform: the first TRANSFORM that matches, or none. */
  predicate TransformIs(env: Env, h: HeadView, transform: nat) {
    && (NoneNamed(env.rx, env.cfg.transforms, h.name) ==> transform == 0)
    && forall i | 0 <= i < |env.cfg.transforms| && FirstNamed(env.rx, env.cfg.transforms, h.name, i) ::
         transform == env.cfg.transforms[i].1
  }

  lemma ScaleForIs(env: Env, strategy: Scale.Strategy, b: Scale.Base, h: HeadView)
    requires RoundsBy(env.cfg, strategy, b)
    ensures ScaleIs(env, strategy, b, h, ScaleFor(env, h))
  {
    hide Scale.FixedScale, Scale.AutoScale, NextTo, NoneNamed, FirstNamed, Dpi;
    var c := env.cfg;
    var dpi := Dpi(ModeOf(h, h.des.zmode), h.widthMm, h.heightMm);
    OneStays(strategy, b);
    FirstForIs(env.rx, c.scales, h.name);
    DpiIsMean(ModeOf(h, h.des.zmode), h.widthMm, h.heightMm, 0.0, 0.0);
    forall i | 0 <= i < |c.scales| && FirstNamed(env.rx, c.scales, h.name, i)
      ensures NextTo(strategy, b, c.scales[i].1 as real / 1000.0, Scale.FixedScale(strategy, b, c.scales[i].1 as real / 1000.0))
    {
      FixedScaleNext(strategy, b, c.scales[i].1 as real / 1000.0);
    }
  }

  lemma TransformForIs(env: Env, h: HeadView)
    ensures TransformIs(env, h, TransformFor(env, h))
  {
    hide NoneNamed, FirstNamed;
    FirstForIs(env.rx, env.cfg.transforms, h.name);
  }

  lemma FoundHas(env: Env, h: HeadView)
    ensures FoundMode(env, h).Some? ==> Has(h.modes, FoundMode(env, h).value)
  {
    FindModeFinds(FirstFor(env.rx, env.cfg.modes, h.name), h.modes, h.preferred);
  }

  lemma DesiredDetail(env: Env, heads: seq<HeadView>, i: nat)
    requires i < |heads| && TakesPart(Desire(env, heads)[i])
    ensures var (d, h) := (Desire(env, heads)[i], heads[i]);
      && SameHead(d, h) && d.des.scale == ScaleFor(env, d) && d.des.transform == TransformFor(env, d)
      && d.des.vrr == (if h.vrrFailed then h.cur.vrr else WantsVrr(env, h))
      && d.des.zmode == FoundMode(env, h) && d.des.zmode.Some? && Has(h.modes, d.des.zmode.value)
      && ScaledFits(env, d, h.scaledWidth, h.scaledHeight)
  {
    hide Desire, ScaleFor, TransformFor, WantsVrr, FoundMode, ScaledFits, DesireDetail, DesireChoice;
    var names, h, d := NamesOf(heads), heads[i], Desire(env, heads)[i];
    var c := DesireChoice(env, names, h);
    DesireIs(env, heads, i);
    DesireHeadIs(env, names, h);
    ChoiceIs(env, names, h);
    DetailIs(env, c);
    DetailDes(env, c);
    DetailScaled(env, c);
    FoundHas(env, h);
    ScaleForSame(env, d, c);
    TransformForSame(env, d, c);
    ScaledFitsMoved(env, DesireDetail(env, c), d, h.scaledWidth, h.scaledHeight);
  }

  lemma TransformForSame(env: Env, a: HeadView, b: HeadView)
    requires a.name == b.name
    ensures TransformFor(env, a) == TransformFor(env, b)
  {
  }

  lemma ScaledFitsMoved(env: Env, a: HeadView, b: HeadView, width: int, height: int)
    requires ScaledFits(env, a, width, height) && a.modes == b.modes
    requires b.scaledWidth == a.scaledWidth && b.scaledHeight == a.scaledHeight
    requires b.des == a.des.(x := b.des.x, y := b.des.y)
    ensures ScaledFits(env, b, width, height)
  {
  }

  /**
   Main result: the scale, transform and VRR of a display that takes part: VRR is on unless a VRR_OFF name
   matches, and as it is when it has failed.
   */
  lemma DesiredFollowsEntries(env: Env, strategy: Scale.Strategy, b: Scale.Base, heads: seq<HeadView>, i: nat)
    requires i < |heads| && TakesPart(Desire(env, heads)[i]) && RoundsBy(env.cfg, strategy, b)
    ensures var (d, off) := (Desire(env, heads)[i], env.cfg.vrrOff);
      && ScaleIs(env, strategy, b, d, d.des.scale)
      && TransformIs(env, d, d.des.transform)
      && (d.vrrFailed ==> d.des.vrr == d.cur.vrr)
      && (!d.vrrFailed ==> (d.des.vrr <==> forall j | 0 <= j < |off| :: !Matches(env.rx, d.name, off[j])))
  {
    hide Desire, ScaleFor, TransformFor, ScaleIs, TransformIs, FoundMode, ScaledFits;
    DesiredDetail(env, heads, i);
    ScaleForIs(env, strategy, b, Desire(env, heads)[i]);
    TransformForIs(env, Desire(env, heads)[i]);
  }

  // -------- sizes --------

  /** l is the logical length of n pixels at a fixed point scale, truncated. */
  predicate LogicalLength(n: int, scale: int, l: int) {
    l * scale <= 256 * n < (l + 1) * scale
  }

  /** The width and height of a mode as a transform shows it: the odd ones, up to 270 flipped, are on their side. */
  predicate Shows(m: Mode, transform: nat, width: int, height: int) {
    && (transform in {0, 2, 4, 6} ==> width == m.width && height == m.height)
    && (transform in {1, 3, 5, 7} ==> width == m.height && height == m.width)
  }

  /** Main result: the size of a display that takes part is that of its mode, as its transform shows it, scaled. */
  lemma DesiredSize(env: Env, heads: seq<HeadView>, i: nat) returns (m: Mode, width: int, height: int)
    requires i < |heads| && TakesPart(Desire(env, heads)[i])
    ensures var d := Desire(env, heads)[i];
      && Get(d.modes, d.des.zmode.value) == Some(m)
      && Shows(m, d.des.transform, width, height)
      && (d.des.scale > 0 ==> LogicalLength(width, d.des.scale, d.scaledWidth) && LogicalLength(height, d.des.scale, d.scaledHeight))
  {
    hide Desire, ScaleFor, TransformFor, FoundMode, WantsVrr, Scale.ScaledLength;
    var d := Desire(env, heads)[i];
    DesiredDetail(env, heads, i);
    m := Get(heads[i].modes, d.des.zmode.value).value;
    var turned := Turned(m, d.des.transform);
    width, height := turned.0, turned.1;
    if d.des.scale > 0 {
      var f := ScaleForSteps(env, d);
      Scale.ScaledLengthTruncates(Strategy(env.cfg), Base(env.cfg), f, width);
      Scale.ScaledLengthTruncates(Strategy(env.cfg), Base(env.cfg), f, height);
    }
  }

  // -------- positions --------

  predicate InColumn(env: Env) {
    env.cfg.arrange == Some(Layout.Col)
  }

  /** a ends, by the logical size of its mode as its transform shows it, where b starts or before it. */
  ghost predicate EndsBySize(env: Env, a: HeadView, b: HeadView) {
    exists m, width, height ::
      && a.des.zmode.Some? && Get(a.modes, a.des.zmode.value) == Some(m) && Shows(m, a.des.transform, width, height)
      && if InColumn(env) then 256 * height < (b.des.y - a.des.y + 1) * a.des.scale
         else 256 * width < (b.des.x - a.des.x + 1) * a.des.scale
  }

  /**
   Main result: of two displays that take part, the one that ORDER puts first ends where the other starts or
   before it, by the size of its mode as its transform shows it.
   */
  lemma DesiredApartBySize(env: Env, heads: seq<HeadView>, i: nat, j: nat)
    requires i < |heads| && j < |heads| && i != j && Plausible(env, heads)
    requires TakesPart(Desire(env, heads)[i]) && TakesPart(Desire(env, heads)[j])
    requires Order.Precedes(Order.RankOf(env.rx, env.cfg.order, NamesOf(heads)), i, j)
    requires Desire(env, heads)[i].des.scale > 0
    ensures EndsBySize(env, Desire(env, heads)[i], Desire(env, heads)[j])
  {
    hide Desire, NamesOf, Shows, Plausible, Order.Precedes, Order.RankOf;
    var a, b := Desire(env, heads)[i], Desire(env, heads)[j];
    var m, width, height := DesiredSize(env, heads, i);
    DesiredApart(env, heads, i, j);
    if InColumn(env) {
      LongerStill(height, a.des.scale, a.scaledHeight, b.des.y - a.des.y);
    } else {
      LongerStill(width, a.des.scale, a.scaledWidth, b.des.x - a.des.x);
    }
  }

  lemma LongerStill(n: int, scale: int, l: int, space: int)
    requires LogicalLength(n, scale, l) && scale > 0 && l <= space
    ensures 256 * n < (space + 1) * scale
  {
    assert (space - l) * scale >= 0;
    assert (space + 1) * scale == (l + 1) * scale + (space - l) * scale;
  }

  /** Nothing that takes part comes between i and j. */
  ghost predicate NextTaking(env: Env, heads: seq<HeadView>, i: nat, j: nat)
    requires i < |heads| && j < |heads|
  {
    var rank := Order.RankOf(env.rx, env.cfg.order, NamesOf(heads));
    var ds := Desire(env, heads);
    && Order.Precedes(rank, i, j)
    && forall k | 0 <= k < |heads| && TakesPart(ds[k]) :: !(Order.Precedes(rank, i, k) && Order.Precedes(rank, k, j))
  }

  ghost predicate FirstTaking(env: Env, heads: seq<HeadView>, i: nat) {
    var rank := Order.RankOf(env.rx, env.cfg.order, NamesOf(heads));
    var ds := Desire(env, heads);
    forall k | 0 <= k < |heads| && TakesPart(ds[k]) :: !Order.Precedes(rank, k, i)
  }

  lemma BoxesTake(env: Env, heads: seq<HeadView>, k: nat)
    requires k < |OrderOf(env, heads)|
    ensures var (order, boxes) := (OrderOf(env, heads), BoxesOf(env, heads));
      0 <= order[k] < |heads| && k < |boxes| && boxes[k].on == TakesPart(Desire(env, heads)[order[k]])
  {
    hide Desire, DesireHead, Order.Ordered;
    var order := OrderOf(env, heads);
    assert order[k] in order;
    Order.OrderedSorts(env.rx, env.cfg.order, NamesOf(heads));
    DesireIs(env, heads, order[k]);
  }

  /** Main result: displays that take part leave no gap, and the first starts at 0. */
  lemma DesiredPacked(env: Env, heads: seq<HeadView>, i: nat, j: nat)
    requires i < |heads| && j < |heads| && Plausible(env, heads)
    ensures var (a, b) := (Desire(env, heads)[i], Desire(env, heads)[j]);
      && (TakesPart(a) && FirstTaking(env, heads, i) ==> (if InColumn(env) then a.des.y else a.des.x) == 0)
      && (TakesPart(a) && TakesPart(b) && NextTaking(env, heads, i, j) ==>
            if InColumn(env) then b.des.y == a.des.y + a.scaledHeight else b.des.x == a.des.x + a.scaledWidth)
  {
    hide Desire, BoxesOf, NamesOf, Order.Ordered, Order.RankOf, Plausible;
    var order, boxes, ds := OrderOf(env, heads), BoxesOf(env, heads), Desire(env, heads);
    var rank := Order.RankOf(env.rx, env.cfg.order, NamesOf(heads));
    var p, q := PlaceIn(order, i), PlaceIn(order, j);
    Order.OrderedSorts(env.rx, env.cfg.order, NamesOf(heads));
    OrderPlace(env, heads, i);
    OrderPlace(env, heads, j);
    forall k | 0 <= k < |order| ensures 0 <= order[k] < |heads| && k < |boxes| && boxes[k].on == TakesPart(ds[order[k]]) {
      BoxesTake(env, heads, k);
    }
    if TakesPart(ds[i]) {
      PlacedAtBox(env, heads, i);
      if FirstTaking(env, heads, i) {
        forall k | 0 <= k < p ensures !boxes[k].on {
          BoxesTake(env, heads, k);
          assert Order.Precedes(rank, order[k], i);
        }
        Layout.FirstStarts(ArrangeOf(env.cfg), boxes, p);
      }
      if TakesPart(ds[j]) && NextTaking(env, heads, i, j) {
        PlacedAtBox(env, heads, j);
        BoxesSized(env, heads);
        assert p < q;
        assert forall k | p < k < q :: Order.Precedes(rank, order[p], order[k]) && Order.Precedes(rank, order[k], order[q]);
        Layout.StartGrows(ArrangeOf(env.cfg), boxes, p, q);
      }
    }
  }

  function AcrossOf(env: Env, d: HeadView): int {
    if InColumn(env) then d.scaledWidth else d.scaledHeight
  }

  /** The largest size across of the displays that take part. */
  ghost predicate LargestAcross(env: Env, heads: seq<HeadView>, e: int) {
    var ds := Desire(env, heads);
    && (forall k | 0 <= k < |heads| && TakesPart(ds[k]) :: AcrossOf(env, ds[k]) <= e)
    && exists k | 0 <= k < |heads| && TakesPart(ds[k]) :: AcrossOf(env, ds[k]) == e
  }

  lemma ExtentIsLargest(env: Env, heads: seq<HeadView>, e: int)
    requires Plausible(env, heads) && LargestAcross(env, heads, e)
    ensures Layout.Extent(ArrangeOf(env.cfg), BoxesOf(env, heads)) == e
  {
    hide Desire, BoxesOf, NamesOf, Order.Ordered, Plausible;
    var arrange, order, boxes, ds := ArrangeOf(env.cfg), OrderOf(env, heads), BoxesOf(env, heads), Desire(env, heads);
    var k :| 0 <= k < |heads| && TakesPart(ds[k]) && AcrossOf(env, ds[k]) == e;
    OrderPlace(env, heads, k);
    PlacedAtBox(env, heads, k);
    assert Layout.Across(arrange, boxes[PlaceIn(order, k)]) == e;
    BoxesSized(env, heads);
    Layout.ExtentAttained(arrange, boxes);
    BoxesCount(env, heads);
    if p :| 0 <= p < |boxes| && boxes[p].on && Layout.Across(arrange, boxes[p]) == Layout.Extent(arrange, boxes) {
      BoxesTake(env, heads, p);
      PlaceInOrder(env, heads, p);
      PlacedAtBox(env, heads, order[p]);
    }
  }

  lemma BoxesCount(env: Env, heads: seq<HeadView>)
    ensures |BoxesOf(env, heads)| == |OrderOf(env, heads)|
  {
  }

  lemma PlaceInOrder(env: Env, heads: seq<HeadView>, p: nat)
    requires p < |OrderOf(env, heads)|
    ensures PlaceIn(OrderOf(env, heads), OrderOf(env, heads)[p]) == p
  {
    hide Order.Ordered;
    var order := OrderOf(env, heads);
    Order.OrderedSorts(env.rx, env.cfg.order, NamesOf(heads));
    assert order[p] in order;
    OrderPlace(env, heads, order[p]);
  }

  /**
   Main result: across the axis, TOP and LEFT put every display that takes part at 0, BOTTOM and RIGHT at the end
   of the largest, and MIDDLE in the middle of it to within one.
   */
  lemma DesiredAligned(env: Env, heads: seq<HeadView>, i: nat, e: int)
    requires i < |heads| && Plausible(env, heads) && LargestAcross(env, heads, e) && TakesPart(Desire(env, heads)[i])
    ensures var (d, align) := (Desire(env, heads)[i], env.cfg.align);
      var (at, end) := if InColumn(env) then (d.des.x, Layout.Right) else (d.des.y, Layout.Bottom);
      && (align.None? || align == Some(if InColumn(env) then Layout.Left else Layout.Top) ==> at == 0)
      && (align == Some(end) ==> at + AcrossOf(env, d) == e)
      && (align == Some(Layout.Middle) ==> 0 <= 2 * at + AcrossOf(env, d) - e <= 1)
  {
    hide Desire, BoxesOf, NamesOf, OrderOf, Plausible, LargestAcross;
    PlacedAtBox(env, heads, i);
    ExtentIsLargest(env, heads, e);
    var boxes, k := BoxesOf(env, heads), PlaceIn(OrderOf(env, heads), i);
    Layout.EdgesAligned(boxes, k);
    MiddleWithin(e, AcrossOf(env, Desire(env, heads)[i]));
  }

  lemma MiddleWithin(e: int, across: int)
    requires across <= e
    ensures 0 <= 2 * Scale.Trunc((e - across) as real / 2.0 + 0.5) + across - e <= 1
  {
  }
}
