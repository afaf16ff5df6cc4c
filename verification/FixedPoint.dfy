/** desire() is a fixed point: once the compositor has what is desired, the same is desired again. */
module FixedPoint {
  import opened Names
  import opened Reconcile
  import Order
  import Scale

  /** The same head but for cur, des, and the override that has been reset. */
  predicate SameBasis(a: HeadView, b: HeadView) {
    && a.name == b.name && a.modes == b.modes && a.preferred == b.preferred
    && a.widthMm == b.widthMm && a.heightMm == b.heightMm && a.vrrFailed == b.vrrFailed && a.reapply == b.reapply
  }

  lemma ScaleForSame(env: Env, a: HeadView, b: HeadView)
    requires SameBasis(a, b) && a.des.zmode == b.des.zmode
    ensures ScaleFor(env, a) == ScaleFor(env, b)
  {
    assert HeadAutoScale(env.cfg, a) == HeadAutoScale(env.cfg, b);
  }

  /** The details that desire() gives, in one step. */
  function TransformFor(env: Env, h: HeadView): nat {
    var user := FirstFor(env.rx, env.cfg.transforms, h.name);
    if user.Some? then user.value else 0
  }

  lemma DetailDes(env: Env, h: HeadView)
    requires h.des.enabled
    ensures DesireDetail(env, h).des ==
      h.des.(scale := ScaleFor(env, h), transform := TransformFor(env, h),
             vrr := if h.vrrFailed then h.des.vrr else WantsVrr(env, h))
  {
    var s := DesireScale(env, h);
    var t := DesireTransform(env, s);
    assert s.des == h.des.(scale := ScaleFor(env, h));
    assert t.des == s.des.(transform := TransformFor(env, h));
    ScaledIs(env, DesireVrr(env, t));
  }

  /** The scaled size that a head ends with, from what is desired of it. */
  predicate ScaledFits(env: Env, d: HeadView, width: int, height: int) {
    var mode := ModeOf(d, d.des.zmode);
    if d.des.scale == 0 || mode.None? then d.scaledWidth == width && d.scaledHeight == height
    else
      var (w, t) := Turned(mode.value, d.des.transform);
      && d.scaledWidth == Scale.ScaledLength(Base(env.cfg), d.des.scale, w)
      && d.scaledHeight == Scale.ScaledLength(Base(env.cfg), d.des.scale, t)
  }

  lemma DetailScaled(env: Env, h: HeadView)
    ensures ScaledFits(env, DesireDetail(env, h), h.scaledWidth, h.scaledHeight)
  {
    var v := DesireVrr(env, DesireTransform(env, DesireScale(env, h)));
    assert v.scaledWidth == h.scaledWidth && v.scaledHeight == h.scaledHeight;
  }

  /** Giving the details to a head that has them changes nothing. */
  lemma DetailAgain(env: Env, h: HeadView, again: HeadView)
    requires h.des.enabled && SameBasis(again, h)
    requires var d := DesireDetail(env, h);
      && again.des == d.des.(x := again.des.x, y := again.des.y)
      && again.scaledWidth == d.scaledWidth && again.scaledHeight == d.scaledHeight
    ensures var a := DesireDetail(env, again);
      a.des == again.des && a.scaledWidth == again.scaledWidth && a.scaledHeight == again.scaledHeight
  {
    var d := DesireDetail(env, h);
    DetailIs(env, h);
    DetailIs(env, again);
    DetailDes(env, h);
    DetailDes(env, again);
    ScaleForSame(env, again, h);
    DetailScaled(env, h);
    DetailScaled(env, again);
  }

  /**
   The compositor has a head as desired: one that is usable exactly so, another merely disabled.
   */
  predicate Settled(env: Env, names: seq<Name>, p: HeadView, c: HeadState) {
    if Usable(env, names, p) then c == p.des else !c.enabled
  }

  /** p is what desire() made of h, once placed. */
  predicate PlacedFrom(d: HeadView, p: HeadView) {
    p == d.(des := d.des.(x := p.des.x, y := p.des.y)) && (!TakesPart(d) ==> p == d)
  }

  lemma HeadSettles(env: Env, names: seq<Name>, h: HeadView, p: HeadView, c: HeadState)
    requires PlacedFrom(DesireHead(env, names, h), p) && Settled(env, names, p, c)
    ensures var e := DesireHead(env, names, p.(cur := c));
      e.des == c && BoxOf(e) == BoxOf(DesireHead(env, names, h))
  {
    var next := p.(cur := c);
    ChoiceIs(env, names, h);
    ChoiceIs(env, names, next);
    DesireHeadIs(env, names, h);
    DesireHeadIs(env, names, next);
    assert Wants(env, names, p) == Wants(env, names, h);
    if Usable(env, names, p) {
      var g, again := DesireChoice(env, names, h), DesireChoice(env, names, next);
      DetailIs(env, g);
      assert FoundMode(env, next) == FoundMode(env, h);
      DetailAgain(env, g, again);
    }
  }

  lemma DesireIs(env: Env, heads: seq<HeadView>, i: nat)
    requires i < |heads|
    ensures var (names, d) := (NamesOf(heads), DesireHead(env, NamesOf(heads), heads[i]));
      && PlacedFrom(d, Desire(env, heads)[i])
      && DesireEach(env, names, heads)[i] == d
  {
  }

  /** Every head has been settled. */
  ghost predicate AllSettled(env: Env, heads: seq<HeadView>, next: seq<HeadView>) {
    var (names, ds) := (NamesOf(heads), Desire(env, heads));
    && |next| == |heads|
    && forall i | 0 <= i < |heads| :: next[i] == ds[i].(cur := next[i].cur) && Settled(env, names, ds[i], next[i].cur)
  }

  lemma SameNamesOf(env: Env, heads: seq<HeadView>, next: seq<HeadView>)
    requires |next| == |heads|
    requires forall i | 0 <= i < |heads| :: next[i] == Desire(env, heads)[i].(cur := next[i].cur)
    ensures NamesOf(next) == NamesOf(heads)
  {
    forall i | 0 <= i < |heads| ensures NamesOf(next)[i] == NamesOf(heads)[i] {
      DesireIs(env, heads, i);
      DesireHeadIs(env, NamesOf(heads), heads[i]);
    }
  }

  /** Main result: when every head is settled, nothing more is desired of any. */
  lemma SettledIsFixed(env: Env, heads: seq<HeadView>, next: seq<HeadView>)
    requires AllSettled(env, heads, next)
    ensures forall i | 0 <= i < |next| :: Desire(env, next)[i].des == next[i].cur
  {
    SameNamesOf(env, heads, next);
    var names := NamesOf(heads);
    var order := Order.Ordered(env.rx, env.cfg.order, names);
    var each, again := DesireEach(env, names, heads), DesireEach(env, names, next);
    forall i | 0 <= i < |heads| ensures again[i].des == next[i].cur && BoxOf(again[i]) == BoxOf(each[i]) {
      DesireIs(env, heads, i);
      HeadSettles(env, names, heads[i], Desire(env, heads)[i], next[i].cur);
    }
    assert Boxes(again, order) == Boxes(each, order);
    forall i | 0 <= i < |next| ensures Desire(env, next)[i].des == next[i].cur {
      DesireIs(env, heads, i);
      DesireHeadIs(env, names, heads[i]);
      assert TakesPart(again[i]) == TakesPart(each[i]);
    }
  }

  /**
   Main result: desire() is idempotent. With every cur replaced by the des that was computed, the
   whole pipeline computes the same des again, for every head.
   */
  lemma DesireIdempotent(env: Env, heads: seq<HeadView>)
    ensures var ds := Desire(env, heads);
      var next := seq(|ds|, i requires 0 <= i < |ds| => ds[i].(cur := ds[i].des));
      forall i | 0 <= i < |ds| :: Desire(env, next)[i].des == ds[i].des
  {
    hide Desire, DesireHead;
    var ds, names := Desire(env, heads), NamesOf(heads);
    var next := seq(|ds|, i requires 0 <= i < |ds| => ds[i].(cur := ds[i].des));
    forall i | 0 <= i < |ds| ensures Settled(env, names, ds[i], next[i].cur) {
      DesireIs(env, heads, i);
      DesireHeadIs(env, names, heads[i]);
    }
    SettledIsFixed(env, heads, next);
  }
}
