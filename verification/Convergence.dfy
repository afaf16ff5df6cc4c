/**
 Convergence: against a compositor that does not undo what it was asked, every answer brings the
 displays nearer to what is desired, until nothing differs.
 */
module Convergence {
  import opened Seqs
  import opened OrderedMap
  import opened Names
  import opened Modes
  import opened Reconcile
  import opened FixedPoint

  // -------- counting heads --------

  function Count(heads: seq<HeadView>, pass: HeadView -> bool): nat {
    if heads == [] then 0
    else Count(heads[..|heads| - 1], pass) + if pass(heads[|heads| - 1]) then 1 else 0
  }

  lemma {:induction false} CountNotMore(a: seq<HeadView>, b: seq<HeadView>, p: HeadView -> bool, q: HeadView -> bool)
    requires |a| == |b| && forall i | 0 <= i < |a| :: p(a[i]) ==> q(b[i])
    ensures Count(a, p) <= Count(b, q)
    ensures (exists i | 0 <= i < |a| :: q(b[i]) && !p(a[i])) ==> Count(a, p) < Count(b, q)
  {
    if a != [] {
      var n := |a| - 1;
      CountNotMore(a[..n], b[..n], p, q);
      if i :| 0 <= i < |a| && q(b[i]) && !p(a[i]) {
        if i < n {
          assert q(b[..n][i]) && !p(a[..n][i]);
        }
      }
    }
  }

  function TotalModes(heads: seq<HeadView>): nat {
    if heads == [] then 0 else TotalModes(heads[..|heads| - 1]) + |heads[|heads| - 1].modes|
  }

  lemma {:induction false} TotalModesSame(a: seq<HeadView>, b: seq<HeadView>)
    requires |a| == |b| && forall i | 0 <= i < |a| :: a[i].modes == b[i].modes
    ensures TotalModes(a) == TotalModes(b)
  {
    if a != [] {
      TotalModesSame(a[..|a| - 1], b[..|b| - 1]);
    }
  }

  lemma {:induction false} TotalModesDrops(a: seq<HeadView>, b: seq<HeadView>, i: nat)
    requires |a| == |b| && i < |a| && |a[i].modes| < |b[i].modes|
    requires forall j | 0 <= j < |a| && j != i :: a[j].modes == b[j].modes
    ensures TotalModes(a) < TotalModes(b)
  {
    var n := |a| - 1;
    if i < n {
      TotalModesDrops(a[..n], b[..n], i);
    } else {
      TotalModesSame(a[..n], b[..n]);
    }
  }

  // -------- the measure --------

  /** What is still to be done, the most important first. */
  datatype Measure = Measure(reapply: nat, modes: nat, wrongMode: nat, wrongVrr: nat, differing: nat, patience: nat)

  predicate Less(a: Measure, b: Measure) {
    if a.reapply != b.reapply then a.reapply < b.reapply
    else if a.modes != b.modes then a.modes < b.modes
    else if a.wrongMode != b.wrongMode then a.wrongMode < b.wrongMode
    else if a.wrongVrr != b.wrongVrr then a.wrongVrr < b.wrongVrr
    else if a.differing != b.differing then a.differing < b.differing
    else a.patience < b.patience
  }

  predicate ModeIsWrong(env: Env, names: seq<Name>, h: HeadView) {
    Usable(env, names, h) && FoundMode(env, h) != h.cur.zmode
  }

  predicate VrrIsWrong(env: Env, names: seq<Name>, h: HeadView) {
    Usable(env, names, h) && !h.vrrFailed && WantsVrr(env, h) != h.cur.vrr
  }

  function WrongMode(env: Env, names: seq<Name>): HeadView -> bool {
    (h: HeadView) => ModeIsWrong(env, names, h)
  }

  function WrongVrr(env: Env, names: seq<Name>): HeadView -> bool {
    (h: HeadView) => VrrIsWrong(env, names, h)
  }

  /** Whether any head differs from what would be desired. */
  predicate AnyDiffers(env: Env, heads: seq<HeadView>) {
    exists i | 0 <= i < |heads| :: Differs(Desire(env, heads)[i])
  }

  function MeasureOf(env: Env, s: Sys): Measure {
    var (hs, names) := (s.heads, NamesOf(s.heads));
    Measure(
      Count(hs, NeedsReapply), TotalModes(hs), Count(hs, WrongMode(env, names)), Count(hs, WrongVrr(env, names)),
      if AnyDiffers(env, hs) then 1 else 0,
      if s.retries >= MAX_CANCELLATION_RETRIES then 0 else MAX_CANCELLATION_RETRIES - s.retries)
  }

  lemma DesiredDiffers(env: Env, heads: seq<HeadView>, i: nat)
    requires i < |heads|
    ensures var (d, h, names) := (Desire(env, heads)[i], heads[i], NamesOf(heads));
      && SameHead(d, h) && d.reapply == h.reapply
      && ModeDiffers(d) == ModeIsWrong(env, names, h)
      && VrrDiffers(d) == VrrIsWrong(env, names, h)
      && Usable(env, names, d) == Usable(env, names, h)
      && d.des.enabled == (Usable(env, names, h) && !h.reapply)
      && (Usable(env, names, h) ==> d.des.zmode == FoundMode(env, h))
  {
    DesireIs(env, heads, i);
    DesireHeadIs(env, NamesOf(heads), heads[i]);
  }

  // -------- the compositor --------

  /** Events have changed no more than the current state of heads, and the answer has come. */
  ghost predicate Answers(s: Sys, t: Sys) {
    && t == s.(heads := t.heads, state := t.state)
    && (t.state == Succeeded || t.state == Failed || t.state == Cancelled)
    && |t.heads| == |s.heads|
    && forall i | 0 <= i < |s.heads| :: t.heads[i] == s.heads[i].(cur := t.heads[i].cur)
  }

  ghost predicate ModesStay(s: Sys, t: Sys, except: int)
    requires |t.heads| == |s.heads|
  {
    forall i | 0 <= i < |s.heads| && i != except :: t.heads[i].cur.zmode == s.heads[i].cur.zmode
  }

  ghost predicate VrrsStay(s: Sys, t: Sys, except: int)
    requires |t.heads| == |s.heads|
  {
    forall i | 0 <= i < |s.heads| && i != except :: t.heads[i].cur.vrr == s.heads[i].cur.vrr
  }

  ghost predicate ItemDone(item: Item, c: HeadState) {
    match item
    case EnableItem(_, scale, x, y, transform) =>
      c.enabled && c.scale == scale && c.x == x && c.y == y && c.transform == transform
    case DisableItem(_) => !c.enabled
  }

  /** A successful arrangement has done every item and left the other heads as they were. */
  ghost predicate ArrangeDone(items: seq<Item>, s: Sys, t: Sys)
    requires |t.heads| == |s.heads|
  {
    forall i | 0 <= i < |s.heads| ::
      && (forall k | 0 <= k < |items| && items[k].head == i :: ItemDone(items[k], t.heads[i].cur))
      && ((forall k | 0 <= k < |items| :: items[k].head != i) ==> t.heads[i].cur == s.heads[i].cur)
  }

  /**
   An honest answer: the mode of other heads is left alone by a mode change, and modes and VRR by
   anything that follows; what an arrangement asked for is done when it succeeds. A VRR success may
   have changed nothing, and a mode change may disturb everything but the modes of other heads.
   */
  ghost predicate Honest(request: Request, s: Sys, t: Sys) {
    && Answers(s, t)
    && match request
       case Disable(_) => true
       case SetMode(i, _) => t.state != Failed ==> ModesStay(s, t, i) && (t.state == Cancelled ==> VrrsStay(s, t, -1))
       case SetVrr(i, _) => ModesStay(s, t, -1) && VrrsStay(s, t, i)
       case Arrange(items) => ModesStay(s, t, -1) && VrrsStay(s, t, -1) && (t.state == Succeeded ==> ArrangeDone(items, s, t))
  }

  // -------- a round: a request, the answer, and its handling --------

  /** act() sent a request from s; u is how the handler of the answer leaves it. */
  ghost predicate Round(env: Env, s: Sys, sent: Sys, request: Request, t: Sys, u: Sys) {
    && s.state == Idle && !s.exited
    && Apply(s.(heads := Desire(env, s.heads))) == (sent, Some(request))
    && Honest(request, sent, t)
    && Handled(t) == (u, true)
  }

  /** Which request is sent, and with which heads and delta it is outstanding. */
  lemma RequestIs(s: Sys, sent: Sys, request: Request)
    requires Apply(s) == (sent, Some(request))
    ensures sent.retries == s.retries && sent.exited == s.exited && sent.state == Outstanding
    ensures request.Disable? ==>
      var i := request.head;
      && i < |s.heads| && s.heads[i].reapply && sent.heads == s.heads[i := s.heads[i].(reapply := false)]
      && sent.delta == Delta(Many, Some(i), None)
    ensures !request.Disable? ==> sent.heads == s.heads && forall j | 0 <= j < |s.heads| :: !s.heads[j].reapply
    ensures request.SetMode? ==>
      var i := request.head;
      && i < |s.heads| && ModeDiffers(s.heads[i]) && request.zmode == s.heads[i].des.zmode
      && sent.delta == Delta(ModeElement, Some(i), request.zmode)
    ensures request.SetVrr? ==>
      var i := request.head;
      && i < |s.heads| && VrrDiffers(s.heads[i]) && request.vrr == s.heads[i].des.vrr
      && sent.delta == Delta(VrrElement, Some(i), None)
    ensures request.SetVrr? || request.Arrange? ==> forall j | 0 <= j < |s.heads| :: !ModeDiffers(s.heads[j])
    ensures request.Arrange? ==>
      && (forall j | 0 <= j < |s.heads| :: !VrrDiffers(s.heads[j]))
      && (exists j | 0 <= j < |s.heads| :: Differs(s.heads[j]))
      && request.items == Items(s.heads, |s.heads|) && sent.delta == NO_DELTA
  {
    assert First(s.heads, Differs) < |s.heads|;
  }

  /** What the handler makes of the heads. */
  function HandledHeads(t: Sys): seq<HeadView> {
    if t.delta.head.None? || t.delta.head.value >= |t.heads| || t.state == Cancelled then t.heads
    else
      var (i, h) := (t.delta.head.value, t.heads[t.delta.head.value]);
      match t.delta.element
      case Many => t.heads
      case ModeElement =>
        t.heads[i := if t.state == Succeeded then h.(cur := h.cur.(zmode := t.delta.zmode)) else MoveToFailed(h, t.delta.zmode)]
      case VrrElement => if VrrDiffers(h) then t.heads[i := h.(vrrFailed := true)] else t.heads
  }

  /** The same, in terms of the request that was answered. */
  lemma HandledFor(t: Sys, request: Request)
    requires request.Disable? ==> t.delta.element == Many
    requires request.SetMode? ==> t.delta == Delta(ModeElement, Some(request.head), request.zmode)
    requires request.SetVrr? ==> t.delta == Delta(VrrElement, Some(request.head), None)
    requires request.Arrange? ==> t.delta == NO_DELTA
    requires !request.Arrange? ==> request.head < |t.heads|
    requires t.state == Succeeded || t.state == Failed || t.state == Cancelled
    ensures request.Disable? || request.Arrange? || t.state == Cancelled ==> HandledHeads(t) == t.heads
    ensures request.SetMode? && t.state != Cancelled ==>
      var h := t.heads[request.head];
      HandledHeads(t) == t.heads[request.head :=
        if t.state == Succeeded then h.(cur := h.cur.(zmode := request.zmode)) else MoveToFailed(h, request.zmode)]
    ensures request.SetVrr? && t.state != Cancelled ==>
      var h := t.heads[request.head];
      HandledHeads(t) == if VrrDiffers(h) then t.heads[request.head := h.(vrrFailed := true)] else t.heads
  {
  }

  lemma HandledIs(t: Sys, u: Sys)
    requires Handled(t) == (u, true) && (t.state == Succeeded || t.state == Failed || t.state == Cancelled) && !t.exited
    ensures u.heads == HandledHeads(t) && u.state == Idle && !u.exited
    ensures u.retries == if t.state == Succeeded then 0 else if t.state == Cancelled then t.retries + 1 else t.retries
    ensures t.state == Cancelled ==> u.retries <= MAX_CANCELLATION_RETRIES
    ensures t.delta.element == Many ==> t.state != Failed
  {
  }

  /** A head that a round has not touched but for its current state, and maybe a flag that was raised. */
  ghost predicate Kin(env: Env, names: seq<Name>, a: HeadView, b: HeadView) {
    && a.name == b.name && a.modes == b.modes && a.preferred == b.preferred && a.vrrFailed == b.vrrFailed
    && Wants(env, names, a) == Wants(env, names, b) && (a.reapply ==> b.reapply)
  }

  lemma KinWrong(env: Env, names: seq<Name>, a: HeadView, b: HeadView)
    requires Kin(env, names, a, b)
    ensures a.cur.zmode == b.cur.zmode ==> ModeIsWrong(env, names, a) == ModeIsWrong(env, names, b)
    ensures a.cur.vrr == b.cur.vrr ==> VrrIsWrong(env, names, a) == VrrIsWrong(env, names, b)
  {
  }

  lemma DesiredKin(env: Env, heads: seq<HeadView>, i: nat)
    requires i < |heads|
    ensures var (names, d) := (NamesOf(heads), Desire(env, heads)[i]);
      Kin(env, names, d, heads[i]) && d.cur == heads[i].cur && d.reapply == heads[i].reapply
  {
    DesireIs(env, heads, i);
    DesireHeadIs(env, NamesOf(heads), heads[i]);
  }

  lemma KinEvents(env: Env, names: seq<Name>, d: HeadView, a: HeadView, c: HeadState, reapply: bool)
    requires Kin(env, names, d, a) && (reapply ==> d.reapply)
    ensures Kin(env, names, d.(cur := c, reapply := reapply), a)
  {
  }

  /** Until the answer is handled, all heads are kin, and only events change their current state. */
  lemma AnsweredKin(env: Env, s: Sys, sent: Sys, request: Request, t: Sys)
    requires Apply(s.(heads := Desire(env, s.heads))) == (sent, Some(request)) && Answers(sent, t)
    ensures |t.heads| == |s.heads| == |sent.heads|
    ensures forall i | 0 <= i < |s.heads| ::
      Kin(env, NamesOf(s.heads), t.heads[i], s.heads[i]) && sent.heads[i].cur == s.heads[i].cur
  {
    hide Desire, Apply, Kin, Usable, FoundMode;
    var ds, names := Desire(env, s.heads), NamesOf(s.heads);
    RequestIs(s.(heads := ds), sent, request);
    forall i | 0 <= i < |s.heads| ensures
      Kin(env, names, t.heads[i], s.heads[i]) && sent.heads[i].cur == s.heads[i].cur
    {
      DesiredKin(env, s.heads, i);
      assert sent.heads[i] == ds[i].(reapply := sent.heads[i].reapply);
      KinEvents(env, names, ds[i], s.heads[i], t.heads[i].cur, t.heads[i].reapply);
    }
  }

  ghost predicate SameModes(a: seq<HeadView>, b: seq<HeadView>, except: int)
    requires |a| == |b|
  {
    forall i | 0 <= i < |a| && i != except :: b[i].cur.zmode == a[i].cur.zmode
  }

  ghost predicate SameVrrs(a: seq<HeadView>, b: seq<HeadView>, except: int)
    requires |a| == |b|
  {
    forall i | 0 <= i < |a| && i != except :: b[i].cur.vrr == a[i].cur.vrr
  }

  /** A round in terms of the heads before it (a), when answered (b), and when handled (c). */
  ghost predicate Outcome(env: Env, a: seq<HeadView>, request: Request, b: seq<HeadView>, answer: DisplState, c: seq<HeadView>) {
    && |a| == |b| == |c|
    && (answer == Succeeded || answer == Failed || answer == Cancelled)
    && var names := NamesOf(a);
       && (forall i | 0 <= i < |a| :: Kin(env, names, b[i], a[i]))
       && (!request.Disable? ==> forall i | 0 <= i < |a| :: !a[i].reapply)
       && match request
          case Disable(i) => i < |a| && a[i].reapply && !b[i].reapply && c == b
          case SetMode(i, zmode) =>
            && i < |a| && ModeIsWrong(env, names, a[i]) && zmode == FoundMode(env, a[i])
            && (answer == Succeeded ==> SameModes(a, b, i) && c == b[i := b[i].(cur := b[i].cur.(zmode := zmode))])
            && (answer == Failed ==> c == b[i := MoveToFailed(b[i], zmode)])
            && (answer == Cancelled ==> SameModes(a, b, i) && SameVrrs(a, b, -1) && c == b)
          case SetVrr(i, vrr) =>
            && i < |a| && VrrIsWrong(env, names, a[i]) && vrr == WantsVrr(env, a[i])
            && SameModes(a, b, -1) && SameVrrs(a, b, i)
            && c == if answer != Cancelled && b[i].cur.vrr != vrr then b[i := b[i].(vrrFailed := true)] else b
          case Arrange(_) => SameModes(a, b, -1) && SameVrrs(a, b, -1) && c == b
  }

  lemma RoundOutcome(env: Env, s: Sys, sent: Sys, request: Request, t: Sys, u: Sys)
    requires Round(env, s, sent, request, t, u)
    ensures Outcome(env, s.heads, request, t.heads, t.state, u.heads)
    ensures t.state == Succeeded || t.state == Failed || t.state == Cancelled
    ensures t.state == Failed ==> request.SetMode? || request.SetVrr?
    ensures u.retries == if t.state == Succeeded then 0 else if t.state == Cancelled then s.retries + 1 else s.retries
    ensures t.state == Cancelled ==> u.retries <= MAX_CANCELLATION_RETRIES
    ensures u.state == Idle && !u.exited
  {
    hide Apply, Desire, Handled, Kin, ModeIsWrong, VrrIsWrong, WantsVrr, FoundMode, HandledHeads, MoveToFailed;
    var ds := Desire(env, s.heads);
    RequestIs(s.(heads := ds), sent, request);
    AnsweredKin(env, s, sent, request, t);
    HandledIs(t, u);
    HandledFor(t, request);
    forall i | 0 <= i < |s.heads| ensures ds[i].reapply == s.heads[i].reapply {
      DesiredKin(env, s.heads, i);
    }
    if !request.Arrange? {
      OutcomeTarget(env, s, sent, request, t);
    }
  }

  /** The head that a request names. */
  lemma OutcomeTarget(env: Env, s: Sys, sent: Sys, request: Request, t: Sys)
    requires Apply(s.(heads := Desire(env, s.heads))) == (sent, Some(request)) && Answers(sent, t) && !request.Arrange?
    ensures var (i, names) := (request.head, NamesOf(s.heads));
      && i < |s.heads|
      && (request.Disable? ==> s.heads[i].reapply && !t.heads[i].reapply)
      && (request.SetMode? ==> ModeIsWrong(env, names, s.heads[i]) && request.zmode == FoundMode(env, s.heads[i]))
      && (request.SetVrr? ==> VrrIsWrong(env, names, s.heads[i]) && request.vrr == WantsVrr(env, s.heads[i]))
      && (request.SetVrr? ==> t.heads[i].des.vrr == request.vrr)
  {
    RequestIs(s.(heads := Desire(env, s.heads)), sent, request);
    DesiredDiffers(env, s.heads, request.head);
    DesireIs(env, s.heads, request.head);
    DesireHeadIs(env, NamesOf(s.heads), s.heads[request.head]);
  }

  // -------- every answer makes progress --------

  /** The measure, but for what only matters when all of that is the same. */
  function Work(env: Env, heads: seq<HeadView>): Measure {
    var names := NamesOf(heads);
    Measure(Count(heads, NeedsReapply), TotalModes(heads), Count(heads, WrongMode(env, names)),
            Count(heads, WrongVrr(env, names)), 0, 0)
  }

  predicate NotMore(a: Measure, b: Measure) {
    a.reapply <= b.reapply && a.modes <= b.modes && a.wrongMode <= b.wrongMode && a.wrongVrr <= b.wrongVrr
  }

  lemma OutcomeNames(env: Env, a: seq<HeadView>, request: Request, b: seq<HeadView>, answer: DisplState, c: seq<HeadView>)
    requires Outcome(env, a, request, b, answer, c)
    ensures NamesOf(c) == NamesOf(a)
  {
    forall i | 0 <= i < |a| ensures NamesOf(c)[i] == NamesOf(a)[i] {
      assert b[i].name == a[i].name;
    }
  }

  lemma DisableProgress(env: Env, a: seq<HeadView>, request: Request, b: seq<HeadView>, answer: DisplState, c: seq<HeadView>)
    requires Outcome(env, a, request, b, answer, c) && request.Disable?
    ensures Work(env, c).reapply < Work(env, a).reapply
  {
    assert NeedsReapply(a[request.head]) && !NeedsReapply(c[request.head]);
    CountNotMore(c, a, NeedsReapply, NeedsReapply);
  }

  /** No head needs a reapply once a request other than a disable has been sent. */
  lemma NoReapply(env: Env, a: seq<HeadView>, request: Request, b: seq<HeadView>, answer: DisplState, c: seq<HeadView>)
    requires Outcome(env, a, request, b, answer, c) && !request.Disable?
    ensures Work(env, c).reapply <= Work(env, a).reapply
  {
    forall i | 0 <= i < |a| ensures !c[i].reapply {
      assert !b[i].reapply;
    }
    CountNotMore(c, a, NeedsReapply, NeedsReapply);
  }

  lemma ModeFailedProgress(env: Env, a: seq<HeadView>, request: Request, b: seq<HeadView>, c: seq<HeadView>)
    requires Outcome(env, a, request, b, Failed, c) && request.SetMode?
    ensures Work(env, c).reapply <= Work(env, a).reapply && Work(env, c).modes < Work(env, a).modes
  {
    var i := request.head;
    NoReapply(env, a, request, b, Failed, c);
    FindModeFinds(FirstFor(env.rx, env.cfg.modes, a[i].name), a[i].modes, a[i].preferred);
    assert b[i].modes == a[i].modes && Has(a[i].modes, request.zmode.value);
    assert |c[i].modes| < |a[i].modes|;
    TotalModesDrops(c, a, i);
  }

  lemma ModeSucceededProgress(env: Env, a: seq<HeadView>, request: Request, b: seq<HeadView>, c: seq<HeadView>)
    requires Outcome(env, a, request, b, Succeeded, c) && request.SetMode?
    ensures var (v, w) := (Work(env, c), Work(env, a));
      v.reapply <= w.reapply && v.modes <= w.modes && v.wrongMode < w.wrongMode
  {
    var i, names := request.head, NamesOf(a);
    OutcomeNames(env, a, request, b, Succeeded, c);
    NoReapply(env, a, request, b, Succeeded, c);
    TotalModesSame(c, a);
    forall j | 0 <= j < |a| ensures ModeIsWrong(env, names, c[j]) ==> ModeIsWrong(env, names, a[j]) {
      KinWrong(env, names, b[j], a[j]);
    }
    assert WrongMode(env, names)(a[i]) && !WrongMode(env, names)(c[i]);
    CountNotMore(c, a, WrongMode(env, names), WrongMode(env, names));
  }

  /** When all heads keep the state that counts, nothing gets worse. */
  lemma NothingWorse(env: Env, a: seq<HeadView>, request: Request, b: seq<HeadView>, answer: DisplState, c: seq<HeadView>)
    requires Outcome(env, a, request, b, answer, c) && !request.Disable?
    requires request.SetMode? ==> answer == Cancelled
    ensures NotMore(Work(env, c), Work(env, a))
    ensures request.SetVrr? && answer != Cancelled ==> Work(env, c).wrongVrr < Work(env, a).wrongVrr
  {
    var names := NamesOf(a);
    OutcomeNames(env, a, request, b, answer, c);
    NoReapply(env, a, request, b, answer, c);
    TotalModesSame(c, a);
    forall j | 0 <= j < |a|
      ensures ModeIsWrong(env, names, c[j]) ==> ModeIsWrong(env, names, a[j])
      ensures VrrIsWrong(env, names, c[j]) ==> VrrIsWrong(env, names, a[j])
    {
      KinWrong(env, names, b[j], a[j]);
    }
    if request.SetVrr? && answer != Cancelled {
      assert WrongVrr(env, names)(a[request.head]) && !WrongVrr(env, names)(c[request.head]);
    }
    CountNotMore(c, a, WrongMode(env, names), WrongMode(env, names));
    CountNotMore(c, a, WrongVrr(env, names), WrongVrr(env, names));
  }

  lemma SomethingDiffered(env: Env, s: Sys, sent: Sys, request: Request)
    requires Apply(s.(heads := Desire(env, s.heads))) == (sent, Some(request))
    ensures AnyDiffers(env, s.heads)
  {
    var ds := Desire(env, s.heads);
    var i := First(ds, Differs);
    assert i < |ds|;
    assert Differs(Desire(env, s.heads)[i]);
  }

  // -------- an arrangement settles every head --------

  lemma {:induction false} ItemsCover(heads: seq<HeadView>, n: nat, i: nat)
    requires i < n <= |heads|
    ensures Differs(heads[i]) ==> ItemFor(heads[i], i) in Items(heads, n)
    ensures !Differs(heads[i]) ==> forall item | item in Items(heads, n) :: item.head != i
  {
    if i == n - 1 {
      ItemsBelow(heads, n - 1);
    } else {
      ItemsCover(heads, n - 1, i);
    }
  }

  lemma {:induction false} ItemsBelow(heads: seq<HeadView>, n: nat)
    requires n <= |heads|
    ensures forall item | item in Items(heads, n) :: item.head < n
  {
    if n > 0 {
      ItemsBelow(heads, n - 1);
    }
  }

  /** Every item is that of a head that differs. */
  lemma {:induction false} ItemsReasonable(heads: seq<HeadView>, n: nat, k: nat)
    requires n <= |heads| && k < |Items(heads, n)|
    ensures var item := Items(heads, n)[k];
      item.head < n && Differs(heads[item.head]) && item == ItemFor(heads[item.head], item.head)
  {
    if k < |Items(heads, n - 1)| {
      ItemsReasonable(heads, n - 1, k);
    }
  }

  /** What a done arrangement has made of one head: as desired if it differed, else as it was. */
  lemma ItemsSettle(ds: seq<HeadView>, sent: Sys, t: Sys, i: nat)
    requires i < |ds| && sent.heads == ds && |t.heads| == |ds| && ArrangeDone(Items(ds, |ds|), sent, t)
    ensures Differs(ds[i]) ==> ItemDone(ItemFor(ds[i], i), t.heads[i].cur)
    ensures !Differs(ds[i]) ==> t.heads[i].cur == ds[i].cur
  {
    var items := Items(ds, |ds|);
    ItemsCover(ds, |ds|, i);
    if Differs(ds[i]) {
      var k :| 0 <= k < |items| && items[k] == ItemFor(ds[i], i);
    } else {
      assert forall k | 0 <= k < |items| :: items[k] in items;
    }
  }

  /** With its mode and VRR right, a head that has its item done is as desired. */
  lemma ItemSettles(env: Env, names: seq<Name>, d: HeadView, i: nat, c: HeadState)
    requires !d.reapply && !ModeDiffers(d) && !VrrDiffers(d) && d.des.enabled == Usable(env, names, d)
    requires c.zmode == d.cur.zmode && c.vrr == d.cur.vrr
    requires if Differs(d) then ItemDone(ItemFor(d, i), c) else c == d.cur
    ensures Settled(env, names, d, c)
  {
  }

  lemma ArrangeSettles(env: Env, s: Sys, sent: Sys, request: Request, t: Sys, i: nat)
    requires Apply(s.(heads := Desire(env, s.heads))) == (sent, Some(request)) && Honest(request, sent, t)
    requires request.Arrange? && t.state == Succeeded && i < |s.heads|
    ensures |t.heads| == |s.heads|
    ensures var d := Desire(env, s.heads)[i];
      t.heads[i] == d.(cur := t.heads[i].cur) && Settled(env, NamesOf(s.heads), d, t.heads[i].cur) && !d.reapply
  {
    var ds := Desire(env, s.heads);
    RequestIs(s.(heads := ds), sent, request);
    DesiredDiffers(env, s.heads, i);
    ItemsSettle(ds, sent, t, i);
    ItemSettles(env, NamesOf(s.heads), ds[i], i, t.heads[i].cur);
  }

  /** A successful arrangement leaves nothing that differs. */
  lemma ArrangeEnds(env: Env, s: Sys, sent: Sys, request: Request, t: Sys)
    requires Apply(s.(heads := Desire(env, s.heads))) == (sent, Some(request)) && Honest(request, sent, t)
    requires request.Arrange? && t.state == Succeeded
    ensures !AnyDiffers(env, t.heads)
  {
    RequestIs(s.(heads := Desire(env, s.heads)), sent, request);
    forall i | 0 <= i < |s.heads| ensures
      var d := Desire(env, s.heads)[i];
      t.heads[i] == d.(cur := t.heads[i].cur) && Settled(env, NamesOf(s.heads), d, t.heads[i].cur) && !d.reapply
    {
      ArrangeSettles(env, s, sent, request, t, i);
    }
    SettledIsFixed(env, s.heads, t.heads);
    forall j | 0 <= j < |t.heads| ensures !Differs(Desire(env, t.heads)[j]) {
      DesiredDiffers(env, t.heads, j);
    }
  }

  /** Less work, or no more of it and then fewer differing or less patience. */
  lemma LessWork(env: Env, s: Sys, u: Sys)
    requires var (v, w) := (Work(env, u.heads), Work(env, s.heads));
      || v.reapply < w.reapply
      || (v.reapply <= w.reapply && v.modes < w.modes)
      || (v.reapply <= w.reapply && v.modes <= w.modes && v.wrongMode < w.wrongMode)
      || (NotMore(v, w) && v.wrongVrr < w.wrongVrr)
      || (NotMore(v, w) && AnyDiffers(env, s.heads)
          && (!AnyDiffers(env, u.heads) || (s.retries < u.retries <= MAX_CANCELLATION_RETRIES)))
    ensures Less(MeasureOf(env, u), MeasureOf(env, s))
  {
  }

  lemma OutcomeProgresses(env: Env, a: seq<HeadView>, request: Request, b: seq<HeadView>, answer: DisplState, c: seq<HeadView>)
    requires Outcome(env, a, request, b, answer, c)
    requires answer == Failed ==> request.SetMode? || request.SetVrr?
    ensures var (v, w) := (Work(env, c), Work(env, a));
      || v.reapply < w.reapply
      || (v.reapply <= w.reapply && v.modes < w.modes)
      || (v.reapply <= w.reapply && v.modes <= w.modes && v.wrongMode < w.wrongMode)
      || (NotMore(v, w) && v.wrongVrr < w.wrongVrr)
      || (NotMore(v, w) && (answer == Cancelled || (answer == Succeeded && request.Arrange? && c == b)))
  {
    if request.Disable? {
      DisableProgress(env, a, request, b, answer, c);
    } else if request.SetMode? && answer == Failed {
      ModeFailedProgress(env, a, request, b, c);
    } else if request.SetMode? && answer == Succeeded {
      ModeSucceededProgress(env, a, request, b, c);
    } else {
      NothingWorse(env, a, request, b, answer, c);
    }
  }

  /** Main result: whatever an honest compositor answers, the measure drops with every answer. */
  lemma AnswerProgresses(env: Env, s: Sys, sent: Sys, request: Request, t: Sys, u: Sys)
    ensures Round(env, s, sent, request, t, u) ==> Less(MeasureOf(env, u), MeasureOf(env, s))
  {
    if Round(env, s, sent, request, t, u) {
      hide MeasureOf, Work, Outcome, AnyDiffers;
      RoundOutcome(env, s, sent, request, t, u);
      SomethingDiffered(env, s, sent, request);
      OutcomeProgresses(env, s.heads, request, t.heads, t.state, u.heads);
      if request.Arrange? && t.state == Succeeded {
        ArrangeEnds(env, s, sent, request, t);
      }
      LessWork(env, s, u);
    }
  }

  // -------- every run ends --------

  /** What the compositor makes of the k-th request. */
  type Compositor = (nat, Sys, Request) -> Sys

  /** Answers every request that act() may send honestly. */
  ghost predicate AlwaysHonest(env: Env, comp: Compositor) {
    forall k, s, sent, request | Act(env, s) == (sent, Some(request)) :: Honest(request, sent, comp(k, sent, request))
  }

  /** Of what act() may send, cancels nothing, and fails nothing but a mode or VRR change. */
  ghost predicate Willing(env: Env, comp: Compositor) {
    forall k, s, sent, request | Act(env, s) == (sent, Some(request)) ::
      var answer := comp(k, sent, request).state;
      answer == Succeeded || (answer == Failed && (request.SetMode? || request.SetVrr?))
  }

  /** The displays when act() is called after n more answers, of which the first is the k-th. */
  function Play(env: Env, comp: Compositor, s: Sys, k: nat, n: nat): Sys
    decreases n
  {
    var (sent, request) := Act(env, s);
    if n == 0 || request.None? then s else Play(env, comp, comp(k, sent, request.value), k + 1, n - 1)
  }

  /** Every head is as desired, and nothing is outstanding. */
  ghost predicate Quiet(s: Sys) {
    s.state == Idle && forall i | 0 <= i < |s.heads| :: s.heads[i].cur == s.heads[i].des && !s.heads[i].reapply
  }

  ghost predicate GaveUp(s: Sys) {
    s.state == Idle && s.retries > MAX_CANCELLATION_RETRIES
  }

  /** act() has sent nothing, because all is done, or it gave up or could not go on. */
  ghost predicate Ended(env: Env, s: Sys) {
    var (left, request) := Act(env, s);
    request.None? && (Quiet(left) || GaveUp(left) || left.exited)
  }

  ghost predicate Done(env: Env, s: Sys) {
    var (left, request) := Act(env, s);
    request.None? && Quiet(left)
  }

  lemma NothingSent(env: Env, s: Sys)
    requires s.state == Idle && !s.exited && Act(env, s).1.None?
    ensures Done(env, s)
  {
    var ds := Desire(env, s.heads);
    assert First(ds, Differs) == |ds|;
  }

  lemma SameAct(env: Env, comp: Compositor, t: Sys, u: Sys, k: nat, n: nat)
    requires Act(env, t) == Act(env, u)
    ensures Ended(env, Play(env, comp, t, k, n)) == Ended(env, Play(env, comp, u, k, n))
    ensures Done(env, Play(env, comp, t, k, n)) == Done(env, Play(env, comp, u, k, n))
  {
  }

  lemma ActsAsHandled(env: Env, t: Sys, u: Sys)
    requires Handled(t) == (u, true) && !t.exited && u.state == Idle && !u.exited
    ensures Act(env, t) == Act(env, u)
  {
  }

  /** An answer after which act() does not go on. */
  lemma AnswerStops(env: Env, request: Request, s: Sys, sent: Sys, t: Sys)
    requires Apply(s) == (sent, Some(request)) && Honest(request, sent, t) && !s.exited && !Handled(t).1
    ensures Ended(env, t)
    ensures t.state == Cancelled || (t.state == Failed && !request.SetMode? && !request.SetVrr?)
  {
    RequestIs(s, sent, request);
  }

  lemma HandledIdle(request: Request, s: Sys, sent: Sys, t: Sys)
    requires Apply(s) == (sent, Some(request)) && Honest(request, sent, t) && !s.exited && Handled(t).1
    ensures !t.exited && !Handled(t).0.exited && Handled(t).0.state == Idle
  {
    RequestIs(s, sent, request);
    HandledIs(t, Handled(t).0);
  }

  /** After n answers, nothing is sent any more; when the compositor is willing, because all is done. */
  ghost predicate EndsIn(env: Env, comp: Compositor, s: Sys, k: nat, n: nat) {
    Ended(env, Play(env, comp, s, k, n)) && (Willing(env, comp) ==> Done(env, Play(env, comp, s, k, n)))
  }

  lemma EndsInNone(env: Env, comp: Compositor, s: Sys, k: nat)
    requires s.state == Idle && !s.exited && Act(env, s).1.None?
    ensures EndsIn(env, comp, s, k, 0)
  {
    NothingSent(env, s);
  }

  lemma PlayOn(env: Env, comp: Compositor, s: Sys, k: nat, n: nat, sent: Sys, request: Request)
    requires Act(env, s) == (sent, Some(request))
    ensures Play(env, comp, s, k, n + 1) == Play(env, comp, comp(k, sent, request), k + 1, n)
  {
    hide Act, Handled;
  }

  lemma IdleActs(env: Env, s: Sys)
    requires s.state == Idle && !s.exited
    ensures Act(env, s) == Apply(s.(heads := Desire(env, s.heads)))
  {
    hide Desire, Apply;
  }

  /** An answer after which act() goes on does less than was to be done. */
  lemma GoesOn(env: Env, s: Sys, sent: Sys, request: Request, t: Sys, u: Sys)
    requires s.state == Idle && !s.exited && Act(env, s) == (sent, Some(request))
    requires Honest(request, sent, t) && Handled(t) == (u, true)
    ensures u.state == Idle && !u.exited && Less(MeasureOf(env, u), MeasureOf(env, s))
    ensures Act(env, t) == Act(env, u)
  {
    hide MeasureOf, Desire, Handled, Honest, Apply;
    var asked := s.(heads := Desire(env, s.heads));
    IdleActs(env, s);
    HandledIdle(request, asked, sent, t);
    AnswerProgresses(env, s, sent, request, t, u);
    ActsAsHandled(env, t, u);
  }

  lemma Stops(env: Env, s: Sys, sent: Sys, request: Request, t: Sys)
    requires s.state == Idle && !s.exited && Act(env, s) == (sent, Some(request))
    requires Honest(request, sent, t) && !Handled(t).1
    ensures Ended(env, t)
    ensures t.state == Cancelled || (t.state == Failed && !request.SetMode? && !request.SetVrr?)
  {
    IdleActs(env, s);
    AnswerStops(env, request, s.(heads := Desire(env, s.heads)), sent, t);
  }

  /** Some number of answers is enough. */
  lemma {:induction false} EndsAfter(env: Env, comp: Compositor, s: Sys, k: nat, m: Measure) returns (n: nat)
    requires AlwaysHonest(env, comp) && s.state == Idle && !s.exited && m == MeasureOf(env, s)
    ensures EndsIn(env, comp, s, k, n)
    decreases m.reapply, m.modes, m.wrongMode, m.wrongVrr, m.differing, m.patience
  {
    hide MeasureOf, Act, Handled, Desire, Honest, Play, Ended, Done;
    var (sent, r) := Act(env, s);
    if r.None? {
      EndsInNone(env, comp, s, k);
      n := 0;
    } else {
      var request, t := r.value, comp(k, sent, r.value);
      var (u, goOn) := Handled(t);
      assert Honest(request, sent, t);
      if goOn {
        GoesOn(env, s, sent, request, t, u);
        n := EndsAfter(env, comp, u, k + 1, MeasureOf(env, u));
        SameAct(env, comp, t, u, k + 1, n);
      } else {
        Stops(env, s, sent, request, t);
        n := 0;
        PlayNone(env, comp, t, k + 1);
      }
      PlayOn(env, comp, s, k, n, sent, request);
      n := n + 1;
    }
  }

  lemma PlayNone(env: Env, comp: Compositor, s: Sys, k: nat)
    ensures Play(env, comp, s, k, 0) == s
  {
  }

  /**
   Main result: whatever the heads are like, and however an honest compositor mixes successes, failures
   and cancellations, act() sends nothing any more after finitely many answers.
   */
  lemma EveryRunEnds(env: Env, comp: Compositor, s: Sys)
    requires AlwaysHonest(env, comp) && s.state == Idle && !s.exited
    ensures exists n: nat :: Ended(env, Play(env, comp, s, 0, n))
  {
    var n := EndsAfter(env, comp, s, 0, MeasureOf(env, s));
  }

  /** Main result: a compositor that is also willing ends up with every head as desired. */
  lemma EveryRunConverges(env: Env, comp: Compositor, s: Sys)
    requires AlwaysHonest(env, comp) && Willing(env, comp) && s.state == Idle && !s.exited
    ensures exists n: nat :: Done(env, Play(env, comp, s, 0, n))
  {
    var n := EndsAfter(env, comp, s, 0, MeasureOf(env, s));
  }

  // -------- there are such compositors --------

  function ForHead(i: nat): Item -> bool {
    (item: Item) => item.head == i
  }

  function ItemState(item: Item, c: HeadState): HeadState {
    match item
    case EnableItem(_, scale, x, y, transform) =>
      c.(enabled := true, scale := scale, x := x, y := y, transform := transform)
    case DisableItem(_) => c.(enabled := false)
  }

  /** The state of head i when everything that was asked has been done. */
  function DoneState(request: Request, c: HeadState, i: nat): HeadState {
    match request
    case Disable(j) => if i == j then c.(enabled := false) else c
    case SetMode(j, zmode) => if i == j then c.(enabled := true, zmode := zmode) else c
    case SetVrr(j, vrr) => if i == j then c.(enabled := true, vrr := vrr) else c
    case Arrange(items) =>
      var item := FirstThat(items, ForHead(i));
      if item.None? then c else ItemState(item.value, c)
  }

  /** A compositor that refuses what it pleases of modes and VRR, and does all else that it is asked. */
  function Obliging(refuse: Request -> bool): Compositor {
    (k: nat, sent: Sys, request: Request) =>
      if (request.SetMode? || request.SetVrr?) && refuse(request) then sent.(state := Failed)
      else
        sent.(state := Succeeded,
              heads := seq(|sent.heads|, i requires 0 <= i < |sent.heads| =>
                sent.heads[i].(cur := DoneState(request, sent.heads[i].cur, i))))
  }

  lemma FirstItem(ds: seq<HeadView>, items: seq<Item>, i: nat)
    requires items == Items(ds, |ds|) && i < |ds|
    ensures forall k | 0 <= k < |items| && items[k].head == i :: FirstThat(items, ForHead(i)) == Some(items[k])
    ensures (forall k | 0 <= k < |items| :: items[k].head != i) ==> FirstThat(items, ForHead(i)) == None
  {
    var n := NextAt(items, 0, ForHead(i));
    forall k | 0 <= k < |items| ensures items[k].head < |ds| && items[k] == ItemFor(ds[items[k].head], items[k].head) {
      ItemsReasonable(ds, |ds|, k);
    }
  }

  /** Every item of an arrangement is done, and the other heads stay. */
  lemma ArrangeObliged(ds: seq<HeadView>, items: seq<Item>, i: nat, c: HeadState)
    requires items == Items(ds, |ds|) && i < |ds| && c == DoneState(Arrange(items), ds[i].cur, i)
    ensures forall k | 0 <= k < |items| && items[k].head == i :: ItemDone(items[k], c)
    ensures (forall k | 0 <= k < |items| :: items[k].head != i) ==> c == ds[i].cur
    ensures c.zmode == ds[i].cur.zmode && c.vrr == ds[i].cur.vrr
  {
    FirstItem(ds, items, i);
    hide FirstThat, Items;
  }

  lemma ObligingHonest(refuse: Request -> bool, s: Sys, sent: Sys, request: Request, k: nat)
    requires Apply(s) == (sent, Some(request))
    ensures Honest(request, sent, Obliging(refuse)(k, sent, request))
  {
    hide Apply, Items, First;
    RequestIs(s, sent, request);
    if request.Arrange? {
      hide DoneState;
      forall i | 0 <= i < |s.heads| ensures var c := DoneState(request, s.heads[i].cur, i);
        && (forall k | 0 <= k < |request.items| && request.items[k].head == i :: ItemDone(request.items[k], c))
        && ((forall k | 0 <= k < |request.items| :: request.items[k].head != i) ==> c == s.heads[i].cur)
        && c.zmode == s.heads[i].cur.zmode && c.vrr == s.heads[i].cur.vrr
      {
        ArrangeObliged(s.heads, request.items, i, DoneState(request, s.heads[i].cur, i));
      }
    }
  }

  lemma ActApplies(env: Env, s: Sys)
    requires Act(env, s).1.Some?
    ensures var asked := Handled(s).0.(heads := Desire(env, Handled(s).0.heads));
      Act(env, s) == Apply(asked)
  {
    hide Desire, Apply, Handled;
  }

  /**
   The conditions of both results are met by all such compositors; so with each of them act() brings every
   head to what is desired, whatever modes and VRR changes it refuses.
   */
  lemma ObligingConverges(env: Env, refuse: Request -> bool, s: Sys)
    requires s.state == Idle && !s.exited
    ensures AlwaysHonest(env, Obliging(refuse)) && Willing(env, Obliging(refuse))
    ensures exists n: nat :: Done(env, Play(env, Obliging(refuse), s, 0, n))
  {
    hide Act, Honest, Done, Play;
    forall k: nat, t, sent, request | Act(env, t) == (sent, Some(request))
      ensures Honest(request, sent, Obliging(refuse)(k, sent, request))
    {
      ActApplies(env, t);
      ObligingHonest(refuse, Handled(t).0.(heads := Desire(env, Handled(t).0.heads)), sent, request, k);
    }
    EveryRunConverges(env, Obliging(refuse), s);
  }
}
