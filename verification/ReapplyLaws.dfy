/** What a reapply brings about: every head is disabled, and then has its mode set again. */
module ReapplyLaws {
  import opened Seqs
  import opened OrderedMap
  import opened Names
  import opened Reconcile
  import opened Runs
  import opened RunLaws
  import opened Convergence

  // -------- the next act() --------

  lemma ReapplyMarks(w: World)
    requires Enabled(w, ReapplyAll)
    ensures var v := After(w, ReapplyAll);
      && v.env == w.env && |v.sys.heads| == |w.sys.heads| && v.sys == w.sys.(heads := v.sys.heads)
      && forall i | 0 <= i < |w.sys.heads| ::
           var (r, h) := (v.sys.heads[i], w.sys.heads[i]);
           && r.reapply && r.cur == h.cur.(zmode := None) && r.name == h.name && r.override == h.override
           && (r.modes != [] <==> h.modes != [] || h.modesFailed != [])
  {
    hide PutAll;
    forall i | 0 <= i < |w.sys.heads| ensures
      PutAll(w.sys.heads[i].modes, w.sys.heads[i].modesFailed) != [] <==> w.sys.heads[i].modes != [] || w.sys.heads[i].modesFailed != []
    {
      PutAllEmpty(w.sys.heads[i].modes, w.sys.heads[i].modesFailed);
    }
  }

  lemma {:induction false} PutAllEmpty<K, V>(m: Entries<K, V>, other: Entries<K, V>)
    ensures PutAll(m, other) == [] <==> m == [] && other == []
    decreases |other|
  {
    if other != [] {
      PutAllEmpty(Put(m, other[0].0, other[0].1), other[1..]);
    }
  }

  lemma HandledMarked(s: Sys)
    requires forall i | 0 <= i < |s.heads| :: s.heads[i].reapply
    ensures var heads := Handled(s).0.heads;
      |heads| == |s.heads| && forall i | 0 <= i < |heads| :: heads[i].reapply
  {
  }

  /**
   Main result: after a reapply, the next act() disables the first head, whatever state it is in, unless an
   answer is still to come, or act() gives up or has failed for good.
   */
  lemma ReapplyDisables(w: World)
    requires Safe(w) && !w.sys.exited && w.sys.heads != []
    ensures var v := After(w, ReapplyAll);
      v.sys.state != Outstanding && !GivesUp(v) && !Acted(v).sys.exited ==> Act(v.env, v.sys).1 == Some(Disable(0))
  {
    hide Desire, Handled;
    var v := After(w, ReapplyAll);
    ReapplyMarks(w);
    HandledMarked(v.sys);
    var handled := Handled(v.sys).0;
    HandledGoesOn(v.sys);
    var ds := Desire(v.env, handled.heads);
    DesiredDiffers(v.env, handled.heads, 0);
    assert Differs(ds[0]) && NeedsReapply(ds[0]);
  }

  lemma HandledGoesOn(s: Sys)
    ensures Handled(s).1 <==>
      s.state != Outstanding && !(s.state == Cancelled && s.retries >= MAX_CANCELLATION_RETRIES)
      && !(s.state == Failed && Handled(s).0.exited)
    ensures !Handled(s).1 ==> forall env :: Act(env, s).0 == Handled(s).0
  {
  }

  // -------- until all is done --------

  /** What act() sends, in the same run as Play. */
  function Sent(env: Env, comp: Compositor, s: Sys, k: nat, n: nat): seq<Request>
    decreases n
  {
    var (sent, request) := Act(env, s);
    if n == 0 || request.None? then [] else [request.value] + Sent(env, comp, comp(k, sent, request.value), k + 1, n - 1)
  }

  /** No mode changes but of the head whose mode is set. */
  ghost predicate LeavesModes(env: Env, comp: Compositor) {
    forall k, s, sent, request | Act(env, s) == (sent, Some(request)) ::
      var t := comp(k, sent, request);
      |t.heads| == |sent.heads| && ModesStay(sent, t, if request.SetMode? then request.head else -1)
  }

  /** A mode of head i is set. */
  ghost predicate ModeSet(i: nat, sent: seq<Request>) {
    exists zmode :: SetMode(i, zmode) in sent
  }

  /** Disabled if it was to be reapplied, and its mode set if it is usable without a mode. */
  ghost predicate Reaches(env: Env, names: seq<Name>, h: HeadView, i: nat, sent: seq<Request>) {
    && (h.reapply ==> Disable(i) in sent)
    && (Usable(env, names, h) && h.cur.zmode.None? ==> ModeSet(i, sent))
  }

  lemma DoneReaches(env: Env, s: Sys, i: nat)
    requires s.state == Idle && !s.exited && Done(env, s) && i < |s.heads|
    ensures Reaches(env, NamesOf(s.heads), s.heads[i], i, [])
  {
    hide Desire, FoundMode, Usable;
    var h, ds := s.heads[i], Desire(env, s.heads);
    DesiredDiffers(env, s.heads, i);
    assert Act(env, s).0.heads == ds;
    if Usable(env, NamesOf(s.heads), h) && h.cur.zmode.None? {
      UsableFound(env, NamesOf(s.heads), h);
    }
  }

  /** What a round leaves of a head that its request is not for. */
  lemma RoundKeeps(env: Env, s: Sys, sent: Sys, request: Request, t: Sys, u: Sys, i: nat)
    requires Round(env, s, sent, request, t, u) && i < |s.heads|
    requires ModesStay(sent, t, if request.SetMode? then request.head else -1)
    ensures |u.heads| == |s.heads| && NamesOf(u.heads) == NamesOf(s.heads)
    ensures s.heads[i].reapply && request != Disable(i) ==> u.heads[i].reapply
    ensures !(request.SetMode? && request.head == i) ==>
      && u.heads[i].cur.zmode == s.heads[i].cur.zmode
      && (Usable(env, NamesOf(s.heads), s.heads[i]) ==> Usable(env, NamesOf(u.heads), u.heads[i]))
  {
    hide Apply, Desire, Handled, Wants, HandledHeads, FoundMode, WantsVrr, MoveToFailed;
    var ds, names := Desire(env, s.heads), NamesOf(s.heads);
    RequestIs(s.(heads := ds), sent, request);
    AnsweredKin(env, s, sent, request, t);
    HandledIs(t, u);
    HandledFor(t, request);
    DesiredKin(env, s.heads, i);
    forall j | 0 <= j < |s.heads| ensures u.heads[j].name == s.heads[j].name {
      FailedName(t.heads[j], request);
    }
    if !(request.SetMode? && request.head == i) {
      SameWants(env, names, u.heads[i], t.heads[i]);
    }
  }

  lemma SameWants(env: Env, names: seq<Name>, a: HeadView, b: HeadView)
    requires a.name == b.name && a.override == b.override
    ensures Wants(env, names, a) == Wants(env, names, b)
  {
  }

  lemma FailedName(h: HeadView, request: Request)
    ensures request.SetMode? ==> MoveToFailed(h, request.zmode).name == h.name
  {
  }

  lemma SameSent(env: Env, comp: Compositor, t: Sys, u: Sys, k: nat, n: nat)
    requires Act(env, t) == Act(env, u)
    ensures Sent(env, comp, t, k, n) == Sent(env, comp, u, k, n)
  {
  }

  lemma {:induction false} DoneInReaches(env: Env, comp: Compositor, s: Sys, k: nat, n: nat, i: nat)
    requires AlwaysHonest(env, comp) && Willing(env, comp) && LeavesModes(env, comp)
    requires s.state == Idle && !s.exited && i < |s.heads| && Done(env, Play(env, comp, s, k, n))
    ensures Reaches(env, NamesOf(s.heads), s.heads[i], i, Sent(env, comp, s, k, n))
    decreases n
  {
    hide Desire, Handled, Done, Usable, Act, Honest, Round;
    var (sent, r) := Act(env, s);
    if n == 0 || r.None? {
      DoneReaches(env, s, i);
    } else {
      var request, t := r.value, comp(k, sent, r.value);
      assert Honest(request, sent, t);
      AnsweredGoesOn(env, s, sent, request, t);
      var u := Handled(t).0;
      RoundKeeps(env, s, sent, request, t, u, i);
      SameAct(env, comp, t, u, k + 1, n - 1);
      SameSent(env, comp, t, u, k + 1, n - 1);
      DoneInReaches(env, comp, u, k + 1, n - 1, i);
      ReachesOn(env, NamesOf(s.heads), s.heads[i], u.heads[i], i, request, Sent(env, comp, u, k + 1, n - 1));
    }
  }

  lemma ReachesOn(env: Env, names: seq<Name>, h: HeadView, next: HeadView, i: nat, request: Request, sent: seq<Request>)
    requires Reaches(env, names, next, i, sent)
    requires h.reapply && request != Disable(i) ==> next.reapply
    requires !(request.SetMode? && request.head == i) ==>
      next.cur.zmode == h.cur.zmode && (Usable(env, names, h) ==> Usable(env, names, next))
    ensures Reaches(env, names, h, i, [request] + sent)
  {
    hide Usable;
    if request.SetMode? && request.head == i {
      assert SetMode(i, request.zmode) in [request] + sent;
    } else if ModeSet(i, sent) {
      var zmode :| SetMode(i, zmode) in sent;
      assert SetMode(i, zmode) in [request] + sent;
    }
  }

  /** After an honest answer of a willing compositor, act() goes on. */
  lemma AnsweredGoesOn(env: Env, s: Sys, sent: Sys, request: Request, t: Sys)
    requires s.state == Idle && !s.exited && Act(env, s) == (sent, Some(request)) && Honest(request, sent, t)
    requires t.state == Succeeded || (t.state == Failed && (request.SetMode? || request.SetVrr?))
    ensures Round(env, s, sent, request, t, Handled(t).0)
    ensures Handled(t).0.state == Idle && !Handled(t).0.exited && Act(env, t) == Act(env, Handled(t).0)
  {
    hide Desire, Apply, Handled, Honest;
    IdleActs(env, s);
    var asked := s.(heads := Desire(env, s.heads));
    if !Handled(t).1 {
      AnswerStops(env, request, asked, sent, t);
    }
    HandledIdle(request, asked, sent, t);
    ActsAsHandled(env, t, Handled(t).0);
  }

  /**
   When all is done after n answers, from s, every head has been disabled on the way; and each that was wanted
   and had any mode in hs, a failed one included, has had a mode set.
   */
  ghost predicate AllReached(env: Env, comp: Compositor, s: Sys, hs: seq<HeadView>, n: nat) {
    var sent := Sent(env, comp, s, 0, n);
    && Done(env, Play(env, comp, s, 0, n))
    && forall i | 0 <= i < |hs| ::
         && Disable(i) in sent
         && (Wants(env, NamesOf(hs), hs[i]) && (hs[i].modes != [] || hs[i].modesFailed != []) ==> ModeSet(i, sent))
  }

  /**
   Main result: after a reapply, a compositor that does what it is asked, but may refuse modes and VRR, ends up
   with every head as desired; and on the way every head is disabled, and has its mode set if it is to have one.
   */
  lemma ReapplyReaches(w: World, comp: Compositor)
    requires AlwaysHonest(w.env, comp) && Willing(w.env, comp) && LeavesModes(w.env, comp)
    requires Enabled(w, ReapplyAll) && w.sys.state == Idle
    ensures exists n: nat :: AllReached(w.env, comp, After(w, ReapplyAll).sys, w.sys.heads, n)
  {
    hide Act, Done, Play, Sent, AlwaysHonest, Willing, LeavesModes, ModeSet, After, Wants;
    var s, hs, names := After(w, ReapplyAll).sys, w.sys.heads, NamesOf(w.sys.heads);
    ReapplyMarks(w);
    EveryRunConverges(w.env, comp, s);
    var n: nat :| Done(w.env, Play(w.env, comp, s, 0, n));
    var sent := Sent(w.env, comp, s, 0, n);
    assert NamesOf(s.heads) == names;
    forall i | 0 <= i < |hs| ensures Disable(i) in sent
      && (Wants(w.env, names, hs[i]) && (hs[i].modes != [] || hs[i].modesFailed != []) ==> ModeSet(i, sent))
    {
      DoneInReaches(w.env, comp, s, 0, n, i);
      SameWants(w.env, names, s.heads[i], hs[i]);
    }
    assert AllReached(w.env, comp, s, hs, n);
  }

  lemma ObligingLeavesModes(env: Env, refuse: Request -> bool)
    ensures LeavesModes(env, Obliging(refuse))
  {
    hide Act;
    forall k: nat, s, sent, request | Act(env, s) == (sent, Some(request))
      ensures var t := Obliging(refuse)(k, sent, request);
        |t.heads| == |sent.heads| && ModesStay(sent, t, if request.SetMode? then request.head else -1)
    {
      hide FirstThat;
    }
  }

  /** All the obliging compositors do. */
  lemma ObligingReapplies(w: World, refuse: Request -> bool)
    requires Enabled(w, ReapplyAll) && w.sys.state == Idle
    ensures exists n: nat :: AllReached(w.env, Obliging(refuse), After(w, ReapplyAll).sys, w.sys.heads, n)
  {
    hide AllReached, AlwaysHonest, Willing, LeavesModes, After, Obliging;
    ObligingConverges(w.env, refuse, w.sys);
    ObligingLeavesModes(w.env, refuse);
    ReapplyReaches(w, Obliging(refuse));
  }
}
