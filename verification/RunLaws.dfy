/** What holds over whole runs: of what is sent, of modes, and of what is reported as done. */
module RunLaws {
  import opened Seqs
  import opened OrderedMap
  import opened Names
  import opened Modes
  import opened Reconcile
  import opened Heads
  import opened Runs
  import Convergence

  lemma StartIsSafe(env: Env)
    ensures Safe(Start(env))
  {
  }

  /** Main result: in every run, at most one configuration is unanswered, and until then act() waits. */
  lemma OneInFlight(env: Env, es: seq<Event>, v: World)
    requires Leads(Start(env), es, v) && !v.sys.exited
    ensures |v.inFlight| <= 1
    ensures v.inFlight != [] ==> Act(v.env, v.sys) == (v.sys, None)
    ensures v.resent <= MAX_CANCELLATION_RETRIES
  {
    StartIsSafe(env);
    AlwaysSafe(Start(env), es, v);
  }

  /** While it waits, nothing but the withdrawal of a desired mode changes what is desired. */
  lemma FrozenWhileOutstanding(w: World, e: Event, i: nat)
    requires Safe(w) && Enabled(w, e) && w.sys.state == Outstanding && i < |w.sys.heads|
    ensures var (v, h) := (After(w, e).sys, w.sys.heads[i]);
      && v.delta == w.sys.delta && (v.state == Outstanding <==> !e.Answer?) && i < |v.heads|
      && v.heads[i].des == match e
         case Finished(k, z) => if k == i && h.des.zmode == Some(z) then h.des.(zmode := None) else h.des
         case _ => h.des
  {
  }

  // -------- what is requested --------

  /** A request for one head names one that is desired as a request of that kind must have it. */
  predicate Reasonable(request: Request, heads: seq<HeadView>) {
    match request
    case Disable(i) => i < |heads| && !heads[i].des.enabled && !heads[i].reapply
    case SetMode(i, z) =>
      i < |heads| && heads[i].des.enabled && heads[i].des.zmode == z && z.Some? && Has(heads[i].modes, z.value)
    case SetVrr(i, vrr) =>
      i < |heads| && heads[i].des.enabled && !heads[i].vrrFailed && heads[i].des.vrr == vrr && heads[i].cur.vrr != vrr
    case Arrange(items) => forall k | 0 <= k < |items| ::
      && items[k].head < |heads|
      && var h := heads[items[k].head];
         && Differs(h) && !h.reapply && !ModeDiffers(h) && !VrrDiffers(h)
         && items[k] == ItemFor(h, items[k].head)
  }

  lemma AppliedReasonable(env: Env, s: Sys)
    requires Apply(s.(heads := Desire(env, s.heads))).1.Some?
    ensures var (sent, request) := Apply(s.(heads := Desire(env, s.heads)));
      Reasonable(request.value, sent.heads)
  {
    hide Desire, Apply;
    var ds := Desire(env, s.heads);
    var (sent, r) := Apply(s.(heads := ds));
    var request := r.value;
    Convergence.RequestIs(s.(heads := ds), sent, request);
    if request.Arrange? {
      forall k | 0 <= k < |request.items| ensures
        var item := Items(ds, |ds|)[k];
        item.head < |ds| && Differs(ds[item.head]) && item == ItemFor(ds[item.head], item.head)
      {
        Convergence.ItemsReasonable(ds, |ds|, k);
      }
    } else {
      Convergence.DesiredDiffers(env, s.heads, request.head);
      FoundModeAvailable(env, s.heads[request.head]);
    }
  }

  lemma FoundModeAvailable(env: Env, h: HeadView)
    ensures FoundMode(env, h).None? <==> h.modes == []
    ensures FoundMode(env, h).Some? ==> Has(h.modes, FoundMode(env, h).value)
  {
    FindModeFinds(FirstFor(env.rx, env.cfg.modes, h.name), h.modes, h.preferred);
  }

  lemma UsableFound(env: Env, names: seq<Name>, h: HeadView)
    requires Usable(env, names, h)
    ensures FoundMode(env, h).Some?
  {
    FoundModeAvailable(env, h);
  }

  /**
   Main result: whatever is requested in any run, a mode or VRR change is of a head desired enabled, a
   mode is available and has not failed since the last reapply, and an arrangement changes no mode.
   */
  lemma EveryRequestReasonable(w: World)
    requires Safe(w) && !w.sys.exited
    ensures var (sent, request) := Act(w.env, w.sys);
      request.Some? ==>
        && w.inFlight == [] && Reasonable(request.value, sent.heads)
        && (request.value.SetMode? ==>
              var i := request.value.head;
              i < |Acted(w).books| && request.value.zmode.value !in Acted(w).books[i].refused)
        && (w.sys.state == Cancelled ==> w.resent < MAX_CANCELLATION_RETRIES)
  {
    hide Desire, Apply, Handled, AllBooked, Reasonable, Refuse, DeltaFits;
    if Act(w.env, w.sys).1.Some? {
      HandledStep(w.sys);
      AppliedReasonable(w.env, Handled(w.sys).0);
      ActBooked(w);
      NotRefused(w);
    }
  }

  lemma NotRefused(w: World)
    requires AllBooked(Acted(w).sys.heads, Acted(w).books)
    ensures var (sent, request) := Act(w.env, w.sys);
      request.Some? && request.value.SetMode? && Reasonable(request.value, sent.heads) ==>
        var i := request.value.head;
        i < |Acted(w).books| && request.value.zmode.value !in Acted(w).books[i].refused
  {
  }

  // -------- failed modes stay away until the next reapply --------

  lemma RefusedStays(w: World, e: Event, i: nat, z: ZMode)
    requires Enabled(w, e) && !e.ReapplyAll? && i < |w.books| && z in w.books[i].refused
    ensures i < |After(w, e).books| && z in After(w, e).books[i].refused
  {
  }

  lemma {:induction false} RefusedThroughout(w: World, es: seq<Event>, v: World, i: nat, z: ZMode)
    requires Leads(w, es, v) && ReapplyAll !in es && i < |w.books| && z in w.books[i].refused
    ensures i < |v.books| && z in v.books[i].refused
    decreases |es|
  {
    hide Enabled, After;
    if es != [] {
      RefusedStays(w, es[0], i, z);
      RefusedThroughout(After(w, es[0]), es[1..], v, i, z);
    }
  }

  /** The latest request has failed, and act() deals with it. */
  lemma FailureRefuses(w: World, i: nat, z: ZMode)
    requires Safe(w) && w.sys.state == Failed && w.last == Some(SetMode(i, Some(z))) && !w.sys.exited
    ensures i < |Acted(w).books| && z in Acted(w).books[i].refused
  {
    hide Act;
  }

  lemma NeverAgain(w: World, es: seq<Event>, v: World, i: nat, z: ZMode)
    requires Safe(w) && i < |w.books| && z in w.books[i].refused && ReapplyAll !in es
    ensures Leads(w, es, v) && !v.sys.exited ==> Act(v.env, v.sys).1 != Some(SetMode(i, Some(z)))
  {
    hide Act;
    if Leads(w, es, v) && !v.sys.exited {
      AlwaysSafe(w, es, v);
      RefusedThroughout(w, es, v, i, z);
      EveryRequestReasonable(v);
      RefusedStays(v, ActNow, i, z);
    }
  }

  // -------- from a request to its answer --------

  /** Without another act(), nothing is answered once nothing is unanswered. */
  lemma {:induction false} NoMoreAnswers(w: World, es: seq<Event>, v: World)
    requires Leads(w, es, v) && ActNow !in es && w.inFlight == []
    ensures v.sys.state == w.sys.state && v.last == w.last && v.sys.exited == w.sys.exited
    ensures forall a :: Answer(a) !in es
    decreases |es|
  {
    if es != [] {
      assert es == [es[0]] + es[1..];
      NoMoreAnswers(After(w, es[0]), es[1..], v);
    }
  }

  /** Without another act(), the state is the answer that has come, if any, to the latest request. */
  lemma {:induction false} StateIsAnswer(w: World, es: seq<Event>, v: World)
    requires Leads(w, es, v) && ActNow !in es && |w.inFlight| == 1 && w.sys.state == Outstanding
    ensures v.last == w.last && v.sys.exited == w.sys.exited
    ensures forall a | Answer(a) in es :: v.sys.state == a
    ensures v.sys.state != Outstanding ==> Answer(v.sys.state) in es
    decreases |es|
  {
    if es != [] {
      assert es == [es[0]] + es[1..];
      if es[0].Answer? {
        NoMoreAnswers(After(w, es[0]), es[1..], v);
      } else {
        StateIsAnswer(After(w, es[0]), es[1..], v);
      }
    }
  }

  /** What is sent is outstanding, and the latest. */
  lemma SentIsLast(w: World)
    requires Safe(w) && !w.sys.exited && Act(w.env, w.sys).1.Some?
    ensures var a := Acted(w);
      Safe(a) && a.last == Act(w.env, w.sys).1 && a.sys.state == Outstanding && |a.inFlight| == 1 && !a.sys.exited
  {
    hide Desire, Apply, Handled, AllBooked, Refuse, DeltaFits;
    ActInStep(w);
    HandledStep(w.sys);
    ApplyFits(Handled(w.sys).0.(heads := Desire(w.env, Handled(w.sys).0.heads)));
  }

  /**
   Main result: act() requests a mode change; before the next act() the answer comes that it failed. From
   then on act() never requests that mode of that head again before a reapply, whatever else happens and
   however the configuration changes.
   */
  lemma FailedNeverAgain(w: World, asked: seq<Event>, u: World, es: seq<Event>, v: World, i: nat, z: ZMode)
    requires Safe(w) && ActNow !in asked && Answer(Failed) in asked && ReapplyAll !in es
    ensures
      && !w.sys.exited && Act(w.env, w.sys).1 == Some(SetMode(i, Some(z)))
      && Leads(Acted(w), asked, u) && Leads(Acted(u), es, v) && !v.sys.exited ==>
      Act(v.env, v.sys).1 != Some(SetMode(i, Some(z)))
  {
    hide Act, Safe, Handled;
    if && !w.sys.exited && Act(w.env, w.sys).1 == Some(SetMode(i, Some(z)))
       && Leads(Acted(w), asked, u) && Leads(Acted(u), es, v) && !v.sys.exited
    {
      SentIsLast(w);
      AlwaysSafe(Acted(w), asked, u);
      StateIsAnswer(Acted(w), asked, u);
      FailureRefuses(u, i, z);
      ActInStep(u);
      NeverAgain(Acted(u), es, v, i, z);
    }
  }

  // -------- a mode that is withdrawn while its change is in flight --------

  /** Withdrawn, without being advertised again: no longer kept, unless it had failed. */
  lemma {:induction false} KnownIff(w: World, es: seq<Event>, v: World, i: nat, z: ZMode)
    requires Safe(w) && Leads(w, es, v) && ActNow !in es && i < |w.books|
    requires z in w.books[i].known && Has(w.sys.heads[i].modes, z)
    requires forall mode :: Advertised(i, z, mode) !in es
    ensures i < |v.books| && (z in v.books[i].known <==> Finished(i, z) !in es)
    decreases |es|
  {
    hide Safe;
    if es != [] {
      assert es == [es[0]] + es[1..];
      EventInStep(w, es[0]);
      var a := After(w, es[0]);
      if es[0] == Finished(i, z) {
        WithdrawnOnce(w, i, z);
        StaysUnknown(a, es[1..], v, i, z);
      } else {
        AvailableStays(w, es[0], i, z);
        KnownIff(a, es[1..], v, i, z);
      }
    }
  }

  lemma WithdrawnOnce(w: World, i: nat, z: ZMode)
    requires Safe(w) && Enabled(w, Finished(i, z)) && Has(w.sys.heads[i].modes, z)
    ensures z !in After(w, Finished(i, z)).books[i].known
  {
    assert Booked(w.sys.heads[i], w.books[i]);
  }

  lemma AvailableStays(w: World, e: Event, i: nat, z: ZMode)
    requires Safe(w) && Enabled(w, e) && !e.ActNow? && e != Finished(i, z) && i < |w.books|
    requires z in w.books[i].known && Has(w.sys.heads[i].modes, z)
    ensures var a := After(w, e);
      i < |a.books| && |a.books| == |a.sys.heads| && z in a.books[i].known && Has(a.sys.heads[i].modes, z)
  {
    var h := w.sys.heads[i];
    assert Booked(h, w.books[i]);
    hide Booked, ModesApart;
    match e
    case Advertised(j, q, mode) => if j == i { PutKeys(h.modes, q, mode); }
    case Finished(j, q) => if j == i { ReleaseKeeps(h, q, z); }
    case ReapplyAll => ReapplyRestores(h, z);
    case _ =>
  }

  lemma {:induction false} StaysUnknown(w: World, es: seq<Event>, v: World, i: nat, z: ZMode)
    requires Leads(w, es, v) && ActNow !in es && i < |w.books| && z !in w.books[i].known
    requires forall mode :: Advertised(i, z, mode) !in es
    ensures i < |v.books| && z !in v.books[i].known
    decreases |es|
  {
    if es != [] {
      assert es == [es[0]] + es[1..];
      StaysUnknown(After(w, es[0]), es[1..], v, i, z);
    }
  }

  /**
   Main result: when a mode change succeeds, the head's current mode is what was asked; and it is one that
   the head no longer has exactly when it was withdrawn while its change was in flight.
   */
  lemma SuccessNamesWithdrawnIff(w: World, asked: seq<Event>, u: World, i: nat, z: ZMode)
    requires Safe(w) && ActNow !in asked && Answer(Succeeded) in asked
    requires forall mode :: Advertised(i, z, mode) !in asked
    ensures
      && !w.sys.exited && Act(w.env, w.sys).1 == Some(SetMode(i, Some(z))) && Leads(Acted(w), asked, u) ==>
      var heads := Handled(u.sys).0.heads;
      && i < |heads| && heads[i].cur.zmode == Some(z)
      && (KeptMode(heads[i], z).None? <==> Finished(i, z) in asked)
  {
    hide Act, Safe, Handled, KeptMode;
    if !w.sys.exited && Act(w.env, w.sys).1 == Some(SetMode(i, Some(z))) && Leads(Acted(w), asked, u) {
      SentIsLast(w);
      SentIsKnown(w, i, z);
      AlwaysSafe(Acted(w), asked, u);
      StateIsAnswer(Acted(w), asked, u);
      KnownIff(Acted(w), asked, u, i, z);
      SuccessHandled(u, i, z);
    }
  }

  lemma SentIsKnown(w: World, i: nat, z: ZMode)
    requires Safe(w) && !w.sys.exited && Act(w.env, w.sys).1 == Some(SetMode(i, Some(z)))
    ensures var a := Acted(w);
      i < |a.books| && |a.books| == |a.sys.heads| && z in a.books[i].known && Has(a.sys.heads[i].modes, z)
  {
    hide Act, Refuse;
    EveryRequestReasonable(w);
    ActBooked(w);
    assert Booked(Acted(w).sys.heads[i], Acted(w).books[i]);
  }

  lemma SuccessHandled(u: World, i: nat, z: ZMode)
    requires Safe(u) && !u.sys.exited && u.sys.state == Succeeded && u.last == Some(SetMode(i, Some(z)))
    ensures var heads := Handled(u.sys).0.heads;
      && i < |heads| && i < |u.books| && heads[i].cur.zmode == Some(z)
      && (KeptMode(heads[i], z).None? <==> z !in u.books[i].known)
  {
    assert Booked(u.sys.heads[i], u.books[i]);
  }

  // -------- the search for a mode goes downwards --------

  ghost predicate FewerModes(a: HeadView, b: HeadView) {
    forall e | e in a.modes :: e in b.modes
  }

  lemma RemoveFewer(modes: ModeMap, z: ZMode)
    requires Unique(modes)
    ensures forall e | e in Remove(modes, z) :: e in modes
  {
  }

  lemma HandledFewer(s: Sys, i: nat)
    requires i < |s.heads| && Unique(s.heads[i].modes)
    ensures |Handled(s).0.heads| == |s.heads| && FewerModes(Handled(s).0.heads[i], s.heads[i])
  {
    HandledModes(s, i);
    hide Handled;
    if s.delta.zmode.Some? {
      RemoveFewer(s.heads[i].modes, s.delta.zmode.value);
    }
  }

  lemma HandledModes(s: Sys, i: nat)
    requires i < |s.heads|
    ensures var heads := Handled(s).0.heads;
      && |heads| == |s.heads|
      && (|| heads[i].modes == s.heads[i].modes
          || (s.delta.zmode.Some? && heads[i].modes == Remove(s.heads[i].modes, s.delta.zmode.value)))
  {
  }

  lemma StepFewer(w: World, e: Event, i: nat)
    requires Safe(w) && Enabled(w, e) && i < |w.sys.heads| && !e.ReapplyAll? && !(e.Advertised? && e.head == i)
    ensures i < |After(w, e).sys.heads| && FewerModes(After(w, e).sys.heads[i], w.sys.heads[i])
  {
    var h := w.sys.heads[i];
    assert Booked(h, w.books[i]);
    if e.ActNow? {
      hide Desire, Apply, Handled, Refuse, Booked;
      HandledFewer(w.sys, i);
      var (handled, goOn) := Handled(w.sys);
      if goOn {
        ApplyFits(handled.(heads := Desire(w.env, handled.heads)));
        DesireKeepsModes(w.env, handled.heads, i);
      }
    } else if e.Finished? {
      RemoveFewer(w.sys.heads[e.head].modes, e.zmode) by {
        assert Booked(w.sys.heads[e.head], w.books[e.head]);
      }
    }
  }

  lemma {:induction false} RunFewer(w: World, es: seq<Event>, v: World, i: nat)
    requires Safe(w) && Leads(w, es, v) && i < |w.sys.heads|
    requires forall e | e in es :: !e.ReapplyAll? && !(e.Advertised? && e.head == i)
    ensures i < |v.sys.heads| && FewerModes(v.sys.heads[i], w.sys.heads[i])
    decreases |es|
  {
    hide Safe, Enabled, After;
    if es != [] {
      assert es[0] in es && forall e | e in es[1..] :: e in es;
      StepFewer(w, es[0], i);
      EventInStep(w, es[0]);
      RunFewer(After(w, es[0]), es[1..], v, i);
    }
  }

  /** The mode that is requested is the one that is found among the modes that the head then has. */
  lemma RequestIsFound(w: World, i: nat, z: ZMode)
    requires Safe(w) && !w.sys.exited && Act(w.env, w.sys).1 == Some(SetMode(i, Some(z)))
    ensures var sent := Act(w.env, w.sys).0;
      i < |sent.heads| && FoundMode(w.env, sent.heads[i]) == Some(z) && Unique(sent.heads[i].modes)
  {
    hide Desire, Apply, Handled, Refuse, AllBooked;
    var handled := Handled(w.sys).0;
    var asked := handled.(heads := Desire(w.env, handled.heads));
    HandledStep(w.sys);
    var (sent, request) := Apply(asked);
    Convergence.RequestIs(asked, sent, request.value);
    Convergence.DesiredDiffers(w.env, handled.heads, i);
    ActBooked(w);
    AllUnique(Acted(w).sys.heads, Acted(w).books, i);
  }

  lemma AllUnique(heads: seq<HeadView>, books: seq<Book>, i: nat)
    requires AllBooked(heads, books) && i < |heads|
    ensures Unique(heads[i].modes)
  {
    assert Booked(heads[i], books[i]);
  }

  /** For a user MODE that some mode satisfies, the one that is found is the best. */
  lemma FoundIsBest(env: Env, h: HeadView, target: Mode, z: ZMode)
    requires FirstFor(env.rx, env.cfg.modes, h.name) == Some(target) && FoundMode(env, h) == Some(z) && Unique(h.modes)
    ensures Best(target, h.modes).Some? ==> Has(h.modes, z) && Best(target, h.modes) == Some((z, Get(h.modes, z).value))
  {
    BestIsBest(target, h.modes);
    var best := Best(target, h.modes);
    if best.Some? {
      GetMember(h.modes, best.value.0, best.value.1);
    }
  }

  /** Of two searches for a user MODE without an exact match, the later among fewer modes. */
  lemma FoundDescends(env: Env, a: HeadView, y: ZMode, later: Env, b: HeadView, z: ZMode, target: Mode)
    requires FirstFor(env.rx, env.cfg.modes, a.name) == Some(target) && FoundMode(env, a) == Some(y) && Unique(a.modes)
    requires FirstFor(later.rx, later.cfg.modes, b.name) == Some(target) && FoundMode(later, b) == Some(z) && Unique(b.modes)
    requires FewerModes(b, a) && forall e | e in a.modes :: !EqualResMhz(e.1, target)
    ensures Has(a.modes, y) && Has(b.modes, z)
    ensures var (first, next) := (Get(a.modes, y).value, Get(b.modes, z).value);
      Satisfies(next, target) ==> Satisfies(first, target) && !Greater(next, first)
  {
    hide Best, FindMode;
    FoundModeAvailable(env, a);
    FoundModeAvailable(later, b);
    FoundIsBest(env, a, target, y);
    FoundIsBest(later, b, target, z);
    var next := Get(b.modes, z).value;
    if Satisfies(next, target) {
      GetMember(b.modes, z, next);
      BestIsBest(target, b.modes);
      BestIsBest(target, a.modes);
      TriesDescend(target, a.modes, b.modes);
    }
  }

  /**
   Main result: act() requests a mode for a head with the user MODE target, of which the head has no exact
   match; and requests another later, of the same MODE, without a reapply or newly advertised modes in
   between. When the later one satisfies the MODE, so did the first, and the later is not greater.
   */
  lemma SearchDescends(w: World, es: seq<Event>, v: World, i: nat, y: ZMode, z: ZMode, target: Mode)
    requires Safe(w) && forall e | e in es :: !e.ReapplyAll? && !(e.Advertised? && e.head == i)
    ensures
      var (sent, later) := (Act(w.env, w.sys).0, Act(v.env, v.sys).0);
      && !w.sys.exited && Act(w.env, w.sys).1 == Some(SetMode(i, Some(y)))
      && Leads(Acted(w), es, v) && !v.sys.exited && Act(v.env, v.sys).1 == Some(SetMode(i, Some(z)))
      && i < |sent.heads| && i < |later.heads|
      && FirstFor(w.env.rx, w.env.cfg.modes, sent.heads[i].name) == Some(target)
      && FirstFor(v.env.rx, v.env.cfg.modes, later.heads[i].name) == Some(target)
      && (forall e | e in sent.heads[i].modes :: !EqualResMhz(e.1, target)) ==>
      && Has(sent.heads[i].modes, y) && Has(later.heads[i].modes, z)
      && var (first, next) := (Get(sent.heads[i].modes, y).value, Get(later.heads[i].modes, z).value);
         Satisfies(next, target) ==> Satisfies(first, target) && !Greater(next, first)
  {
    hide Act, Safe, Handled, FoundMode, Satisfies, Greater, EqualResMhz;
    var (sent, later) := (Act(w.env, w.sys).0, Act(v.env, v.sys).0);
    if && !w.sys.exited && Act(w.env, w.sys).1 == Some(SetMode(i, Some(y)))
       && Leads(Acted(w), es, v) && !v.sys.exited && Act(v.env, v.sys).1 == Some(SetMode(i, Some(z)))
       && i < |sent.heads| && i < |later.heads|
       && FirstFor(w.env.rx, w.env.cfg.modes, sent.heads[i].name) == Some(target)
       && FirstFor(v.env.rx, v.env.cfg.modes, later.heads[i].name) == Some(target)
       && (forall e | e in sent.heads[i].modes :: !EqualResMhz(e.1, target))
    {
      RequestIsFound(w, i, y);
      ActInStep(w);
      AlwaysSafe(Acted(w), es, v);
      RequestIsFound(v, i, z);
      RunFewer(Acted(w), es, v, i);
      RunFewer(v, [ActNow], Acted(v), i) by {
        StepLeads(v);
      }
      FoundDescends(w.env, sent.heads[i], y, v.env, later.heads[i], z, target);
    }
  }

  lemma StepLeads(v: World)
    requires Safe(v) && !v.sys.exited
    ensures Leads(v, [ActNow], Acted(v))
  {
    hide Act;
  }

  // -------- modes are conserved --------

  lemma KnownStays(w: World, e: Event, i: nat, z: ZMode, mode: Mode)
    requires Enabled(w, e) && e != Finished(i, z) && i < |w.books| && z in w.books[i].known && w.books[i].known[z] == mode
    ensures var v := After(w, e);
      i < |v.books| && z in v.books[i].known && v.books[i].known[z] == mode
  {
  }

  lemma {:induction false} KnownThroughout(w: World, es: seq<Event>, v: World, i: nat, z: ZMode, mode: Mode)
    requires Leads(w, es, v) && Finished(i, z) !in es
    requires i < |w.books| && z in w.books[i].known && w.books[i].known[z] == mode
    ensures i < |v.books| && z in v.books[i].known && v.books[i].known[z] == mode
    decreases |es|
  {
    hide Enabled, After;
    if es != [] {
      KnownStays(w, es[0], i, z, mode);
      KnownThroughout(After(w, es[0]), es[1..], v, i, z, mode);
    }
  }

  /**
   Main result: from when it is advertised and until it is withdrawn, a mode is in exactly one of
   modes and modes_failed, with the value it came with, through failures and reapplies.
   */
  lemma ModesConserved(w: World, es: seq<Event>, v: World, i: nat, z: ZMode, mode: Mode)
    requires Safe(w) && Enabled(w, Advertised(i, z, mode)) && Leads(After(w, Advertised(i, z, mode)), es, v)
    requires Finished(i, z) !in es
    ensures i < |v.sys.heads|
    ensures var h := v.sys.heads[i];
      || (Get(h.modes, z) == Some(mode) && !Has(h.modesFailed, z))
      || (Get(h.modesFailed, z) == Some(mode) && !Has(h.modes, z))
  {
    var a := After(w, Advertised(i, z, mode));
    EventInStep(w, Advertised(i, z, mode));
    AlwaysSafe(a, es, v);
    KnownThroughout(a, es, v, i, z, mode);
    assert Booked(v.sys.heads[i], v.books[i]);
  }

  // -------- quiescence --------

  /** Main result: an act() that gets to apply ends idle exactly when no head differs from desired. */
  lemma IdleMeansDone(w: World)
    requires Safe(w) && !w.sys.exited && Handled(w.sys).1
    ensures var ds := Desire(w.env, Handled(w.sys).0.heads);
      && (Acted(w).sys.state == Idle <==> forall i | 0 <= i < |ds| :: !Differs(ds[i]))
      && (Acted(w).sys.state == Idle ==> Acted(w).sys.heads == ds)
      && (Acted(w).sys.state == Idle <==> Acted(w).inFlight == [])
  {
    hide Desire, Handled, AllBooked, DeltaFits, Refuse;
    HandledStep(w.sys);
    var ds := Desire(w.env, Handled(w.sys).0.heads);
    var first := First(ds, Differs);
    assert first < |ds| ==> Differs(ds[first]);
  }

  /** Cancelled once too often. */
  predicate GivesUp(w: World) {
    w.sys.state == Cancelled && w.sys.retries >= MAX_CANCELLATION_RETRIES
  }

  /**
   Main result: after any act() the state is idle, which is reported as done, exactly when act() gave up or
   nothing was unanswered and no head differs from desired. When it gave up, the heads are as they were.
   */
  lemma DoneIff(w: World)
    requires Safe(w) && !w.sys.exited && !Acted(w).sys.exited
    ensures var ds := Desire(w.env, Handled(w.sys).0.heads);
      Acted(w).sys.state == Idle <==>
        GivesUp(w) || (w.sys.state != Outstanding && forall i | 0 <= i < |ds| :: !Differs(ds[i]))
    ensures GivesUp(w) ==> Acted(w).sys.heads == w.sys.heads && Acted(w).inFlight == []
  {
    hide Desire, AllBooked, DeltaFits, Refuse, Apply, HandleFailure, HandleSuccess;
    if Handled(w.sys).1 {
      IdleMeansDone(w);
    }
  }
}
