/** Runs from the start in which what the laws allow does happen. */
module RunExamples {
  import opened Seqs
  import opened OrderedMap
  import opened Names
  import opened Modes
  import opened Config
  import opened Reconcile
  import opened Heads
  import opened Runs
  import opened RunLaws
  import Convergence

  /** The configuration does not disable an only display of that name. */
  predicate Welcome(env: Env, name: Name) {
    !DisabledApplies(env.rx, [name], env.lid, true, env.cfg.disableds, name)
  }

  /** One more event. */
  lemma {:induction false} Extends(w: World, es: seq<Event>, u: World, e: Event)
    requires Leads(w, es, u) && Enabled(u, e)
    ensures Leads(w, es + [e], After(u, e))
    decreases |es|
  {
    hide Enabled, After;
    if es == [] {
      assert [e][1..] == [] && Leads(After(u, e), [], After(u, e));
    } else {
      Extends(After(w, es[0]), es[1..], u, e);
      assert (es + [e])[1..] == es[1..] + [e];
    }
  }

  // -------- one display, with one mode --------

  function Plugged(name: Name, state: HeadState, z: ZMode, mode: Mode): seq<Event> {
    [Arrived(name, 0, 0, state), Advertised(0, z, mode)]
  }

  function Shown(env: Env, name: Name, state: HeadState, z: ZMode, mode: Mode): World {
    var h := NewHead(name, 0, 0, state).(modes := [(z, mode)]);
    World(env, Sys([h], Idle, NO_DELTA, 0, false), [], None, [Book(map[z := mode], {}, {})], 0)
  }

  lemma ShownLeads(env: Env, name: Name, state: HeadState, z: ZMode, mode: Mode)
    ensures Leads(Start(env), Plugged(name, state, z, mode), Shown(env, name, state, z, mode))
    ensures Safe(Shown(env, name, state, z, mode))
  {
    var w, e, f := Start(env), Arrived(name, 0, 0, state), Advertised(0, z, mode);
    var u := After(w, e);
    assert Leads(w, [], w);
    Extends(w, [], w, e);
    assert u.sys.heads == [NewHead(name, 0, 0, state)] && u.books == [EMPTY_BOOK];
    Extends(w, [e], u, f);
    assert [] + [e] == [e] && [e] + [f] == Plugged(name, state, z, mode);
    var h := NewHead(name, 0, 0, state);
    assert h.modes == [] && Put(h.modes, z, mode) == [(z, mode)] && [h][0 := h.(modes := [(z, mode)])] == [h.(modes := [(z, mode)])];
    assert EMPTY_BOOK.(known := EMPTY_BOOK.known[z := mode]) == Book(map[z := mode], {}, {});
    assert After(u, f) == Shown(env, name, state, z, mode);
    StartIsSafe(env);
    AlwaysSafe(w, Plugged(name, state, z, mode), After(u, f));
  }

  /** A display that is to have a mode that it has not. */
  predicate Asking(env: Env, h: HeadView, z: ZMode) {
    Usable(env, [h.name], h) && !h.reapply && FoundMode(env, h) == Some(z) && h.cur.zmode != Some(z)
  }

  lemma OnlyModeFound(env: Env, h: HeadView, z: ZMode, mode: Mode)
    requires h.modes == [(z, mode)]
    ensures FoundMode(env, h) == Some(z)
  {
    FoundModeAvailable(env, h);
    assert Keys(h.modes) == [z];
  }

  lemma ShownAsks(env: Env, name: Name, state: HeadState, z: ZMode, mode: Mode)
    requires Welcome(env, name)
    ensures Asking(env, Shown(env, name, state, z, mode).sys.heads[0], z)
  {
    OnlyModeFound(env, Shown(env, name, state, z, mode).sys.heads[0], z, mode);
  }

  /** act() asks for it. */
  lemma ActAsks(w: World, z: ZMode)
    requires !w.sys.exited && Handled(w.sys).1 && |w.books| == |Handled(w.sys).0.heads| == 1
    requires Asking(w.env, Handled(w.sys).0.heads[0], z)
    ensures var (h, v, asked) := (Handled(w.sys).0.heads[0], Acted(w), Some(SetMode(0, Some(z))));
      && Act(w.env, w.sys).1 == asked && v.last == asked && v.inFlight == w.inFlight + [asked.value]
      && v.env == w.env && !v.sys.exited && v.sys.state == Outstanding && v.sys.retries == Handled(w.sys).0.retries
      && |v.sys.heads| == 1 && SameHead(v.sys.heads[0], h) && v.sys.heads[0].des.zmode == Some(z)
      && Usable(w.env, [h.name], v.sys.heads[0])
  {
    hide Desire, Usable, FoundMode, Refuse;
    var handled := Handled(w.sys).0;
    HandledStep(w.sys);
    hide Handled;
    var ds := Desire(w.env, handled.heads);
    assert NamesOf(handled.heads) == [handled.heads[0].name];
    Convergence.DesiredDiffers(w.env, handled.heads, 0);
    assert Convergence.ModeIsWrong(w.env, [handled.heads[0].name], handled.heads[0]);
    assert ModeDiffers(ds[0]) && Differs(ds[0]);
  }

  /** act() leaves alone what desire() does, unless it gets to deal with an answer. */
  lemma ActKeeps(w: World, i: nat)
    requires !w.sys.exited && i < |Handled(w.sys).0.heads|
    ensures |Acted(w).sys.heads| == |Handled(w.sys).0.heads| && Acted(w).sys.exited == Handled(w.sys).0.exited
    ensures var (v, h) := (Acted(w).sys.heads[i], Handled(w.sys).0.heads[i]);
      v.modes == h.modes && v.modesFailed == h.modesFailed && v.cur == h.cur && v.preferred == h.preferred
  {
    hide Desire, Apply, Handled, Refuse;
    var (handled, goOn) := Handled(w.sys);
    if goOn {
      DesireKeepsModes(w.env, handled.heads, i);
      ApplyFits(handled.(heads := Desire(w.env, handled.heads)));
    }
  }

  /** Shown, and asked. */
  lemma Asked(env: Env, name: Name, state: HeadState, z: ZMode, mode: Mode) returns (a: World)
    requires Welcome(env, name)
    ensures var w := Shown(env, name, state, z, mode);
      && a == Acted(w) && Act(env, w.sys).1 == Some(SetMode(0, Some(z))) && a.inFlight == [SetMode(0, Some(z))]
      && a.sys.delta == Delta(ModeElement, Some(0), Some(z)) && a.sys.state == Outstanding && !a.sys.exited
      && a.books == w.books && |a.sys.heads| == 1 && a.sys.heads[0].modes == [(z, mode)] && a.sys.heads[0].modesFailed == []
      && a.sys.heads[0].preferred.None?
    ensures Safe(a) && Leads(Start(env), Plugged(name, state, z, mode) + [ActNow], a)
  {
    hide Act;
    var w := Shown(env, name, state, z, mode);
    ShownLeads(env, name, state, z, mode);
    ShownAsks(env, name, state, z, mode);
    ActAsks(w, z);
    SentIsLast(w);
    a := Acted(w);
    assert DeltaFits(a.sys, a.last);
    Extends(Start(env), Plugged(name, state, z, mode), w, ActNow);
  }

  // -------- a mode is withdrawn while its change is in flight --------

  function WithdrawnInFlight(name: Name, state: HeadState, z: ZMode, mode: Mode): seq<Event> {
    Plugged(name, state, z, mode) + [ActNow] + [Finished(0, z)] + [Answer(Succeeded)] + [ActNow]
  }

  /**
   A display comes with one mode; act() requests it; the mode is withdrawn; the change succeeds. After that
   the display's current mode is one that it does not have.
   */
  lemma WithdrawnModeSucceeds(env: Env, name: Name, state: HeadState, z: ZMode, mode: Mode) returns (v: World)
    requires Welcome(env, name)
    ensures Leads(Start(env), WithdrawnInFlight(name, state, z, mode), v)
    ensures |v.sys.heads| == 1 && v.sys.heads[0].cur.zmode == Some(z) && KeptMode(v.sys.heads[0], z).None?
  {
    hide Act, Safe, Leads;
    var p := Plugged(name, state, z, mode);
    var a := Asked(env, name, state, z, mode);
    var b := After(a, Finished(0, z));
    var c := After(b, Answer(Succeeded));
    v := After(c, ActNow);
    Extends(Start(env), p + [ActNow], a, Finished(0, z));
    Extends(Start(env), p + [ActNow] + [Finished(0, z)], b, Answer(Succeeded));
    Extends(Start(env), p + [ActNow] + [Finished(0, z)] + [Answer(Succeeded)], c, ActNow);
    assert a.sys.heads[0].modes == [(z, mode)] && b.sys.heads[0].modes == [];
    assert Handled(c.sys).0.heads[0].cur.zmode == Some(z);
    ActKeeps(c, 0);
  }

  // -------- a mode that has failed is withdrawn, and comes back --------

  function FailedOnce(name: Name, state: HeadState, z: ZMode, mode: Mode): seq<Event> {
    Plugged(name, state, z, mode) + [ActNow] + [Answer(Failed)] + [ActNow]
  }

  /** A display comes with one mode; act() requests it; it fails, and is moved aside. */
  lemma OnlyModeFails(env: Env, name: Name, state: HeadState, z: ZMode, mode: Mode) returns (v: World)
    requires Welcome(env, name)
    ensures Safe(v) && Leads(Start(env), FailedOnce(name, state, z, mode), v)
    ensures |v.sys.heads| == |v.books| == 1 && !v.sys.exited && v.sys.heads[0].preferred.None?
    ensures v.sys.heads[0].modes == [] && v.sys.heads[0].modesFailed == [(z, mode)] && v.books[0] == Book(map[z := mode], {}, {z})
  {
    hide Act, Safe, Leads;
    var p := Plugged(name, state, z, mode);
    var a := Asked(env, name, state, z, mode);
    var b := After(a, Answer(Failed));
    v := After(b, ActNow);
    Extends(Start(env), p + [ActNow], a, Answer(Failed));
    Extends(Start(env), p + [ActNow] + [Answer(Failed)], b, ActNow);
    EventInStep(a, Answer(Failed));
    EventInStep(b, ActNow);
    OnlyModeMoves(b.sys.heads[0], z, mode);
    assert Handled(b.sys).0.heads[0] == MoveToFailed(b.sys.heads[0], Some(z));
    ActKeeps(b, 0);
  }

  lemma OnlyModeMoves(h: HeadView, z: ZMode, mode: Mode)
    requires h.modes == [(z, mode)] && h.modesFailed == []
    ensures var f := MoveToFailed(h, Some(z));
      f.modes == [] && f.modesFailed == [(z, mode)] && f.preferred == h.preferred
  {
    assert IndexOf(h.modes, z) == 0;
  }

  /** And when the compositor has withdrawn it, a reapply makes it available again. */
  lemma WithdrawnModeReturns(env: Env, name: Name, state: HeadState, z: ZMode, mode: Mode) returns (v: World)
    requires Welcome(env, name)
    ensures Leads(Start(env), FailedOnce(name, state, z, mode) + [Finished(0, z)] + [ReapplyAll], v)
    ensures |v.sys.heads| == 1 && Get(v.sys.heads[0].modes, z) == Some(mode)
  {
    hide Act, Safe, Leads;
    var a := OnlyModeFails(env, name, state, z, mode);
    var b := After(a, Finished(0, z));
    v := After(b, ReapplyAll);
    Extends(Start(env), FailedOnce(name, state, z, mode), a, Finished(0, z));
    Extends(Start(env), FailedOnce(name, state, z, mode) + [Finished(0, z)], b, ReapplyAll);
    ReapplyRestores(b.sys.heads[0], z);
    assert IndexOf(b.sys.heads[0].modesFailed, z) == 0;
  }

  // -------- a preferred mode gives way to one that has failed --------

  function PreferredTwice(name: Name, state: HeadState, z: ZMode, mode: Mode, y: ZMode, other: Mode): seq<Event> {
    FailedOnce(name, state, z, mode) + [Advertised(0, y, other)] + [PreferredMode(0, y)]
  }

  /**
   The only mode of a display has failed; another is advertised and preferred; and then the first is named as
   preferred. It displaces the other, which is available, though it is not itself.
   */
  lemma FailedModePreferred(env: Env, name: Name, state: HeadState, z: ZMode, mode: Mode, y: ZMode, other: Mode)
    returns (u: World, v: World)
    requires Welcome(env, name) && y != z
    ensures Leads(Start(env), PreferredTwice(name, state, z, mode, y, other), u)
    ensures Leads(Start(env), PreferredTwice(name, state, z, mode, y, other) + [PreferredMode(0, z)], v)
    ensures |u.sys.heads| == |v.sys.heads| == 1 && u.sys.heads[0].preferred == Some(y)
    ensures Has(v.sys.heads[0].modes, y) && !Has(v.sys.heads[0].modes, z) && v.sys.heads[0].preferred == Some(z)
  {
    hide Act, Safe, Leads;
    var p := FailedOnce(name, state, z, mode);
    var a := OnlyModeFails(env, name, state, z, mode);
    var b := After(a, Advertised(0, y, other));
    u := After(b, PreferredMode(0, y));
    v := After(u, PreferredMode(0, z));
    Extends(Start(env), p, a, Advertised(0, y, other));
    Extends(Start(env), p + [Advertised(0, y, other)], b, PreferredMode(0, y));
    Extends(Start(env), PreferredTwice(name, state, z, mode, y, other), u, PreferredMode(0, z));
    assert b.sys.heads[0].modes == [(y, other)] && Keys([(y, other)]) == [y];
    PreferredGivesWayIff(u.sys.heads[0], z);
  }

  // -------- cancelled once too often --------

  function CancelledTimes(name: Name, state: HeadState, z: ZMode, mode: Mode, n: nat): seq<Event> {
    if n == 0 then Plugged(name, state, z, mode) + [ActNow]
    else CancelledTimes(name, state, z, mode, n - 1) + [Answer(Cancelled)] + [ActNow]
  }

  /** Requested for the n-th time. */
  ghost predicate Waiting(env: Env, w: World, z: ZMode, n: nat) {
    && w.env == env && w.sys.state == Outstanding && !w.sys.exited && w.inFlight == [SetMode(0, Some(z))]
    && w.sys.retries == n && |w.books| == |w.sys.heads| == 1
    && Asking(env, w.sys.heads[0], z) && w.sys.heads[0].des.zmode == Some(z)
  }

  lemma ShownWaits(env: Env, name: Name, state: HeadState, z: ZMode, mode: Mode)
    requires Welcome(env, name)
    ensures Waiting(env, Acted(Shown(env, name, state, z, mode)), z, 0)
  {
    hide Act, Usable, FoundMode;
    var w := Shown(env, name, state, z, mode);
    ShownAsks(env, name, state, z, mode);
    ActAsks(w, z);
    SameFound(env, Acted(w).sys.heads[0], w.sys.heads[0]);
  }

  lemma SameFound(env: Env, d: HeadView, h: HeadView)
    requires SameHead(d, h)
    ensures FoundMode(env, d) == FoundMode(env, h)
  {
  }

  lemma CancelledAgain(env: Env, w: World, z: ZMode, n: nat)
    requires n < MAX_CANCELLATION_RETRIES && Waiting(env, w, z, n)
    ensures Waiting(env, Acted(After(w, Answer(Cancelled))), z, n + 1)
  {
    hide Act, Usable, FoundMode;
    var c := After(w, Answer(Cancelled));
    ActAsks(c, z);
    SameFound(env, Acted(c).sys.heads[0], w.sys.heads[0]);
  }

  lemma {:induction false} CancelledLeads(env: Env, name: Name, state: HeadState, z: ZMode, mode: Mode, n: nat) returns (w: World)
    requires Welcome(env, name) && n <= MAX_CANCELLATION_RETRIES
    ensures Leads(Start(env), CancelledTimes(name, state, z, mode, n), w) && Waiting(env, w, z, n)
  {
    hide Acted, Leads, Waiting;
    if n == 0 {
      ShownWaits(env, name, state, z, mode);
      w := Asked(env, name, state, z, mode);
    } else {
      var a := CancelledLeads(env, name, state, z, mode, n - 1);
      CancelEnabled(env, a, z, n - 1);
      CancelledAgain(env, a, z, n - 1);
      w := Acted(After(a, Answer(Cancelled)));
      var es := CancelledTimes(name, state, z, mode, n - 1);
      Extends(Start(env), es, a, Answer(Cancelled));
      Extends(Start(env), es + [Answer(Cancelled)], After(a, Answer(Cancelled)), ActNow);
    }
  }

  lemma CancelEnabled(env: Env, w: World, z: ZMode, n: nat)
    requires Waiting(env, w, z, n)
    ensures Enabled(w, Answer(Cancelled)) && Enabled(After(w, Answer(Cancelled)), ActNow)
  {
  }

  /**
   The change to the only mode of a display is cancelled six times. The state is then idle, which is reported
   as done, though the display is not as desired and nothing is unanswered.
   */
  lemma DoneThoughDiffering(env: Env, name: Name, state: HeadState, z: ZMode, mode: Mode) returns (v: World)
    requires Welcome(env, name)
    ensures Leads(Start(env), CancelledTimes(name, state, z, mode, MAX_CANCELLATION_RETRIES + 1), v)
    ensures v.sys.state == Idle && v.inFlight == [] && !v.sys.exited
    ensures |v.sys.heads| == 1 && Differs(v.sys.heads[0])
  {
    hide Leads, Desire, Apply;
    var w := CancelledLeads(env, name, state, z, mode, MAX_CANCELLATION_RETRIES);
    var es := CancelledTimes(name, state, z, mode, MAX_CANCELLATION_RETRIES);
    CancelEnabled(env, w, z, MAX_CANCELLATION_RETRIES);
    Extends(Start(env), es, w, Answer(Cancelled));
    Extends(Start(env), es + [Answer(Cancelled)], After(w, Answer(Cancelled)), ActNow);
    v := After(After(w, Answer(Cancelled)), ActNow);
  }
}
