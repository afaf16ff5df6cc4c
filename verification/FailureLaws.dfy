/** What a failure leaves behind: VRR that has failed stays off the table, and a failed mode is followed by another. */
module FailureLaws {
  import opened Seqs
  import opened OrderedMap
  import opened Modes
  import opened Reconcile
  import opened Heads
  import opened Runs
  import opened RunLaws
  import Convergence

  // -------- VRR --------

  lemma HandledKeepsVrr(s: Sys, i: nat)
    requires i < |s.heads| && s.heads[i].vrrFailed
    ensures var heads := Handled(s).0.heads;
      i < |heads| && heads[i].vrrFailed
  {
  }

  lemma ActKeepsVrr(w: World, i: nat)
    requires i < |w.sys.heads|
    ensures var heads := Handled(w.sys).0.heads;
      i < |heads| && i < |Acted(w).sys.heads| && Acted(w).sys.heads[i].vrrFailed == heads[i].vrrFailed
  {
    hide Desire, Apply, Handled, Refuse;
    HandledCount(w.sys);
    var (handled, goOn) := Handled(w.sys);
    if !w.sys.exited && goOn {
      ApplyFits(handled.(heads := Desire(w.env, handled.heads)));
      DesireKeepsModes(w.env, handled.heads, i);
    }
  }

  lemma HandledCount(s: Sys)
    ensures |Handled(s).0.heads| == |s.heads|
  {
  }

  lemma VrrFailedStays(w: World, e: Event, i: nat)
    requires Enabled(w, e) && i < |w.sys.heads| && w.sys.heads[i].vrrFailed
    ensures i < |After(w, e).sys.heads| && After(w, e).sys.heads[i].vrrFailed
  {
    hide Act, Handled, Refuse, Put, PutAll, Remove, KeptMode;
    if e.ActNow? {
      HandledKeepsVrr(w.sys, i);
      ActKeepsVrr(w, i);
    }
  }

  lemma {:induction false} VrrFailedThroughout(w: World, es: seq<Event>, v: World, i: nat)
    requires Leads(w, es, v) && i < |w.sys.heads| && w.sys.heads[i].vrrFailed
    ensures i < |v.sys.heads| && v.sys.heads[i].vrrFailed
    decreases |es|
  {
    hide Enabled, After;
    if es != [] {
      VrrFailedStays(w, es[0], i);
      VrrFailedThroughout(After(w, es[0]), es[1..], v, i);
    }
  }

  /** The answer to a VRR change has come, and the display still has not what it is to have. */
  lemma VrrMarked(u: World, i: nat, vrr: bool)
    requires Safe(u) && !u.sys.exited && u.last == Some(SetVrr(i, vrr)) && i < |u.sys.heads|
    requires (u.sys.state == Failed || u.sys.state == Succeeded) && VrrDiffers(u.sys.heads[i])
    ensures Handled(u.sys).0.heads[i].vrrFailed
  {
    assert DeltaFits(u.sys, u.last);
  }

  lemma NeverAsksVrr(v: World, i: nat)
    requires Safe(v) && !v.sys.exited && i < |v.sys.heads| && v.sys.heads[i].vrrFailed
    ensures forall vrr :: Act(v.env, v.sys).1 != Some(SetVrr(i, vrr))
  {
    hide Act, Handled, Safe;
    EveryRequestReasonable(v);
    HandledKeepsVrr(v.sys, i);
    ActKeepsVrr(v, i);
  }

  /**
   Main result: act() requests a VRR change, and the answer is that it failed, or that it succeeded although the
   display has not changed. From then on act() never requests VRR of that display again, a reapply or not.
   */
  lemma VrrFailedForever(w: World, asked: seq<Event>, u: World, es: seq<Event>, v: World, i: nat, vrr: bool)
    requires Safe(w) && ActNow !in asked
    requires Answer(Failed) in asked || Answer(Succeeded) in asked
    ensures
      && !w.sys.exited && Act(w.env, w.sys).1 == Some(SetVrr(i, vrr))
      && Leads(Acted(w), asked, u) && i < |u.sys.heads| && u.sys.heads[i].cur.vrr != u.sys.heads[i].des.vrr
      && Leads(Acted(u), es, v) && !v.sys.exited ==>
      forall again :: Act(v.env, v.sys).1 != Some(SetVrr(i, again))
  {
    hide Act, Safe, Handled;
    if && !w.sys.exited && Act(w.env, w.sys).1 == Some(SetVrr(i, vrr))
       && Leads(Acted(w), asked, u) && i < |u.sys.heads| && u.sys.heads[i].cur.vrr != u.sys.heads[i].des.vrr
       && Leads(Acted(u), es, v) && !v.sys.exited
    {
      SentIsLast(w);
      AlwaysSafe(Acted(w), asked, u);
      StateIsAnswer(Acted(w), asked, u);
      VrrMarked(u, i, vrr);
      ActInStep(u);
      ActKeepsVrr(u, i);
      AlwaysSafe(Acted(u), es, v);
      VrrFailedThroughout(Acted(u), es, v, i);
      NeverAsksVrr(v, i);
    }
  }

  // -------- modes --------

  lemma ModeCleared(u: World, i: nat, z: ZMode)
    requires Safe(u) && !u.sys.exited && u.sys.state == Failed && u.last == Some(SetMode(i, Some(z)))
    ensures var heads := Handled(u.sys).0.heads;
      i < |heads| && |heads| == |u.sys.heads| && heads[i].cur.zmode.None? && Handled(u.sys).1 && !Handled(u.sys).0.exited
  {
    assert DeltaFits(u.sys, u.last);
  }

  /** Some display has a mode to be set: a request is sent, and unless one is to be reapplied it is for a mode. */
  lemma ModeWrongAsks(u: World, i: nat)
    requires !u.sys.exited && Handled(u.sys).1 && i < |Handled(u.sys).0.heads|
    requires var heads := Handled(u.sys).0.heads;
      Usable(u.env, NamesOf(heads), heads[i]) && heads[i].cur.zmode.None?
    ensures var (request, heads) := (Act(u.env, u.sys).1, Handled(u.sys).0.heads);
      request.Some? && (request.value.Disable? || (request.value.SetMode? && request.value.head <= i))
  {
    hide Desire, Handled, FoundMode, Usable;
    var heads, names := Handled(u.sys).0.heads, NamesOf(Handled(u.sys).0.heads);
    var ds := Desire(u.env, heads);
    Convergence.DesiredDiffers(u.env, heads, i);
    UsableFound(u.env, names, heads[i]);
    assert ModeDiffers(ds[i]) && Differs(ds[i]);
  }

  /**
   Main result: a mode fails. When the display is still wanted and has other modes, act() goes on with another mode
   at once, of it or of a display before it, or with what is to be reapplied; the one that was set before is not
   taken to be still there.
   */
  lemma FailureAsksAgain(u: World, i: nat, z: ZMode)
    requires Safe(u) && !u.sys.exited && u.sys.state == Failed && u.last == Some(SetMode(i, Some(z)))
    ensures i < |u.sys.heads|
    ensures var (h, request) := (u.sys.heads[i], Act(u.env, u.sys).1);
      Wants(u.env, NamesOf(u.sys.heads), h) && (exists q :: Has(h.modes, q) && q != z) ==>
        request.Some? && (request.value.Disable? || (request.value.SetMode? && request.value.head <= i))
  {
    hide Desire, Act;
    ModeCleared(u, i, z);
    var h := u.sys.heads[i];
    if Wants(u.env, NamesOf(u.sys.heads), h) && exists q :: Has(h.modes, q) && q != z {
      StillUsable(u, i, z);
      ModeWrongAsks(u, i);
    }
  }

  lemma StillUsable(u: World, i: nat, z: ZMode)
    requires Safe(u) && !u.sys.exited && u.sys.state == Failed && u.last == Some(SetMode(i, Some(z))) && i < |u.sys.heads|
    requires Wants(u.env, NamesOf(u.sys.heads), u.sys.heads[i]) && exists q :: Has(u.sys.heads[i].modes, q) && q != z
    ensures var heads := Handled(u.sys).0.heads;
      i < |heads| && Usable(u.env, NamesOf(heads), heads[i])
  {
    var h, heads := u.sys.heads[i], Handled(u.sys).0.heads;
    assert DeltaFits(u.sys, u.last) && Booked(h, u.books[i]);
    assert heads == u.sys.heads[i := MoveToFailed(h, Some(z))];
    hide Handled, Safe, Booked;
    var q :| Has(h.modes, q) && q != z;
    FailureKeeps(h, z, q);
    assert NamesOf(heads) == NamesOf(u.sys.heads);
    assert heads[i].modes != [];
  }
}
