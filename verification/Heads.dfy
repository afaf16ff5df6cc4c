/** What events and requests do to a head: modes released, preferred and reapplied, and overrides. */
module Heads {
  import opened Seqs
  import opened OrderedMap
  import opened Names
  import opened Modes
  import opened Merge
  import opened Reconcile
  import Ipc

  /** head_release_mode */
  function Release(h: HeadView, zmode: ZMode): HeadView {
    h.(modes := Remove(h.modes, zmode),
       preferred := if h.preferred == Some(zmode) then None else h.preferred,
       cur := if h.cur.zmode == Some(zmode) then h.cur.(zmode := None) else h.cur,
       des := if h.des.zmode == Some(zmode) then h.des.(zmode := None) else h.des)
  }

  /** head_set_mode_pref: the first preferred mode that is available stays. */
  function Prefer(h: HeadView, zmode: ZMode): HeadView {
    if h.preferred.Some? && Has(h.modes, h.preferred.value) && Has(h.modes, zmode) then h
    else h.(preferred := Some(zmode))
  }

  /** The loop body of heads_reapply. */
  function Reapplied(h: HeadView): HeadView {
    h.(modes := PutAll(h.modes, h.modesFailed), modesFailed := [], reapply := true, cur := h.cur.(zmode := None))
  }

  /** head_apply_disabled_toggle */
  function ToggleOverride(h: HeadView): HeadView {
    h.(override := if !h.override.NoOverride? then NoOverride else if h.cur.enabled then OverrideFalse else OverrideTrue)
  }

  /** head_override_ipc_disableds, when an entry of the request is for a conditionally disabled head. */
  function OverrideBy(h: HeadView, command: Command): HeadView {
    match command
    case Toggle => ToggleOverride(h)
    case Del => if h.cur.enabled then h else ToggleOverride(h)
    case Set => if h.cur.enabled then ToggleOverride(h) else h
  }

  /** head_init, with what the compositor tells of the head at once. */
  function NewHead(name: Name, widthMm: int, heightMm: int, state: HeadState): HeadView {
    var s := state.(zmode := None);
    HeadView(name, widthMm, heightMm, [], [], None, 0, 0, s, s, NoOverride, false, false)
  }

  // -------- modes --------

  /** Unique keys in modes and in modes_failed, and none in both. */
  ghost predicate ModesApart(h: HeadView) {
    Unique(h.modes) && Unique(h.modesFailed) && forall z | Has(h.modes, z) :: !Has(h.modesFailed, z)
  }

  /** A mode's Mode, wherever it is kept. */
  function KeptMode(h: HeadView, z: ZMode): Option<Mode> {
    if Has(h.modes, z) then Get(h.modes, z) else Get(h.modesFailed, z)
  }

  /** A MODE failure forgets nothing: the mode is only moved aside. */
  lemma FailureKeeps(h: HeadView, z: ZMode, q: ZMode)
    requires ModesApart(h)
    ensures var f := MoveToFailed(h, Some(z));
      ModesApart(f) && KeptMode(f, q) == KeptMode(h, q) && Has(f.modes, q) == (Has(h.modes, q) && q != z)
  {
    var f := MoveToFailed(h, Some(z));
    RemoveFilters(h.modes, z);
    if Get(h.modes, z).Some? {
      PutKeys(h.modesFailed, z, Get(h.modes, z).value);
    }
    FailureKeepsOne(h, z, q);
    forall k | Has(f.modes, k) ensures !Has(f.modesFailed, k) {
      FailureKeepsOne(h, z, k);
    }
  }

  lemma FailureKeepsOne(h: HeadView, z: ZMode, q: ZMode)
    requires ModesApart(h)
    ensures var f := MoveToFailed(h, Some(z));
      && Get(f.modes, q) == (if q == z then None else Get(h.modes, q))
      && Get(f.modesFailed, q) == if q == z && Has(h.modes, z) then Get(h.modes, z) else Get(h.modesFailed, q)
  {
    RemoveGet(h.modes, z, q);
    if Has(h.modes, z) {
      PutGet(h.modesFailed, z, Get(h.modes, z).value, q);
    }
  }

  /** A reapply makes every failed mode available again, unchanged and after the others. */
  lemma ReapplyRestores(h: HeadView, q: ZMode)
    requires ModesApart(h)
    ensures var r := Reapplied(h);
      && ModesApart(r) && r.modesFailed == [] && Get(r.modes, q) == KeptMode(h, q)
      && Keys(r.modes) == Keys(h.modes) + Keys(h.modesFailed)
  {
    PutAllGet(h.modes, h.modesFailed, q);
    PutAllKeys(h.modes, h.modesFailed);
    forall k | k in Keys(h.modesFailed) ensures NewTo(h.modes)(k) {
      assert Has(h.modes, k) ==> !Has(h.modesFailed, k);
    }
    FilterAll(Keys(h.modesFailed), NewTo(h.modes));
  }

  lemma ReleaseKeeps(h: HeadView, z: ZMode, q: ZMode)
    requires ModesApart(h)
    ensures var r := Release(h, z);
      && ModesApart(r) && r.modesFailed == h.modesFailed
      && Get(r.modes, q) == if q == z then None else Get(h.modes, q)
  {
    RemoveFilters(h.modes, z);
    RemoveGet(h.modes, z, q);
    forall k | Has(Release(h, z).modes, k) ensures !Has(h.modesFailed, k) {
      RemoveGet(h.modes, z, k);
      assert Has(h.modes, k);
    }
  }

  /** A mode that is withdrawn is no longer preferred, current or desired, and nothing else changes but modes. */
  lemma ReleaseUnnames(h: HeadView, z: ZMode)
    ensures var r := Release(h, z);
      && (forall q :: r.preferred == Some(q) <==> h.preferred == Some(q) && q != z)
      && (forall q :: r.cur.zmode == Some(q) <==> h.cur.zmode == Some(q) && q != z)
      && (forall q :: r.des.zmode == Some(q) <==> h.des.zmode == Some(q) && q != z)
      && r == h.(modes := r.modes, preferred := r.preferred,
                 cur := h.cur.(zmode := r.cur.zmode), des := h.des.(zmode := r.des.zmode))
  {
  }

  /**
   Main result: a mode that the compositor has withdrawn is forgotten exactly when it had not failed.
   One that had failed stays aside, and the next reapply makes it available.
   */
  lemma ReleaseForgetsIff(h: HeadView, z: ZMode)
    requires ModesApart(h) && KeptMode(h, z).Some?
    ensures var r := Release(h, z);
      && (KeptMode(r, z).None? <==> !Has(h.modesFailed, z))
      && (Has(Reapplied(r).modes, z) <==> Has(h.modesFailed, z))
  {
    ReleaseKeeps(h, z, z);
    ReapplyRestores(Release(h, z), z);
  }

  // -------- the preferred mode --------

  predicate Available(h: HeadView, z: Option<ZMode>) {
    z.Some? && Has(h.modes, z.value)
  }

  /** The head after the compositor has named the given modes as preferred. */
  function PreferAll(h: HeadView, zs: seq<ZMode>): HeadView
    decreases |zs|
  {
    if zs == [] then h else PreferAll(Prefer(h, zs[0]), zs[1..])
  }

  /**
   Main result: of available modes, the first that is named stays the preferred one, however many follow
   and whatever was preferred before that is not available.
   */
  lemma {:induction false} FirstPreferredStays(h: HeadView, zs: seq<ZMode>)
    requires zs != [] && forall i | 0 <= i < |zs| :: Has(h.modes, zs[i])
    ensures PreferAll(h, zs) == h.(preferred := if Available(h, h.preferred) then h.preferred else Some(zs[0]))
    decreases |zs|
  {
    var next, rest := Prefer(h, zs[0]), zs[1..];
    if rest != [] {
      assert forall i | 0 <= i < |rest| :: rest[i] == zs[i + 1];
      FirstPreferredStays(next, rest);
    }
  }

  /** A preferred mode that is available gives way only to one that is not. */
  lemma PreferredGivesWayIff(h: HeadView, z: ZMode)
    requires Available(h, h.preferred)
    ensures Prefer(h, z).preferred != h.preferred <==> !Has(h.modes, z)
  {
  }

  // -------- what may be named --------

  /**
   What desire() makes a head name: a mode that is available when it is usable, and otherwise what it has.
   So it names one that is not available exactly when the current state does and the head is not usable.
   */
  lemma DesiredNamesIff(env: Env, names: seq<Name>, h: HeadView)
    ensures var d := DesireHead(env, names, h).des;
      d.zmode.Some? ==>
        (!Available(h, d.zmode) <==> h.cur.zmode == d.zmode && !Available(h, h.cur.zmode) && !Usable(env, names, h))
  {
    DesireHeadIs(env, names, h);
    FindModeFinds(FirstFor(env.rx, env.cfg.modes, h.name), h.modes, h.preferred);
  }

  // -------- overrides --------

  /** An override stands only against the automatic state. */
  predicate OverrideStands(env: Env, names: seq<Name>, h: HeadView) {
    !h.override.NoOverride? ==> AutoEnabled(env, names, h) != h.override.OverrideTrue?
  }

  /** desire() resets an override that the automatic state has caught up with. */
  lemma DesireLetsStand(env: Env, names: seq<Name>, h: HeadView)
    ensures OverrideStands(env, names, DesireHead(env, names, h))
  {
  }

  /**
   Main result: toggling a conditionally disabled head that is as wanted turns what is wanted; and
   doing so again, once that has been applied, turns it back.
   */
  lemma ToggleTurns(env: Env, names: seq<Name>, h: HeadView)
    requires OverrideStands(env, names, h) && h.cur.enabled == Wants(env, names, h)
    ensures var t := ToggleOverride(h);
      && Wants(env, names, t) == !Wants(env, names, h) && OverrideStands(env, names, t)
      && Wants(env, names, ToggleOverride(t.(cur := t.cur.(enabled := Wants(env, names, t))))) == Wants(env, names, h)
  {
  }

  /** SET disables such a head and DEL enables it; either changes nothing when it already is so. */
  lemma SetDelOverride(env: Env, names: seq<Name>, h: HeadView)
    requires OverrideStands(env, names, h) && h.cur.enabled == Wants(env, names, h)
    ensures !Wants(env, names, OverrideBy(h, Set)) && Wants(env, names, OverrideBy(h, Del))
    ensures !h.cur.enabled ==> OverrideBy(h, Set) == h
    ensures h.cur.enabled ==> OverrideBy(h, Del) == h
  {
  }

  // -------- requests that become overrides --------

  /** What head_override_ipc_disableds makes of a head: an override, when it is conditionally disabled and named. */
  function Requested(env: Env, h: HeadView, req: Ipc.Disableds, command: Command): HeadView {
    if Ipc.Overridden(env.rx, env.cfg.disableds, h.name, req) != [] then OverrideBy(h, command) else h
  }

  /** Some entry of the request names the head, and the configuration disables it under conditions. */
  predicate Concerns(env: Env, h: HeadView, req: Ipc.Disableds) {
    && Ipc.ConditionallyDisabled(env.rx, env.cfg.disableds, h.name)
    && exists i | 0 <= i < |req| :: Matches(env.rx, h.name, req[i].0)
  }

  lemma ConcernsIff(env: Env, h: HeadView, req: Ipc.Disableds)
    ensures Concerns(env, h, req) <==> Ipc.Overridden(env.rx, env.cfg.disableds, h.name, req) != []
  {
    var over, named := Ipc.Overridden(env.rx, env.cfg.disableds, h.name, req), Ipc.NamesHead(env.rx, h.name);
    if i :| 0 <= i < |req| && Matches(env.rx, h.name, req[i].0) {
      FilterMember(req, named, req[i]);
    }
    if over != [] {
      FilterMember(req, named, over[0]);
      var i :| 0 <= i < |req| && req[i] == over[0];
    }
  }

  /** Main result: exactly the overrides of the heads that a request concerns change, and only when it asks for a turn. */
  lemma OverrideChangesIff(env: Env, h: HeadView, req: Ipc.Disableds, command: Command)
    ensures Requested(env, h, req, command) == h.(override := Requested(env, h, req, command).override)
    ensures Requested(env, h, req, command).override != h.override <==>
      Concerns(env, h, req) && (command == Toggle || (command == Set && h.cur.enabled) || (command == Del && !h.cur.enabled))
  {
    ConcernsIff(env, h, req);
  }

  /**
   Main result: a request that concerns a head that is as wanted turns it (TOGGLE), disables it (SET) or
   enables it (DEL), though no entry for it is changed; and leaves alone what is wanted of every other head.
   */
  lemma RequestTurns(env: Env, names: seq<Name>, h: HeadView, req: Ipc.Disableds, command: Command)
    requires OverrideStands(env, names, h) && h.cur.enabled == Wants(env, names, h)
    ensures var r := Requested(env, h, req, command);
      && (!Concerns(env, h, req) ==> r == h)
      && (Concerns(env, h, req) ==>
            Wants(env, names, r) == match command case Toggle => !Wants(env, names, h) case Set => false case Del => true)
  {
    ConcernsIff(env, h, req);
  }
}
