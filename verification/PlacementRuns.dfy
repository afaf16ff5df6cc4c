/** In every run, under every configuration that is reached, no two displays are desired to overlap. */
module PlacementRuns {
  import opened Seqs
  import opened OrderedMap
  import opened Names
  import opened Modes
  import opened Config
  import opened Merge
  import opened Reconcile
  import opened Heads
  import opened Runs
  import opened Placement
  import opened DesiredLaws
  import YamlText
  import Yaml
  import YamlSound
  import FixedPoint
  import Order

  // -------- the scales of every configuration that is reached --------

  function NotNegative(): int -> bool {
    (n: int) => n >= 0
  }

  lemma AppliedScales(c: Cfg, change: Change)
    requires Active(c) || change.Load?
    requires !change.Load? ==> AllValues(c.scales, NotNegative())
    requires match change
      case Load(file) => file.Some? ==> AllValues(file.value.scales, NotNegative())
      case Reload(file) => file.Some? ==> AllValues(file.value.scales, NotNegative())
      case Request(_, cfg) => AllValues(cfg.scales, NotNegative())
    ensures AllValues(Applied(c, change).scales, NotNegative())
  {
    hide CfgEqual, PutAll, RemoveIn, NotNegative;
    if change.Request? {
      PutAllValues(c.scales, change.cfg.scales, NotNegative());
      RemoveInFilters(c.scales, change.cfg.scales);
      FilterValues(c.scales, KeyNotIn(change.cfg.scales), NotNegative());
    }
  }

  lemma FileScales(k: YamlText.Codec, file: Option<Yaml.Pairs>)
    ensures var c := YamlSound.FileCfg(k, file); c.Some? ==> AllValues(c.value.scales, NotNegative())
  {
    if file.Some? {
      YamlSound.ReadSound(k, file.value);
    }
  }

  lemma {:induction false} ReachedScales(k: YamlText.Codec, inputs: seq<YamlSound.Input>)
    requires inputs != [] && inputs[0].Start?
    ensures AllValues(YamlSound.ReachedAfter(k, inputs).scales, NotNegative())
  {
    hide Applied, Active, Yaml.Read, AllValues;
    var n := |inputs| - 1;
    var c := YamlSound.ReachedAfter(k, inputs[..n]);
    if n > 0 {
      ReachedScales(k, inputs[..n]);
      YamlSound.AlwaysReachedActive(k, inputs[..n]);
    }
    match inputs[n]
    case Start(file) =>
      FileScales(k, file);
      AppliedScales(c, Load(YamlSound.FileCfg(k, file)));
    case FileChanged(file) =>
      FileScales(k, file);
      AppliedScales(c, Reload(YamlSound.FileCfg(k, file)));
    case Asked(command, cfg, heads) =>
      FileScales(k, Some(cfg));
      AppliedScales(c, Request(command, YamlSound.RequestCfg(k, c, cfg, heads)));
  }

  /** The configuration is one that is reached from files and requests. */
  ghost predicate Configured(env: Env) {
    exists k: YamlText.Codec, inputs: seq<YamlSound.Input> ::
      inputs != [] && inputs[0].Start? && YamlSound.ReachedAfter(k, inputs) == env.cfg
  }

  lemma ConfiguredPlausible(env: Env)
    requires Configured(env)
    ensures EnvPlausible(env)
  {
    hide YamlSound.ReachedAfter;
    var k: YamlText.Codec, inputs: seq<YamlSound.Input> :|
      inputs != [] && inputs[0].Start? && YamlSound.ReachedAfter(k, inputs) == env.cfg;
    ReachedScales(k, inputs);
    YamlSound.AlwaysReachedActive(k, inputs);
  }

  // -------- the sizes of every display --------

  /** What is kept of a head: nothing is negative, in the modes that are set aside neither. */
  predicate HeadKept(h: HeadView) {
    HeadPlausible(h) && h.cur.scale >= 0 && AllValues(h.modesFailed, Sized())
  }

  predicate HeadsKept(heads: seq<HeadView>) {
    forall i | 0 <= i < |heads| :: HeadKept(heads[i])
  }

  /** The compositor tells of no negative size or scale, and configurations are reached as above. */
  ghost predicate Told(e: Event) {
    match e
    case Advertised(_, _, mode) => Sized()(mode)
    case CurrentState(_, cur) => cur.scale >= 0
    case Arrived(_, _, _, state) => state.scale >= 0
    case Environment(env) => Configured(env)
    case _ => true
  }

  lemma RemoveValues<K, V>(m: Entries<K, V>, k: K, ok: V -> bool)
    requires AllValues(m, ok)
    ensures AllValues(Remove(m, k), ok)
  {
  }

  lemma PutValues<K, V>(m: Entries<K, V>, k: K, v: V, ok: V -> bool)
    requires AllValues(m, ok) && ok(v)
    ensures AllValues(Put(m, k, v), ok)
  {
  }

  lemma FailedKept(h: HeadView, zmode: Option<ZMode>)
    requires HeadKept(h)
    ensures HeadKept(MoveToFailed(h, zmode))
  {
    hide Sized, Remove, Put;
    if zmode.Some? {
      RemoveValues(h.modes, zmode.value, Sized());
      var mode := Get(h.modes, zmode.value);
      if mode.Some? {
        PutValues(h.modesFailed, zmode.value, mode.value, Sized());
      }
    }
  }

  lemma HandledKept(s: Sys)
    requires HeadsKept(s.heads)
    ensures HeadsKept(Handled(s).0.heads)
  {
    hide MoveToFailed;
    forall i | 0 <= i < |s.heads| ensures HeadKept(MoveToFailed(s.heads[i], s.delta.zmode)) {
      FailedKept(s.heads[i], s.delta.zmode);
    }
  }

  lemma DesireKept(env: Env, heads: seq<HeadView>)
    requires EnvPlausible(env) && HeadsKept(heads)
    ensures HeadsKept(Desire(env, heads))
  {
    hide Desire, DesireHead;
    forall i | 0 <= i < |heads| ensures HeadKept(Desire(env, heads)[i]) {
      DesireKeepsModes(env, heads, i);
      FixedPoint.DesireIs(env, heads, i);
      DesireSized(env, NamesOf(heads), heads[i]);
    }
  }

  lemma ActedKept(w: World)
    requires EnvPlausible(w.env) && HeadsKept(w.sys.heads)
    ensures HeadsKept(Acted(w).sys.heads)
  {
    hide Desire, Apply, Handled, Refuse, HeadKept, EnvPlausible;
    HandledKept(w.sys);
    var (handled, goOn) := Handled(w.sys);
    if !w.sys.exited && goOn {
      var asked := handled.(heads := Desire(w.env, handled.heads));
      DesireKept(w.env, handled.heads);
      ApplyFits(asked);
      forall i | 0 <= i < |asked.heads| ensures HeadKept(Apply(asked).0.heads[i]) {
        ReapplyKept(asked.heads[i], Apply(asked).0.heads[i].reapply);
      }
    }
  }

  lemma ReapplyKept(h: HeadView, reapply: bool)
    requires HeadKept(h)
    ensures HeadKept(h.(reapply := reapply))
  {
  }

  lemma ReappliedKept(h: HeadView)
    requires HeadKept(h)
    ensures HeadKept(Reapplied(h))
  {
    PutAllValues(h.modes, h.modesFailed, Sized());
  }

  lemma ModesKept(h: HeadView, z: ZMode)
    requires HeadKept(h)
    ensures HeadKept(Release(h, z)) && HeadKept(Prefer(h, z))
    ensures forall mode | Sized()(mode) :: HeadKept(h.(modes := Put(h.modes, z, mode)))
  {
    hide Sized, Put, Remove;
    RemoveValues(h.modes, z, Sized());
    forall mode | Sized()(mode) ensures AllValues(Put(h.modes, z, mode), Sized()) {
      PutValues(h.modes, z, mode, Sized());
    }
  }

  lemma StateKept(h: HeadView)
    requires HeadKept(h)
    ensures forall cur: HeadState | cur.scale >= 0 :: HeadKept(h.(cur := cur))
    ensures forall override :: HeadKept(h.(override := override))
  {
  }

  lemma NewHeadKept(name: Name, width: int, height: int, state: HeadState)
    requires state.scale >= 0
    ensures HeadKept(NewHead(name, width, height, state))
  {
  }

  lemma EventKept(w: World, e: Event)
    requires Enabled(w, e) && Told(e) && EnvPlausible(w.env) && HeadsKept(w.sys.heads)
    ensures EnvPlausible(After(w, e).env) && HeadsKept(After(w, e).sys.heads)
  {
    hide HeadKept, Release, Prefer, NewHead, Reapplied, EnvPlausible, Configured;
    var hs := w.sys.heads;
    match e
    case ActNow =>
      hide HeadsKept;
      ActedKept(w);
    case CurrentState(i, _) => StateKept(hs[i]);
    case Advertised(i, z, _) => ModesKept(hs[i], z);
    case Finished(i, z) => ModesKept(hs[i], z);
    case PreferredMode(i, z) => ModesKept(hs[i], z);
    case OverrideSet(i, _) => StateKept(hs[i]);
    case Arrived(name, width, height, state) => NewHeadKept(name, width, height, state);
    case ReapplyAll =>
      forall i | 0 <= i < |hs| ensures HeadKept(ReapplyEach(hs)[i]) {
        ReappliedKept(hs[i]);
      }
    case Environment(env) => ConfiguredPlausible(env);
    case _ =>
  }

  lemma {:induction false} AlwaysKept(w: World, es: seq<Event>, v: World)
    requires Leads(w, es, v) && EnvPlausible(w.env) && HeadsKept(w.sys.heads)
    requires forall e | e in es :: Told(e)
    ensures EnvPlausible(v.env) && HeadsKept(v.sys.heads)
    decreases |es|
  {
    hide Enabled, After, EnvPlausible, HeadsKept, Told;
    if es != [] {
      assert es[0] in es && forall e | e in es[1..] :: e in es;
      EventKept(w, es[0]);
      AlwaysKept(After(w, es[0]), es[1..], v);
    }
  }

  /**
   Main result: in every run from the start, whatever files and requests configure, act() never desires two
   displays to overlap along the axis, and ORDER decides which comes first.
   */
  lemma AlwaysApart(env: Env, es: seq<Event>, v: World, i: nat, j: nat)
    requires Configured(env) && Leads(Start(env), es, v) && forall e | e in es :: Told(e)
    requires i < |v.sys.heads| && j < |v.sys.heads| && i != j
    ensures var heads := Handled(v.sys).0.heads;
      && |heads| == |v.sys.heads|
      && var (a, b) := (Desire(v.env, heads)[i], Desire(v.env, heads)[j]);
         TakesPart(a) && TakesPart(b) ==>
           if Order.Precedes(Order.RankOf(v.env.rx, v.env.cfg.order, NamesOf(heads)), i, j)
           then From(v.env, a) + Length(v.env, a) <= From(v.env, b)
           else From(v.env, b) + Length(v.env, b) <= From(v.env, a)
  {
    hide Desire, Order.RankOf, Order.Precedes, From, Length, Leads, Configured;
    ConfiguredPlausible(env);
    AlwaysKept(Start(env), es, v);
    HandledKept(v.sys);
    DesiredApart(v.env, Handled(v.sys).0.heads, i, j);
  }

  /** Main result: nor by the sizes of the modes that they are to have, as their transforms show them. */
  lemma AlwaysApartBySize(env: Env, es: seq<Event>, v: World, i: nat, j: nat)
    requires Configured(env) && Leads(Start(env), es, v) && forall e | e in es :: Told(e)
    requires i < |v.sys.heads| && j < |v.sys.heads| && i != j
    ensures var heads := Handled(v.sys).0.heads;
      && |heads| == |v.sys.heads|
      && var (a, b) := (Desire(v.env, heads)[i], Desire(v.env, heads)[j]);
         TakesPart(a) && TakesPart(b) && a.des.scale > 0
         && Order.Precedes(Order.RankOf(v.env.rx, v.env.cfg.order, NamesOf(heads)), i, j) ==>
           EndsBySize(v.env, a, b)
  {
    hide Desire, Order.RankOf, Order.Precedes, EndsBySize, Leads, Configured;
    ConfiguredPlausible(env);
    AlwaysKept(Start(env), es, v);
    HandledKept(v.sys);
    var heads := Handled(v.sys).0.heads;
    var (a, b) := (Desire(v.env, heads)[i], Desire(v.env, heads)[j]);
    if TakesPart(a) && TakesPart(b) && a.des.scale > 0
       && Order.Precedes(Order.RankOf(v.env.rx, v.env.cfg.order, NamesOf(heads)), i, j)
    {
      DesiredApartBySize(v.env, heads, i, j);
    }
  }
}
