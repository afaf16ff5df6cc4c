/** Comparing and choosing display modes. */
module Modes {
  import opened Seqs
  import opened OrderedMap
  import opened Plists
  import ShellSort

  /** A Wayland mode object. */
  type ZMode = nat

  /**
   Advertised modes carry their dimensions; a configured mode may lack some (-1), or ask for the
   maximum.
   */
  datatype Mode = Mode(width: int, height: int, refresh: int, max: bool, maxPreferredRefresh: bool, warned: bool)

  const UNSET: Mode := Mode(-1, -1, -1, false, false, false)

  /** The Mode objects of a head by their Wayland mode; an entry also stands for its Mode's address. */
  type ModeMap = Entries<ZMode, Mode>
  type Entry = (ZMode, Mode)

  function HzRounded(m: Mode): int {
    // C division truncates
    if m.refresh + 500 >= 0 then (m.refresh + 500) / 1000 else -((-m.refresh - 500) / 1000)
  }

  predicate EqualRes(a: Mode, b: Mode) {
    a.width == b.width && a.height == b.height
  }

  predicate EqualResMhz(a: Mode, b: Mode) {
    EqualRes(a, b) && a.refresh == b.refresh
  }

  /** mode_greater_than_res_refresh */
  predicate Greater(a: Mode, b: Mode) {
    if a.width != b.width then a.width > b.width
    else if a.height != b.height then a.height > b.height
    else a.refresh > b.refresh
  }

  predicate Satisfies(m: Mode, target: Mode) {
    target.max || (EqualRes(m, target) && (target.refresh == -1 || HzRounded(m) == HzRounded(target)))
  }

  function GreaterEntry(): (Entry, Entry) -> bool {
    (a: Entry, b: Entry) => Greater(a.1, b.1)
  }

  function ExactTo(target: Mode): Entry -> bool {
    (e: Entry) => EqualResMhz(e.1, target)
  }

  function SatisfiesTarget(target: Mode): Entry -> bool {
    (e: Entry) => Satisfies(e.1, target)
  }

  function SameRes(target: Mode): Entry -> bool {
    (e: Entry) => EqualRes(e.1, target)
  }

  /** The modes from the greatest down. */
  function Descending(modes: ModeMap): seq<Entry> {
    ShellSort.Sort(modes, GreaterEntry())
  }

  /** mode_best_satisfying: exact match first, otherwise best match. */
  function Best(target: Mode, modes: ModeMap): Option<Entry> {
    var exact := FirstThat(Descending(modes), ExactTo(target));
    if exact.Some? then exact else FirstThat(Descending(modes), SatisfiesTarget(target))
  }

  /** mode_max_refresh */
  function MaxRefresh(target: Mode, modes: ModeMap): Option<Entry> {
    FirstThat(Descending(modes), SameRes(target))
  }

  function Area(m: Mode): int {
    m.width * m.height
  }

  /** The next turn of mode_max. */
  function MaxOf(best: Option<Entry>, e: Entry): Option<Entry> {
    if best.None? then Some(e)
    else
      var (m, b) := (e.1, best.value.1);
      if Area(m) > Area(b) then Some(e)
      else if EqualRes(m, b) && m.refresh > b.refresh then Some(e)
      else best
  }

  /** mode_max */
  function Max(modes: ModeMap): Option<Entry> {
    if modes == [] then None else MaxOf(Max(modes[..|modes| - 1]), modes[|modes| - 1])
  }

  function PreferredEntry(modes: ModeMap, preferred: Option<ZMode>): Option<Entry> {
    if preferred.Some? && Has(modes, preferred.value)
    then Some((preferred.value, Get(modes, preferred.value).value)) else None
  }

  /** The mode of a user MODE: match res/refresh or max, then the refresh of the preferred. */
  function UserEntry(user: Mode, modes: ModeMap, pref: Option<Entry>): Option<Entry> {
    var best := Best(user, modes);
    if best.None? && pref.Some? && user.maxPreferredRefresh then MaxRefresh(pref.value.1, modes) else best
  }

  /** head_find_mode: the user's mode, else the preferred, else the maximum. */
  function FindMode(user: Option<Mode>, modes: ModeMap, preferred: Option<ZMode>): Option<ZMode> {
    var pref := PreferredEntry(modes, preferred);
    var chosen := if user.Some? then UserEntry(user.value, modes, pref) else None;
    var entry := if chosen.Some? then chosen else if pref.Some? then pref else Max(modes);
    if modes == [] || entry.None? then None else Some(entry.value.0)
  }

  // -------- the comparator and the sorted candidates --------

  lemma GreaterIsStrictWeakOrder()
    ensures ShellSort.StrictWeakOrder(GreaterEntry())
  {
  }

  lemma DescendingSorted(modes: ModeMap)
    ensures ShellSort.Sorted(Descending(modes), GreaterEntry())
    ensures multiset(Descending(modes)) == multiset(modes)
    ensures forall e :: e in Descending(modes) <==> e in modes
  {
    GreaterIsStrictWeakOrder();
    ShellSort.SortSorts(modes, GreaterEntry());
    ShellSort.SortPermutes(modes, GreaterEntry());
    forall e ensures e in Descending(modes) <==> e in modes {
      ShellSort.SortMember(modes, GreaterEntry(), e);
    }
  }

  /** The first that passes in descending order is a greatest of those that pass. */
  lemma FirstIsGreatest(modes: ModeMap, pass: Entry -> bool)
    ensures var r := FirstThat(Descending(modes), pass);
      && (r.None? <==> forall e | e in modes :: !pass(e))
      && (r.Some? ==> r.value in modes && pass(r.value) && forall e | e in modes && pass(e) :: !Greater(e.1, r.value.1))
  {
    var s := Descending(modes);
    var i := NextAt(s, 0, pass);
    DescendingSorted(modes);
    if i < |s| {
      assert s[i] in s;
      forall e | e in modes && pass(e) ensures !Greater(e.1, s[i].1) {
        var j :| 0 <= j < |s| && s[j] == e;
        if j == i {
        } else {
          assert i < j;
          assert !GreaterEntry()(s[j], s[i]);
        }
      }
    } else {
      forall e | e in modes ensures !pass(e) {
        var j :| 0 <= j < |s| && s[j] == e;
      }
    }
  }

  // -------- mode selection --------

  /**
   Main result: an exact match is taken when there is one; otherwise the greatest of the modes that
   satisfy the target; none exactly when none satisfies it.
   */
  lemma BestIsBest(target: Mode, modes: ModeMap)
    ensures var r := Best(target, modes);
      && (r.None? <==> forall e | e in modes :: !Satisfies(e.1, target))
      && (r.Some? ==> r.value in modes && Satisfies(r.value.1, target))
      && ((exists e | e in modes :: EqualResMhz(e.1, target)) ==> r.Some? && EqualResMhz(r.value.1, target))
      && ((forall e | e in modes :: !EqualResMhz(e.1, target)) && r.Some? ==>
            forall e | e in modes && Satisfies(e.1, target) :: !Greater(e.1, r.value.1))
  {
    FirstIsGreatest(modes, ExactTo(target));
    FirstIsGreatest(modes, SatisfiesTarget(target));
    assert forall e: Entry :: ExactTo(target)(e) ==> SatisfiesTarget(target)(e);
    assert forall e: Entry :: ExactTo(target)(e) == EqualResMhz(e.1, target);
    assert forall e: Entry :: SatisfiesTarget(target)(e) == Satisfies(e.1, target);
  }

  /** The largest area, and the highest refresh of the resolution it has. */
  ghost predicate IsMax(modes: ModeMap, r: Entry) {
    && r in modes
    && (forall e | e in modes :: Area(e.1) <= Area(r.1))
    && (forall e | e in modes && EqualRes(e.1, r.1) :: e.1.refresh <= r.1.refresh)
  }

  lemma MaxStep(modes: ModeMap, r: Entry, e: Entry)
    requires IsMax(modes, r)
    ensures IsMax(modes + [e], MaxOf(Some(r), e).value)
  {
    var s := MaxOf(Some(r), e).value;
    forall o | o in modes + [e] && EqualRes(o.1, s.1) ensures o.1.refresh <= s.1.refresh {
      SameArea(o.1, s.1);
    }
    SameArea(e.1, r.1);
  }

  lemma SameArea(a: Mode, b: Mode)
    ensures EqualRes(a, b) ==> Area(a) == Area(b)
  {
  }

  /** mode_max */
  lemma {:induction false} MaxIsMax(modes: ModeMap)
    ensures Max(modes).None? <==> modes == []
    ensures Max(modes).Some? ==> IsMax(modes, Max(modes).value)
  {
    if modes != [] {
      var n := |modes| - 1;
      MaxIsMax(modes[..n]);
      assert modes == modes[..n] + [modes[n]];
      if n > 0 {
        MaxStep(modes[..n], Max(modes[..n]).value, modes[n]);
      }
    }
  }

  /** Main result: a mode is found exactly when there is one, and it is a key of the map. */
  lemma FindModeFinds(user: Option<Mode>, modes: ModeMap, preferred: Option<ZMode>)
    ensures FindMode(user, modes, preferred).None? <==> modes == []
    ensures FindMode(user, modes, preferred).Some? ==> Has(modes, FindMode(user, modes, preferred).value)
  {
    hide Best, MaxRefresh, IsMax;
    var pref := PreferredEntry(modes, preferred);
    MaxIsMax(modes);
    PreferredIn(modes, preferred);
    if user.Some? {
      UserEntryIn(user.value, modes, pref);
    }
    forall e | e in modes ensures Has(modes, e.0) {
      EntryHas(modes, e);
    }
  }

  /** The highest refresh of the modes with the resolution of the target. */
  ghost predicate HighestOf(modes: ModeMap, target: Mode, r: Entry) {
    && r in modes && r.1.width == target.width && r.1.height == target.height
    && forall e | e in modes && e.1.width == target.width && e.1.height == target.height :: e.1.refresh <= r.1.refresh
  }

  lemma MaxRefreshIsHighest(target: Mode, modes: ModeMap)
    ensures var r := MaxRefresh(target, modes);
      && (r.None? <==> forall e | e in modes :: e.1.width != target.width || e.1.height != target.height)
      && (r.Some? ==> HighestOf(modes, target, r.value))
  {
    FirstIsGreatest(modes, SameRes(target));
    assert forall e: Entry :: SameRes(target)(e) == (e.1.width == target.width && e.1.height == target.height);
  }

  /**
   What satisfies a user MODE best: one with its resolution and refresh if there is any, else the widest, of
   these the highest, and of these the one with the highest refresh.
   */
  ghost predicate BestOf(modes: ModeMap, user: Mode, r: Entry) {
    && r in modes && Satisfies(r.1, user)
    && if exists e | e in modes :: e.1.width == user.width && e.1.height == user.height && e.1.refresh == user.refresh
       then r.1.width == user.width && r.1.height == user.height && r.1.refresh == user.refresh
       else forall e | e in modes && Satisfies(e.1, user) ::
         && e.1.width <= r.1.width
         && (e.1.width == r.1.width ==> e.1.height <= r.1.height)
         && (e.1.width == r.1.width && e.1.height == r.1.height ==> e.1.refresh <= r.1.refresh)
  }

  lemma BestIsBestOf(user: Mode, modes: ModeMap)
    ensures Best(user, modes).Some? ==> BestOf(modes, user, Best(user, modes).value)
  {
    BestIsBest(user, modes);
    assert forall e: Entry :: EqualResMhz(e.1, user) <==>
      e.1.width == user.width && e.1.height == user.height && e.1.refresh == user.refresh;
  }

  ghost predicate SomeSatisfies(modes: ModeMap, user: Option<Mode>) {
    user.Some? && exists e | e in modes :: Satisfies(e.1, user.value)
  }

  /**
   Main result: which mode is found. For a user MODE that any satisfies, the best that does. Else, if the user
   asks for the refresh of the preferred mode, the highest of its resolution. Else the preferred mode, if it is
   available. Else a mode of the largest area, with the highest refresh of its resolution.
   */
  lemma FindModeChooses(user: Option<Mode>, modes: ModeMap, preferred: Option<ZMode>)
    requires Unique(modes) && modes != []
    ensures FindMode(user, modes, preferred).Some?
    ensures var z := FindMode(user, modes, preferred).value;
      && Has(modes, z)
      && var found := (z, Get(modes, z).value);
         if SomeSatisfies(modes, user) then BestOf(modes, user.value, found)
         else if preferred.None? || !Has(modes, preferred.value) then IsMax(modes, found)
         else if user.Some? && user.value.maxPreferredRefresh
         then HighestOf(modes, Get(modes, preferred.value).value, found)
         else z == preferred.value
  {
    hide Satisfies, Best, MaxRefresh, Max, IsMax, BestOf, HighestOf;
    var pref := PreferredEntry(modes, preferred);
    var chosen := if user.Some? then UserEntry(user.value, modes, pref) else None;
    var entry := if chosen.Some? then chosen else if pref.Some? then pref else Max(modes);
    MaxIsMax(modes);
    PreferredIn(modes, preferred);
    if user.Some? {
      UserEntryIn(user.value, modes, pref);
      BestIsBest(user.value, modes);
      BestIsBestOf(user.value, modes);
    }
    if pref.Some? {
      MaxRefreshIsHighest(pref.value.1, modes);
    }
    MaxIn(modes);
    GetMember(modes, entry.value.0, entry.value.1);
  }

  lemma MaxIn(modes: ModeMap)
    requires modes != []
    ensures Max(modes).Some? && Max(modes).value in modes
  {
    MaxIsMax(modes);
  }

  /** A mode satisfies a MODE without MAX that has its resolution, and its refresh to the nearest Hz if it has one. */
  lemma SatisfiesIs(m: Mode, user: Mode)
    requires m.refresh >= 0 && user.refresh >= -1
    ensures Satisfies(m, user) <==>
      user.max ||
      (m.width == user.width && m.height == user.height &&
       (user.refresh == -1 ||
        exists hz: nat :: 1000 * hz - 500 <= m.refresh < 1000 * hz + 500 && 1000 * hz - 500 <= user.refresh < 1000 * hz + 500))
  {
    if user.refresh != -1 {
      var hz: nat := HzRounded(user);
      assert 1000 * hz - 500 <= user.refresh < 1000 * hz + 500;
    }
  }

  lemma PreferredIn(modes: ModeMap, preferred: Option<ZMode>)
    ensures var pref := PreferredEntry(modes, preferred);
      pref.Some? ==> pref.value in modes && Some(pref.value.0) == preferred
  {
    if preferred.Some? && Has(modes, preferred.value) {
      assert modes[IndexOf(modes, preferred.value)] in modes;
    }
  }

  lemma UserEntryIn(user: Mode, modes: ModeMap, pref: Option<Entry>)
    ensures UserEntry(user, modes, pref).Some? ==> UserEntry(user, modes, pref).value in modes
  {
    BestIsBest(user, modes);
    if pref.Some? {
      FirstIsGreatest(modes, SameRes(pref.value.1));
    }
  }

  lemma EntryHas(modes: ModeMap, e: Entry)
    requires e in modes
    ensures Has(modes, e.0)
  {
    var i :| 0 <= i < |modes| && modes[i] == e;
    assert Keys(modes)[i] == e.0;
  }

  /**
   Main result: as modes are used up, and once no exact match is left, the modes tried for a user
   mode never rise.
   */
  lemma TriesDescend(target: Mode, modes: ModeMap, fewer: ModeMap)
    requires forall e | e in fewer :: e in modes
    requires forall e | e in modes :: !EqualResMhz(e.1, target)
    requires Best(target, fewer).Some?
    ensures Best(target, modes).Some? && !Greater(Best(target, fewer).value.1, Best(target, modes).value.1)
  {
    BestIsBest(target, modes);
    BestIsBest(target, fewer);
  }

  // -------- the same in the source's form --------

  /** ppmap_vals_plist, then plist_sort: an entry is never NULL, so the list may hold any. */
  method SortedCandidates(modes: ModeMap) returns (list: Plist<Entry>)
    ensures list.Valid() && fresh(list) && fresh(list.vals) && list.Contents() == Descending(modes)
  {
    list := new Plist<Entry>((0, UNSET), true, (a: Entry, b: Entry) => a == b, |modes|);
    for i := 0 to |modes|
      invariant list.Valid() && fresh(list) && fresh(list.vals) && list.allowNull
      invariant list.Contents() == modes[..i]
    {
      var appended := list.Append(modes[i]);
      assert modes[..i + 1] == modes[..i] + [modes[i]];
    }
    assert modes[..|modes|] == modes;
    list.Sort(GreaterEntry());
  }

  method ModeBestSatisfying(target: Mode, modes: ModeMap) returns (best: Option<Entry>)
    ensures best == Best(target, modes)
  {
    var candidates := SortedCandidates(modes);
    best := candidates.Find(ExactTo(target));
    if best.None? {
      best := candidates.Find(SatisfiesTarget(target));
    }
  }

  method ModeMaxRefresh(target: Mode, modes: ModeMap) returns (best: Option<Entry>)
    ensures best == MaxRefresh(target, modes)
  {
    var candidates := SortedCandidates(modes);
    best := candidates.Find(SameRes(target));
  }

  method ModeMax(modes: ModeMap) returns (max: Option<Entry>)
    ensures max == Max(modes)
  {
    max := None;
    for i := 0 to |modes|
      invariant max == Max(modes[..i])
    {
      assert modes[..i + 1][..i] == modes[..i];
      var mode := modes[i];
      if max.None? {
        max := Some(mode);
        continue;
      }
      if mode.1.width * mode.1.height > max.value.1.width * max.value.1.height {
        max := Some(mode);
        continue;
      }
      if mode.1.width == max.value.1.width && mode.1.height == max.value.1.height &&
         mode.1.refresh > max.value.1.refresh {
        max := Some(mode);
        continue;
      }
    }
    assert modes[..|modes|] == modes;
  }

  /** head_find_mode; finding none, or falling back, only adds a message. */
  method HeadFindMode(user: Option<Mode>, modes: ModeMap, preferred: Option<ZMode>) returns (found: Option<ZMode>)
    ensures found == FindMode(user, modes, preferred)
  {
    if |modes| == 0 {
      return None;
    }
    var pref := PreferredEntry(modes, preferred);
    var mode: Option<Entry> := None;
    if user.Some? {
      mode := UserMode(user.value, modes, pref);
    }
    if mode.None? && pref.Some? {
      mode := pref;
    }
    if mode.None? {
      mode := ModeMax(modes);
    }
    return if mode.Some? then Some(mode.value.0) else None;
  }

  method UserMode(user: Mode, modes: ModeMap, pref: Option<Entry>) returns (mode: Option<Entry>)
    ensures mode == UserEntry(user, modes, pref)
  {
    mode := ModeBestSatisfying(user, modes);
    if mode.None? && pref.Some? && user.maxPreferredRefresh {
      mode := ModeMaxRefresh(pref.value.1, modes);
    }
  }
}
