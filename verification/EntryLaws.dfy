/** What the entries of the configuration mean for displays, spelled out: conditions, ORDER, and clashing requests. */
module EntryLaws {
  import opened Seqs
  import opened Names
  import opened Config
  import opened Merge
  import opened Reconcile
  import FixedPoint
  import Ipc
  import Order

  // -------- conditions --------

  predicate SomeMatches(rx: Regex, heads: seq<Name>, nameDesc: string) {
    exists i | 0 <= i < |heads| :: Matches(rx, heads[i], nameDesc)
  }

  /** A condition is met when all PLUGGED and no UNPLUGGED are there, and the lid, if it has one, is as wanted. */
  lemma ConditionMetIff(rx: Regex, heads: seq<Name>, lid: Option<bool>, only: bool, c: Condition)
    ensures ConditionMet(rx, heads, lid, only, c) <==>
      && (forall i | 0 <= i < |c.plugged| :: SomeMatches(rx, heads, c.plugged[i]))
      && (forall i | 0 <= i < |c.unplugged| :: !SomeMatches(rx, heads, c.unplugged[i]))
      && (c.lid == Some(Closed) ==> lid == Some(true) && !only)
      && (c.lid == Some(Open) ==> lid == Some(false))
      && (c.lid == Some(NotPresent) ==> lid.None?)
  {
    assert forall n :: Plugged(rx, heads, n) == SomeMatches(rx, heads, n);
  }

  /** No entry that names the display is unconditional or has a condition that is met. */
  predicate NoneInForce(env: Env, names: seq<Name>, h: Name) {
    forall k | 0 <= k < |env.cfg.disableds| && Matches(env.rx, h, env.cfg.disableds[k].0) ::
      && env.cfg.disableds[k].1 != []
      && forall l | 0 <= l < |env.cfg.disableds[k].1| ::
           !ConditionMet(env.rx, names, env.lid, |names| == 1, env.cfg.disableds[k].1[l])
  }

  lemma AutoEnabledIff(env: Env, names: seq<Name>, h: HeadView)
    ensures AutoEnabled(env, names, h) <==> NoneInForce(env, names, h.name)
  {
    hide Matches, ConditionMet;
  }

  /** Without an override, a display that has a mode is enabled unless an entry that names it is in force. */
  lemma EnabledIff(env: Env, heads: seq<HeadView>, i: nat)
    requires i < |heads| && heads[i].override.NoOverride? && !heads[i].reapply
    ensures Desire(env, heads)[i].des.enabled <==>
      heads[i].modes != [] && NoneInForce(env, NamesOf(heads), heads[i].name)
  {
    hide Desire, DesireHead, NoneInForce, AutoEnabled;
    AutoEnabledIff(env, NamesOf(heads), heads[i]);
    FixedPoint.DesireIs(env, heads, i);
    DesireHeadIs(env, NamesOf(heads), heads[i]);
  }

  /**
   Main result: the condition that is there by default disables the display it names exactly when the lid is
   closed and it is not the only one.
   */
  lemma LidDisablesIff(env: Env, heads: seq<HeadView>, i: nat, laptop: string)
    requires i < |heads| && heads[i].override.NoOverride? && !heads[i].reapply && heads[i].modes != []
    requires env.cfg.disableds == [(laptop, [Condition([], [], Some(Closed))])]
    ensures !Desire(env, heads)[i].des.enabled <==>
      Matches(env.rx, heads[i].name, laptop) && env.lid == Some(true) && |heads| > 1
  {
    hide Desire, Matches, ConditionMet;
    var cfg, c := env.cfg.disableds, Condition([], [], Some(Closed));
    EnabledIff(env, heads, i);
    ConditionMetIff(env.rx, NamesOf(heads), env.lid, |heads| == 1, c);
    assert cfg[0] == (laptop, [c]) && cfg[0].1[0] == c;
  }

  /** It is there, for the laptop display, when the file does not mention DISABLED. */
  lemma LidConditionDefault(c: Cfg)
    ensures Defaulted(c).disableds ==
      if c.disableds == [] && !c.disabledsEmpty then [("!^eDP-[0-9]", [Condition([], [], Some(Closed))])] else c.disableds
  {
  }

  // -------- ORDER --------

  /** The b-th ORDER name is the one that places the display, in the strongest of three ways in which any matches. */
  ghost predicate Chosen(rx: Regex, order: seq<string>, h: Name, b: nat, way: nat) {
    && b < |order| && way < 3
    && (way == 0 ==> MatchesExact(h, order[b]) && forall a | 0 <= a < b :: !MatchesExact(h, order[a]))
    && (way == 1 ==> MatchesRegex(rx, h, order[b]) && forall a | 0 <= a < b :: !MatchesRegex(rx, h, order[a]))
    && (way == 2 ==> MatchesFuzzy(h, order[b]) && forall a | 0 <= a < b :: !MatchesFuzzy(h, order[a]))
    && (way > 0 ==> forall a | 0 <= a < |order| :: !MatchesExact(h, order[a]))
    && (way > 1 ==> forall a | 0 <= a < |order| :: !MatchesRegex(rx, h, order[a]))
  }

  ghost predicate NotChosen(rx: Regex, order: seq<string>, h: Name) {
    forall a | 0 <= a < |order| ::
      !MatchesExact(h, order[a]) && !MatchesRegex(rx, h, order[a]) && !MatchesFuzzy(h, order[a])
  }

  lemma RankOfChosen(rx: Regex, order: seq<string>, h: Name, b: nat, way: nat)
    requires Chosen(rx, order, h, b, way)
    ensures Order.Rank(rx, order, h) == 3 * b + way
  {
    hide MatchesExact, MatchesRegex, MatchesFuzzy;
    var exact, regex, fuzzy :=
      Order.FirstMatch(rx, order, 0, h, 0), Order.FirstMatch(rx, order, 1, h, 0), Order.FirstMatch(rx, order, 2, h, 0);
    assert way == 0 ==> exact == b;
    assert way == 1 ==> exact == |order| && regex == b;
    assert way == 2 ==> exact == |order| && regex == |order| && fuzzy == b;
  }

  lemma RankOfOthers(rx: Regex, order: seq<string>, h: Name)
    requires NotChosen(rx, order, h)
    ensures Order.Rank(rx, order, h) == 3 * |order|
  {
  }

  lemma RankedBefore(rx: Regex, order: seq<string>, heads: seq<Name>, p: nat, q: nat)
    requires var s := Order.Ordered(rx, order, heads);
      && p < |s| && q < |s| && 0 <= s[p] < |heads| && 0 <= s[q] < |heads|
      && Order.Rank(rx, order, heads[s[p]]) < Order.Rank(rx, order, heads[s[q]])
    ensures p < q
  {
    hide Order.Ordered, Order.Rank;
    Order.OrderedSorts(rx, order, heads);
    var s, rank := Order.Ordered(rx, order, heads), Order.RankOf(rx, order, heads);
    assert rank(s[p]) < rank(s[q]);
    if q < p {
      InOrderNot(rank, s, q, p);
    }
  }

  lemma InOrderNot(rank: int -> nat, s: seq<int>, p: nat, q: nat)
    requires Order.InOrder(rank, s) && p < q < |s|
    ensures !(rank(s[q]) < rank(s[p]))
  {
    assert Order.Precedes(rank, s[p], s[q]);
  }

  /**
   Main result: displays go by the ORDER name that places them; of one name, those that match it exactly go
   before those that match its regular expression, and these before the fuzzy ones; others come last.
   */
  lemma OrderGoesBy(rx: Regex, order: seq<string>, heads: seq<Name>, p: nat, q: nat, b: nat, way: nat, c: nat, other: nat)
    requires var s := Order.Ordered(rx, order, heads);
      p < |s| && q < |s| && 0 <= s[p] < |heads| && 0 <= s[q] < |heads|
    requires Chosen(rx, order, heads[Order.Ordered(rx, order, heads)[p]], b, way)
    ensures var h := heads[Order.Ordered(rx, order, heads)[q]];
      (Chosen(rx, order, h, c, other) && (b < c || (b == c && way < other))) || NotChosen(rx, order, h) ==> p < q
  {
    hide Order.Ordered, Order.Rank, Chosen, NotChosen;
    var s := Order.Ordered(rx, order, heads);
    RankOfChosen(rx, order, heads[s[p]], b, way);
    ChosenInOrder(rx, order, heads[s[p]], b, way);
    if Chosen(rx, order, heads[s[q]], c, other) && (b < c || (b == c && way < other)) {
      RankOfChosen(rx, order, heads[s[q]], c, other);
      RankedBefore(rx, order, heads, p, q);
    } else if NotChosen(rx, order, heads[s[q]]) {
      RankOfOthers(rx, order, heads[s[q]]);
      RankedBefore(rx, order, heads, p, q);
    }
  }

  lemma ChosenInOrder(rx: Regex, order: seq<string>, h: Name, b: nat, way: nat)
    requires Chosen(rx, order, h, b, way)
    ensures b < |order| && way < 3
  {
  }

  // -------- requests that clash with conditional entries --------

  /** A request and a conditional entry may mean the same display. */
  predicate MayMean(rx: Regex, entry: string, name: string) {
    || ContainsNoCase(entry, name) || ContainsNoCase(name, entry)
    || (|entry| > 2 && entry[0] == '!' && RegexMatches(rx, name, entry[1..]))
    || (|name| > 2 && name[0] == '!' && RegexMatches(rx, entry, name[1..]))
  }

  /**
   Main result: exactly those entries of a request pass that name no display which the configuration disables
   under conditions, and that may not mean what a conditional entry means.
   */
  lemma PassesIff(rx: Regex, cfg: Ipc.Disableds, heads: seq<Name>, name: string)
    ensures Ipc.Passes(rx, cfg, heads, name) <==>
      && (forall i, j | 0 <= i < |heads| && 0 <= j < |cfg| && cfg[j].1 != [] ::
            !(Matches(rx, heads[i], name) && Matches(rx, heads[i], cfg[j].0)))
      && forall j | 0 <= j < |cfg| && cfg[j].1 != [] :: !MayMean(rx, cfg[j].0, name)
  {
    hide Matches, ContainsNoCase, RegexMatches;
    assert forall j | 0 <= j < |cfg| :: Ipc.Clash(rx, cfg[j].0, cfg[j].1, name) <==> cfg[j].1 != [] && MayMean(rx, cfg[j].0, name);
  }
}
