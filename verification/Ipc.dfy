/** What an IPC request may not do: conditional DISABLED entries are protected from it. */
module Ipc {
  import opened Seqs
  import opened OrderedMap
  import opened Names
  import opened Config
  import opened Merge

  type Disableds = Entries<string, seq<Condition>>

  /** cfg_disabled_conditionally_for_head, for some entry of the configuration. */
  predicate ConditionallyDisabled(rx: Regex, cfg: Disableds, head: Name) {
    exists i | 0 <= i < |cfg| :: cfg[i].1 != [] && Matches(rx, head, cfg[i].0)
  }

  /** The request entries that become an override of the head: head_override_ipc_disableds. */
  function Overridden(rx: Regex, cfg: Disableds, head: Name, req: Disableds): Disableds {
    if ConditionallyDisabled(rx, cfg, head) then Filter(req, NamesHead(rx, head)) else []
  }

  function NamesHead(rx: Regex, head: Name): ((string, seq<Condition>)) -> bool {
    (e: (string, seq<Condition>)) => Matches(rx, head, e.0)
  }

  /** cfg_disabled_cond_with_name_desc: a has conditions, and a and b may mean the same display. */
  predicate Clash(rx: Regex, a: string, conditions: seq<Condition>, b: string) {
    && conditions != []
    && (|| ContainsNoCase(a, b) || ContainsNoCase(b, a)
        || (|a| > 2 && a[0] == '!' && RegexMatches(rx, b, a[1..]))
        || (|b| > 2 && b[0] == '!' && RegexMatches(rx, a, b[1..])))
  }

  predicate Clashes(rx: Regex, cfg: Disableds, nameDesc: string) {
    exists i | 0 <= i < |cfg| :: Clash(rx, cfg[i].0, cfg[i].1, nameDesc)
  }

  /** What passes the filter: no head that it names is conditionally disabled, and no entry clashes. */
  predicate Passes(rx: Regex, cfg: Disableds, heads: seq<Name>, nameDesc: string) {
    && (forall i | 0 <= i < |heads| :: !(Matches(rx, heads[i], nameDesc) && ConditionallyDisabled(rx, cfg, heads[i])))
    && !Clashes(rx, cfg, nameDesc)
  }

  function PassesEntry(rx: Regex, cfg: Disableds, heads: seq<Name>): ((string, seq<Condition>)) -> bool {
    (e: (string, seq<Condition>)) => Passes(rx, cfg, heads, e.0)
  }

  /** ipc_request_filter, on the DISABLED of the request. */
  function Filtered(rx: Regex, cfg: Disableds, heads: seq<Name>, req: Disableds): Disableds {
    Filter(req, PassesEntry(rx, cfg, heads))
  }

  /** A conditional entry clashes with a request for its own name. */
  lemma ConditionalClashes(rx: Regex, cfg: Disableds, heads: seq<Name>, k: string)
    requires Get(cfg, k).Some? && Get(cfg, k).value != []
    ensures !Passes(rx, cfg, heads, k)
  {
    var i := IndexOf(cfg, k);
    ContainsItself(k);
    assert Clash(rx, cfg[i].0, cfg[i].1, k);
  }

  lemma FilteredGet(rx: Regex, cfg: Disableds, heads: seq<Name>, req: Disableds, k: string)
    requires Unique(req)
    ensures var f := Filtered(rx, cfg, heads, req);
      Unique(f) && Get(f, k) == if Passes(rx, cfg, heads, k) then Get(req, k) else None
  {
    FilterGet(req, PassesEntry(rx, cfg, heads), k);
  }

  /**
   Main result: whatever is requested, every conditional DISABLED entry of the configuration is
   unchanged by the filtered and fixed merge.
   */
  lemma ConditionalsUntouched(rx: Regex, c: Cfg, heads: seq<Name>, req: Cfg, command: Command, k: string)
    requires WellFormed(c) && WellFormed(req)
    requires Get(c.disableds, k).Some? && Get(c.disableds, k).value != []
    ensures var filtered := req.(disableds := Filtered(rx, c.disableds, heads, req.disableds));
      Get(Fixed(Merged(c, filtered, command)).disableds, k) == Get(c.disableds, k)
  {
    var f := Filtered(rx, c.disableds, heads, req.disableds);
    ConditionalClashes(rx, c.disableds, heads, k);
    FilteredGet(rx, c.disableds, heads, req.disableds, k);
    assert !Has(f, k) by {
      assert Get(f, k) == None;
    }
    match command
    case Set => PutAllGet(c.disableds, f, k);
    case Del => RemoveInGet(c.disableds, f, k);
    case Toggle => ToggleKeysGet(c.disableds, f, k);
  }

  // -------- toggling an unconditional request twice --------

  ghost predicate Unconditional(req: Disableds) {
    forall i | 0 <= i < |req| :: req[i].1 == []
  }

  lemma UnconditionalGet(req: Disableds, k: string)
    requires Unconditional(req)
    ensures Has(req, k) ==> Get(req, k) == Some([])
  {
  }

  /** The filter only looks at the conditional entries, so the same ones let the same pass. */
  ghost predicate SameConditionals(a: Disableds, b: Disableds) {
    && (forall i | 0 <= i < |a| && a[i].1 != [] :: Get(b, a[i].0) == Some(a[i].1))
    && (forall i | 0 <= i < |b| && b[i].1 != [] :: Get(a, b[i].0) == Some(b[i].1))
  }

  lemma ConditionalsDecide(rx: Regex, a: Disableds, b: Disableds, heads: seq<Name>, nameDesc: string)
    requires forall i | 0 <= i < |a| && a[i].1 != [] :: Get(b, a[i].0) == Some(a[i].1)
    requires Passes(rx, b, heads, nameDesc)
    ensures Passes(rx, a, heads, nameDesc)
  {
  }

  lemma ToggleKeepsConditionals(rx: Regex, cfg: Disableds, heads: seq<Name>, req: Disableds)
    requires Unique(cfg) && Unique(req) && Unconditional(req)
    ensures SameConditionals(cfg, ToggleKeys(cfg, Filtered(rx, cfg, heads, req)))
    ensures Unique(Filtered(rx, cfg, heads, req)) && Unconditional(Filtered(rx, cfg, heads, req))
  {
    var f := Filtered(rx, cfg, heads, req);
    forall i | 0 <= i < |f| ensures f[i].1 == [] {
      FilterMember(req, PassesEntry(rx, cfg, heads), f[i]);
    }
    FilteredGet(rx, cfg, heads, req, "");
    var t := ToggleKeys(cfg, f);
    ToggleKeysGet(cfg, f, "");
    forall i | 0 <= i < |cfg| && cfg[i].1 != [] ensures Get(t, cfg[i].0) == Some(cfg[i].1) {
      EntryAt(cfg, i);
      ConditionalClashes(rx, cfg, heads, cfg[i].0);
      FilteredGet(rx, cfg, heads, req, cfg[i].0);
      ToggleKeysGet(cfg, f, cfg[i].0);
    }
    forall i | 0 <= i < |t| && t[i].1 != [] ensures Get(cfg, t[i].0) == Some(t[i].1) {
      EntryAt(t, i);
      ToggleKeysGet(cfg, f, t[i].0);
      UnconditionalGet(f, t[i].0);
    }
  }

  lemma SameFilter(rx: Regex, a: Disableds, b: Disableds, heads: seq<Name>, req: Disableds)
    requires SameConditionals(a, b)
    ensures Filtered(rx, a, heads, req) == Filtered(rx, b, heads, req)
  {
    forall e | e in req ensures PassesEntry(rx, a, heads)(e) == PassesEntry(rx, b, heads)(e) {
      if Passes(rx, a, heads, e.0) {
        ConditionalsDecide(rx, b, a, heads, e.0);
      }
      if Passes(rx, b, heads, e.0) {
        ConditionalsDecide(rx, a, b, heads, e.0);
      }
    }
    FilterSame(req, PassesEntry(rx, a, heads), PassesEntry(rx, b, heads));
  }

  /**
   Main result: a request with only unconditional entries, filtered each time, toggled twice, gives
   a configuration equal to the first.
   */
  lemma FilteredToggleTwice(rx: Regex, c: Cfg, heads: seq<Name>, req: Cfg)
    requires Active(c) && WellFormed(req) && Unconditional(req.disableds)
    ensures
      var once := MergeToggle(c, req.(disableds := Filtered(rx, c.disableds, heads, req.disableds)));
      var twice := MergeToggle(once, req.(disableds := Filtered(rx, once.disableds, heads, req.disableds)));
      CfgEqual(twice, c)
  {
    var f := Filtered(rx, c.disableds, heads, req.disableds);
    var once := MergeToggle(c, req.(disableds := f));
    ToggleKeepsConditionals(rx, c.disableds, heads, req.disableds);
    SameFilter(rx, c.disableds, once.disableds, heads, req.disableds);
    FilteredShared(rx, c, heads, req);
    ToggleTwice(c, req.(disableds := f));
  }

  /** A request as it is merged: filtered by the configuration of its time. */
  function FilteredRequest(rx: Regex, c: Cfg, heads: seq<Name>, req: Cfg): Cfg {
    req.(disableds := Filtered(rx, c.disableds, heads, req.disableds))
  }

  /** Main result: the same of two requests, as the program filters and deals with them. */
  lemma FilteredRequestsTwice(rx: Regex, c: Cfg, heads: seq<Name>, req: Cfg)
    requires Active(c) && WellFormed(req) && Unconditional(req.disableds)
    ensures
      var once := Applied(c, Request(Toggle, FilteredRequest(rx, c, heads, req)));
      CfgEqual(Applied(once, Request(Toggle, FilteredRequest(rx, once, heads, req))), c)
  {
    var r := FilteredRequest(rx, c, heads, req);
    var once := Applied(c, Request(Toggle, r));
    ToggleKeepsConditionals(rx, c.disableds, heads, req.disableds);
    MergeAdopted(c, r, Toggle);
    if once != c {
      SameFilter(rx, c.disableds, once.disableds, heads, req.disableds);
    }
    FilteredShared(rx, c, heads, req);
    ToggleRequestsTwice(c, r);
  }

  /** What passes the filter shares only unconditional entries with the configuration. */
  lemma FilteredShared(rx: Regex, c: Cfg, heads: seq<Name>, req: Cfg)
    requires WellFormed(c) && WellFormed(req) && Unconditional(req.disableds)
    ensures SharedEqual(c, FilteredRequest(rx, c, heads, req))
  {
    var f := Filtered(rx, c.disableds, heads, req.disableds);
    ToggleKeepsConditionals(rx, c.disableds, heads, req.disableds);
    forall k | k in KeySet(f) && Has(c.disableds, k)
      ensures SameDisabled()(Get(f, k).value, Get(c.disableds, k).value)
    {
      FilteredGet(rx, c.disableds, heads, req.disableds, k);
      if Get(c.disableds, k).value != [] {
        ConditionalClashes(rx, c.disableds, heads, k);
        assert false;
      }
      UnconditionalGet(f, k);
    }
  }

  // -------- the same in the source's form --------

  /** The loops of head_override_ipc_disableds that collect the entries to be overridden. */
  method HeadOverridden(rx: Regex, cfg: Disableds, head: Name, req: Disableds) returns (overridden: Disableds)
    requires Unique(req)
    ensures overridden == Overridden(rx, cfg, head, req)
  {
    overridden := [];
    for i := 0 to |req|
      invariant overridden == if ConditionallyDisabled(rx, cfg, head) then Filter(req[..i], NamesHead(rx, head)) else []
    {
      FilterSnoc(req, i, NamesHead(rx, head));
      ghost var before := overridden;
      if Matches(rx, head, req[i].0) {
        FreshKey(req, i, NamesHead(rx, head));
        for j := 0 to |cfg|
          invariant overridden == before +
            if exists k | 0 <= k < j :: cfg[k].1 != [] && Matches(rx, head, cfg[k].0) then [req[i]] else []
        {
          if cfg[j].1 != [] && Matches(rx, head, cfg[j].0) {
            PutAgain(before, req[i]);
            overridden := Put(overridden, req[i].0, req[i].1);
          }
        }
      }
    }
    assert req[..|req|] == req;
  }

  lemma FreshKey(req: Disableds, i: nat, pass: ((string, seq<Condition>)) -> bool)
    requires Unique(req) && i < |req|
    ensures !Has(Filter(req[..i], pass), req[i].0)
  {
    var f := Filter(req[..i], pass);
    forall k | 0 <= k < |f| ensures f[k].0 != req[i].0 {
      FilterMember(req[..i], pass, f[k]);
      var j :| 0 <= j < i && req[j] == f[k];
      assert Keys(req)[j] != Keys(req)[i];
    }
  }

  lemma PutAgain(m: Disableds, e: (string, seq<Condition>))
    ensures !Has(m, e.0) ==> Put(m, e.0, e.1) == m + [e] && Put(m + [e], e.0, e.1) == m + [e]
  {
    if !Has(m, e.0) {
      assert Keys(m + [e]) == Keys(m) + [e.0];
      assert forall j | 0 <= j < |m| :: Keys(m)[j] != e.0;
    }
  }

  lemma OverriddenKeys(rx: Regex, cfg: Disableds, head: Name, req: Disableds, k: string)
    requires Unique(req)
    ensures Unique(Overridden(rx, cfg, head, req))
    ensures Has(Overridden(rx, cfg, head, req), k) <==>
      Has(req, k) && Matches(rx, head, k) && ConditionallyDisabled(rx, cfg, head)
  {
    FilterGet(req, NamesHead(rx, head), k);
  }

  /** A display among the first n that k names is conditionally disabled. */
  predicate NamesConditional(rx: Regex, cfg: Disableds, heads: seq<Name>, n: nat, k: string)
    requires n <= |heads|
  {
    exists j | 0 <= j < n :: Matches(rx, heads[j], k) && ConditionallyDisabled(rx, cfg, heads[j])
  }

  /** The entries that have become overrides of the first n displays. */
  ghost predicate Collected(rx: Regex, cfg: Disableds, heads: seq<Name>, n: nat, req: Disableds, overridden: Disableds)
    requires n <= |heads|
  {
    Unique(overridden) && forall k :: Has(overridden, k) <==> Has(req, k) && NamesConditional(rx, cfg, heads, n, k)
  }

  lemma CollectedNone(rx: Regex, cfg: Disableds, heads: seq<Name>, req: Disableds)
    ensures Collected(rx, cfg, heads, 0, req, [])
  {
  }

  lemma CollectedStep(rx: Regex, cfg: Disableds, heads: seq<Name>, n: nat, req: Disableds, overridden: Disableds)
    requires Unique(req) && n < |heads| && Collected(rx, cfg, heads, n, req, overridden)
    ensures Collected(rx, cfg, heads, n + 1, req, PutAll(overridden, Overridden(rx, cfg, heads[n], req)))
  {
    var more := Overridden(rx, cfg, heads[n], req);
    forall k ensures Has(PutAll(overridden, more), k) <==> Has(req, k) && NamesConditional(rx, cfg, heads, n + 1, k) {
      OverriddenKeys(rx, cfg, heads[n], req, k);
      PutAllGet(overridden, more, k);
    }
    OverriddenKeys(rx, cfg, heads[n], req, "");
    PutAllGet(overridden, more, "");
  }

  /** The end of ipc_request_filter: without the overridden entries, and without those that clash. */
  method LeaveOut(rx: Regex, cfg: Disableds, heads: seq<Name>, req: Disableds, overridden: Disableds)
    returns (filtered: Disableds)
    requires Unique(req) && Collected(rx, cfg, heads, |heads|, req, overridden)
    ensures filtered == Filtered(rx, cfg, heads, req)
  {
    RemoveInFilters(req, overridden);
    var left := RemoveIn(req, overridden);
    filtered := FilterConditionalClashes(rx, cfg, left);
    FilterTwice(req, KeyNotIn(overridden), ClashFree(rx, cfg));
    forall e | e in req ensures Both(KeyNotIn(overridden), ClashFree(rx, cfg))(e) == PassesEntry(rx, cfg, heads)(e) {
      var i :| 0 <= i < |req| && req[i] == e;
      assert Keys(req)[i] == e.0;
    }
    FilterSame(req, Both(KeyNotIn(overridden), ClashFree(rx, cfg)), PassesEntry(rx, cfg, heads));
  }

  function ClashFree(rx: Regex, cfg: Disableds): ((string, seq<Condition>)) -> bool {
    (e: (string, seq<Condition>)) => !Clashes(rx, cfg, e.0)
  }

  /** cfg_disabled_filter_conditional_clashes */
  method FilterConditionalClashes(rx: Regex, cfg: Disableds, req: Disableds) returns (filtered: Disableds)
    ensures filtered == Filter(req, ClashFree(rx, cfg))
  {
    filtered := [];
    for i := 0 to |req|
      invariant filtered == Filter(req[..i], ClashFree(rx, cfg))
    {
      FilterSnoc(req, i, ClashFree(rx, cfg));
      var clashing := false;
      for j := 0 to |cfg|
        invariant clashing <==> exists k | 0 <= k < j :: Clash(rx, cfg[k].0, cfg[k].1, req[i].0)
      {
        if Clash(rx, cfg[j].0, cfg[j].1, req[i].0) {
          clashing := true;
        }
      }
      if !clashing {
        filtered := filtered + [req[i]];
      }
    }
    assert req[..|req|] == req;
  }
}
