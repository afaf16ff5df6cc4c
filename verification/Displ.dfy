/** The displays as the program holds them: act() and desire(), in place on the objects. */
module Displs {
  import opened Seqs
  import opened OrderedMap
  import opened Names
  import opened Modes
  import opened Config
  import opened Reconcile
  import opened Heads
  import opened HeadObjects
  import Merge
  import Ipc
  import Layout
  import Order

  function ViewsOf(heads: seq<Head>): (vs: seq<HeadView>)
    reads heads
    ensures |vs| == |heads| && forall i | 0 <= i < |heads| :: vs[i] == heads[i].View()
  {
    seq(|heads|, i requires 0 <= i < |heads| reads heads => heads[i].View())
  }

  class Displ {
    var heads: seq<Head>
    var state: DisplState
    var deltaElement: Element
    var deltaHead: Head?
    var deltaZmode: Option<ZMode>
    var cancellationRetries: nat
    var exited: bool

    /** Every head is an object of its own, and the delta is of one of them. */
    ghost predicate Valid()
      reads this
    {
      Distinct(heads) && (deltaHead != null ==> deltaHead in heads)
    }

    function DeltaView(): Delta
      reads this
    {
      Delta(deltaElement, if deltaHead == null then None else Some(PlaceIn(heads, deltaHead)), deltaZmode)
    }

    function View(): Sys
      reads this, heads
    {
      Sys(ViewsOf(heads), state, DeltaView(), cancellationRetries, exited)
    }

    constructor ()
      ensures Valid() && View() == Sys([], Idle, NO_DELTA, 0, false)
    {
      heads, state := [], Idle;
      deltaElement, deltaHead, deltaZmode := Many, null, None;
      cancellationRetries, exited := 0, false;
    }

    // -------- delta --------

    method DeltaDestroy()
      modifies this`deltaElement, this`deltaHead, this`deltaZmode
      ensures Distinct(heads) ==> Valid() && View() == old(View()).(delta := NO_DELTA)
    {
      deltaElement, deltaHead, deltaZmode := Many, null, None;
    }

    method DeltaInit(element: Element, head: Head?, zmode: Option<ZMode>)
      requires Valid() && (head != null ==> head in heads)
      modifies this`deltaElement, this`deltaHead, this`deltaZmode
      ensures Valid()
      ensures View() == old(View()).(delta := Delta(element, if head == null then None else Some(PlaceIn(heads, head)), zmode))
    {
      DeltaDestroy();
      deltaElement, deltaHead, deltaZmode := element, head, zmode;
    }

    // -------- answers --------

    /** Changing one head in place changes its place in the view, and no other. */
    twostate lemma OneChanged(h: Head)
      requires old(Distinct(heads)) && heads == old(heads) && h in heads
      requires forall i | 0 <= i < |heads| && heads[i] != h :: heads[i].View() == old(heads[i].View())
      ensures ViewsOf(heads) == old(ViewsOf(heads))[PlaceIn(heads, h) := h.View()]
    {
    }

    method HandleFailure()
      requires Valid()
      modifies this, heads
      ensures Valid() && heads == old(heads) && View() == Reconcile.HandleFailure(old(View()))
    {
      match deltaElement {
        case ModeElement =>
          if deltaHead != null {
            deltaHead.ModeFailed(deltaZmode);
            OneChanged(deltaHead);
          }
        case VrrElement =>
          if deltaHead != null {
            if VrrDiffers(deltaHead.View()) {
              deltaHead.vrrFailed := true;
              OneChanged(deltaHead);
            }
          }
        case Many =>
          exited := true;
      }
      DeltaDestroy();
    }

    method HandleSuccess()
      requires Valid()
      modifies this, heads
      ensures Valid() && heads == old(heads) && View() == Reconcile.HandleSuccess(old(View()))
    {
      cancellationRetries := 0;
      var head := deltaHead;
      if head != null {
        match deltaElement {
          case ModeElement =>
            head.cur := head.cur.(zmode := deltaZmode);
            OneChanged(head);
          case VrrElement =>
            if VrrDiffers(head.View()) {
              HandleFailure();
              return;
            }
          case Many =>
        }
      }
      DeltaDestroy();
    }

    method HandleCancelled() returns (retry: bool)
      modifies this`cancellationRetries
      ensures View() == old(View()).(retries := old(View()).retries + 1)
      ensures retry == (cancellationRetries <= MAX_CANCELLATION_RETRIES)
    {
      cancellationRetries := cancellationRetries + 1;
      return cancellationRetries <= MAX_CANCELLATION_RETRIES;
    }

    // -------- desire --------

    method NamesOfHeads() returns (names: seq<Name>)
      ensures names == NamesOf(ViewsOf(heads))
    {
      names := [];
      for i := 0 to |heads|
        invariant |names| == i && forall j | 0 <= j < i :: names[j] == heads[j].name
      {
        names := names + [heads[i].name];
      }
    }

    /** The first loop of desire(). */
    method DesireHeads(env: Env, names: seq<Name>)
      requires Distinct(heads)
      modifies heads
      ensures ViewsOf(heads) == DesireEach(env, names, old(ViewsOf(heads)))
    {
      hide DesireHead;
      for i := 0 to |heads|
        invariant forall j | 0 <= j < i :: heads[j].View() == DesireHead(env, names, old(heads[j].View()))
        invariant forall j | i <= j < |heads| :: heads[j].View() == old(heads[j].View())
      {
        heads[i].DesireAll(env, names);
      }
      assert ViewsOf(heads) == DesireEach(env, names, old(ViewsOf(heads)));
    }

    /** The first loop of desire_positions. */
    method TallestWidest(ordered: seq<int>) returns (tallest: int, widest: int)
      requires forall k | 0 <= k < |ordered| :: 0 <= ordered[k] < |heads|
      ensures tallest == Layout.Extent(Layout.Row, Boxes(ViewsOf(heads), ordered))
      ensures widest == Layout.Extent(Layout.Col, Boxes(ViewsOf(heads), ordered))
    {
      tallest, widest := 0, 0;
      ghost var boxes := Boxes(ViewsOf(heads), ordered);
      for k := 0 to |ordered|
        invariant tallest == Layout.Extent(Layout.Row, boxes[..k])
        invariant widest == Layout.Extent(Layout.Col, boxes[..k])
      {
        var head := heads[ordered[k]];
        assert boxes[..k + 1][..k] == boxes[..k] && boxes[k] == BoxOf(head.View());
        if head.des.zmode.None? || !head.des.enabled {
          continue;
        }
        if head.scaledHeight > tallest {
          tallest := head.scaledHeight;
        }
        if head.scaledWidth > widest {
          widest := head.scaledWidth;
        }
      }
      assert boxes[..|ordered|] == boxes;
    }

    /** What the second loop of desire_positions has done once it has come to k. */
    ghost predicate PlacedUpTo(c: Cfg, before: seq<HeadView>, ordered: seq<int>, k: nat)
      reads this, heads
    {
      && |before| == |heads|
      && forall j | 0 <= j < |heads| ::
           heads[j].View() ==
             if PlaceIn(ordered, j) < k then Placed(c, before[j], Boxes(before, ordered), PlaceIn(ordered, j))
             else before[j]
    }

    /** The second loop of desire_positions: x and y run along the displays. */
    method ArrangeInOrder(c: Cfg, ordered: seq<int>, tallest: int, widest: int)
      requires Distinct(heads) && Distinct(ordered) && forall k | 0 <= k < |ordered| :: 0 <= ordered[k] < |heads|
      requires tallest == Layout.Extent(Layout.Row, Boxes(ViewsOf(heads), ordered))
      requires widest == Layout.Extent(Layout.Col, Boxes(ViewsOf(heads), ordered))
      modifies heads
      ensures PlacedUpTo(c, old(ViewsOf(heads)), ordered, |ordered|)
    {
      var x, y := 0, 0;
      ghost var before := ViewsOf(heads);
      ghost var boxes := Boxes(before, ordered);
      for k := 0 to |ordered|
        invariant PlacedUpTo(c, before, ordered, k)
        invariant ArrangeOf(c) == Layout.Row ==> x == Layout.Start(Layout.Row, boxes, k)
        invariant ArrangeOf(c) == Layout.Col ==> y == Layout.Start(Layout.Col, boxes, k)
      {
        x, y := PlaceOne(c, before, boxes, ordered, k, x, y, tallest, widest);
      }
    }

    /** The body of that loop. */
    method PlaceOne(c: Cfg, ghost before: seq<HeadView>, ghost boxes: seq<Layout.Box>, ordered: seq<int>, k: nat,
        x: int, y: int, tallest: int, widest: int)
      returns (nextX: int, nextY: int)
      requires Distinct(heads) && Distinct(ordered) && k < |ordered| && 0 <= ordered[k] < |heads|
      requires PlacedUpTo(c, before, ordered, k)
      requires boxes == Boxes(before, ordered)
      requires tallest == Layout.Extent(Layout.Row, boxes) && widest == Layout.Extent(Layout.Col, boxes)
      requires ArrangeOf(c) == Layout.Row ==> x == Layout.Start(Layout.Row, boxes, k)
      requires ArrangeOf(c) == Layout.Col ==> y == Layout.Start(Layout.Col, boxes, k)
      modifies heads
      ensures PlacedUpTo(c, before, ordered, k + 1)
      ensures ArrangeOf(c) == Layout.Row ==> nextX == Layout.Start(Layout.Row, boxes, k + 1)
      ensures ArrangeOf(c) == Layout.Col ==> nextY == Layout.Start(Layout.Col, boxes, k + 1)
    {
      hide Layout.Position, Layout.Extent, Spot;
      var head := heads[ordered[k]];
      PlaceInAt(ordered, k);
      assert head.View() == before[ordered[k]] && boxes[k] == BoxOf(head.View());
      nextX, nextY := x, y;
      if head.des.zmode.Some? && head.des.enabled {
        SpotIsPosition(c, boxes, k, x, y, tallest, widest);
        nextX, nextY := head.PlaceAt(c, x, y, tallest, widest);
      }
    }

    method DesirePositions(c: Cfg, ordered: seq<int>)
      requires Distinct(heads) && Distinct(ordered) && forall k | 0 <= k < |ordered| :: 0 <= ordered[k] < |heads|
      modifies heads
      ensures ViewsOf(heads) == PlaceEach(c, old(ViewsOf(heads)), ordered)
    {
      hide Placed, Boxes;
      var tallest, widest := TallestWidest(ordered);
      ArrangeInOrder(c, ordered, tallest, widest);
      ghost var before, after := old(ViewsOf(heads)), ViewsOf(heads);
      forall j | 0 <= j < |heads| ensures after[j] == PlaceEach(c, before, ordered)[j] {
        assert after[j] == heads[j].View();
        UnplacedStays(c, before[j], Boxes(before, ordered));
      }
    }

    /** desire(): one pass over the heads, the order, and the positions. */
    method Desire(env: Env)
      requires Valid()
      modifies heads
      ensures View() == old(View()).(heads := Reconcile.Desire(env, old(View()).heads))
    {
      hide DesireEach, PlaceEach, Order.Ordered;
      var names := NamesOfHeads();
      DesireHeads(env, names);
      var ordered := Order.DesireOrder(env.rx, env.cfg.order, names);
      OrderFits(env, names);
      DesirePositions(env.cfg, ordered);
    }

    // -------- act --------

    /** These are the places of the heads that are not as desired, in order. */
    ghost predicate AreChanging(changing: seq<nat>)
      reads this, heads
    {
      && (forall k | 0 <= k < |changing| :: changing[k] < |heads| && Differs(heads[changing[k]].View()))
      && (forall j: nat | j < |heads| && Differs(heads[j].View()) :: j in changing)
      && (forall k, l | 0 <= k < l < |changing| :: changing[k] < changing[l])
      && ItemsOf(ViewsOf(heads), changing) == Items(ViewsOf(heads), |heads|)
    }

    method HeadsChanging() returns (changing: seq<nat>)
      ensures AreChanging(changing)
    {
      changing := [];
      ghost var views := ViewsOf(heads);
      for i := 0 to |heads|
        invariant forall k | 0 <= k < |changing| :: changing[k] < i && Differs(heads[changing[k]].View())
        invariant forall j: nat | j < i && Differs(heads[j].View()) :: j in changing
        invariant forall k, l | 0 <= k < l < |changing| :: changing[k] < changing[l]
        invariant ItemsOf(views, changing) == Items(views, i)
      {
        if Differs(heads[i].View()) {
          ItemsOfSnoc(views, changing, i);
          changing := changing + [i];
        }
      }
    }

    /** ppmap_find among the changing heads. */
    method FindChanging(changing: seq<nat>, pass: HeadView -> bool) returns (place: nat)
      requires AreChanging(changing) && forall h | pass(h) :: Differs(h)
      ensures place == First(ViewsOf(heads), pass)
    {
      ghost var views := ViewsOf(heads);
      place := |heads|;
      for k := 0 to |changing|
        invariant place == |heads|
        invariant forall l | 0 <= l < k :: !pass(heads[changing[l]].View())
      {
        if pass(heads[changing[k]].View()) {
          place := changing[k];
          FirstIs(views, pass, place);
          return;
        }
      }
      FirstIs(views, pass, place);
    }

    /** 1: a head that is to be reapplied is disabled first. */
    method ApplyReapply(place: nat) returns (request: Request)
      requires Valid() && place < |heads|
      modifies this`state, this`deltaElement, this`deltaHead, this`deltaZmode, heads[place]
      ensures Valid() && state == Outstanding && DeltaView() == Delta(Many, Some(place), None)
      ensures ViewsOf(heads) == old(ViewsOf(heads))[place := old(heads[place].View()).(reapply := false)]
      ensures request == Disable(place)
    {
      hide ViewsOf;
      var head := heads[place];
      PlaceInAt(heads, place);
      head.reapply := false;
      OneChanged(head);
      DeltaInit(Many, head, None);
      state := Outstanding;
      request := Disable(place);
    }

    /** 2: a mode change is in its own operation. */
    method ApplyMode(place: nat) returns (request: Request)
      requires Valid() && place < |heads|
      modifies this`state, this`deltaElement, this`deltaHead, this`deltaZmode
      ensures Valid() && state == Outstanding && DeltaView() == Delta(ModeElement, Some(place), heads[place].des.zmode)
      ensures request == SetMode(place, heads[place].des.zmode)
    {
      PlaceInAt(heads, place);
      DeltaInit(ModeElement, heads[place], heads[place].des.zmode);
      state := Outstanding;
      request := SetMode(place, heads[place].des.zmode);
    }

    /** 3: so is a VRR change. */
    method ApplyVrr(place: nat) returns (request: Request)
      requires Valid() && place < |heads|
      modifies this`state, this`deltaElement, this`deltaHead, this`deltaZmode
      ensures Valid() && state == Outstanding && DeltaView() == Delta(VrrElement, Some(place), None)
      ensures request == SetVrr(place, heads[place].des.vrr)
    {
      PlaceInAt(heads, place);
      DeltaInit(VrrElement, heads[place], None);
      state := Outstanding;
      request := SetVrr(place, heads[place].des.vrr);
    }

    /** Otherwise everything else, at once. */
    method ApplyAll(changing: seq<nat>) returns (request: Request)
      requires Valid() && AreChanging(changing)
      modifies this`state, this`deltaElement, this`deltaHead, this`deltaZmode
      ensures Valid() && state == Outstanding && DeltaView() == NO_DELTA
      ensures request == Arrange(Items(ViewsOf(heads), |heads|))
    {
      DeltaInit(Many, null, None);
      var items: seq<Item> := [];
      for k := 0 to |changing|
        invariant |items| == k
        invariant forall l | 0 <= l < k :: items[l] == ItemFor(heads[changing[l]].View(), changing[l])
      {
        var des := heads[changing[k]].des;
        if des.enabled {
          items := items + [EnableItem(changing[k], des.scale, des.x, des.y, des.transform)];
        } else {
          items := items + [DisableItem(changing[k])];
        }
      }
      assert items == ItemsOf(ViewsOf(heads), changing);
      state := Outstanding;
      request := Arrange(items);
    }

    /** 3 or later. */
    method ApplyNoMode(changing: seq<nat>) returns (request: Request)
      requires Valid() && AreChanging(changing)
      requires First(ViewsOf(heads), NeedsReapply) == |heads| && First(ViewsOf(heads), ModeDiffers) == |heads|
      modifies this`state, this`deltaElement, this`deltaHead, this`deltaZmode
      ensures Valid() && state == Outstanding
      ensures (ViewsOf(heads), DeltaView(), request) == Change(ViewsOf(heads))
    {
      hide AreChanging(), First, Items;
      var place := FindChanging(changing, VrrDiffers);
      if place < |heads| {
        request := ApplyVrr(place);
        return;
      }
      request := ApplyAll(changing);
    }

    /** 2 or later. */
    method ApplyNoReapply(changing: seq<nat>) returns (request: Request)
      requires Valid() && AreChanging(changing) && First(ViewsOf(heads), NeedsReapply) == |heads|
      modifies this`state, this`deltaElement, this`deltaHead, this`deltaZmode
      ensures Valid() && state == Outstanding
      ensures (ViewsOf(heads), DeltaView(), request) == Change(ViewsOf(heads))
    {
      hide AreChanging(), First, Items;
      var place := FindChanging(changing, ModeDiffers);
      if place < |heads| {
        request := ApplyMode(place);
        return;
      }
      request := ApplyNoMode(changing);
    }

    /** The cases of act_apply. */
    method ApplyChange(changing: seq<nat>) returns (request: Request)
      requires Valid() && AreChanging(changing)
      modifies this`state, this`deltaElement, this`deltaHead, this`deltaZmode, heads
      ensures Valid() && state == Outstanding
      ensures (ViewsOf(heads), DeltaView(), request) == Change(old(ViewsOf(heads)))
    {
      hide AreChanging(), First, Items;
      var place := FindChanging(changing, NeedsReapply);
      if place < |heads| {
        request := ApplyReapply(place);
        return;
      }
      request := ApplyNoReapply(changing);
    }

    /** act_apply: what is sent to the compositor, if anything. */
    method ActApply() returns (request: Option<Request>)
      requires Valid()
      modifies this`state, this`deltaElement, this`deltaHead, this`deltaZmode, heads
      ensures Valid() && (View(), request) == Apply(old(View()))
    {
      hide Change, First, AreChanging();
      DeltaDestroy();
      var changing := HeadsChanging();
      NothingChanges(changing);
      if |changing| == 0 {
        return None;
      }
      var change := ApplyChange(changing);
      request := Some(change);
    }

    lemma NothingChanges(changing: seq<nat>)
      requires AreChanging(changing)
      ensures changing == [] <==> First(ViewsOf(heads), Differs) == |heads|
    {
      if changing != [] {
        assert Differs(ViewsOf(heads)[changing[0]]);
      }
    }

    /** The start of act(): deals with the answer, and decides whether to go on. */
    method HandleAnswer() returns (goOn: bool)
      requires Valid()
      modifies this, heads
      ensures Valid() && heads == old(heads) && (View(), goOn) == Handled(old(View()))
    {
      hide Reconcile.HandleSuccess, Reconcile.HandleFailure, ViewsOf;
      goOn := true;
      match state {
        case Succeeded =>
          HandleSuccess();
          state := Idle;
        case Outstanding =>
          goOn := false;
        case Failed =>
          HandleFailure();
          if exited {
            return false;
          }
          state := Idle;
        case Cancelled =>
          state := Idle;
          goOn := HandleCancelled();
        case Idle =>
      }
    }

    /** act(): what is sent to the compositor, if anything. */
    method Act(env: Env) returns (request: Option<Request>)
      requires Valid() && !exited
      modifies this, heads
      ensures Valid() && heads == old(heads)
      ensures (View(), request) == Reconcile.Act(env, old(View()))
    {
      hide Apply, Reconcile.Desire, Handled, ViewsOf;
      var goOn := HandleAnswer();
      if !goOn {
        return None;
      }
      Desire(env);
      request := ActApply();
    }

    // -------- events and requests --------

    /**
     One turn of the server loop: maybe an answer has come; then act(), and whether the client that waits is
     told that it is done.
     */
    method Turn(env: Env, answer: Option<DisplState>) returns (request: Option<Request>, done: bool)
      requires Valid() && !exited
      modifies this, heads
      ensures Valid() && heads == old(heads)
      ensures (View(), request) ==
        Reconcile.Act(env, if answer.Some? then old(View()).(state := answer.value) else old(View()))
      ensures done == (state == Idle)
    {
      hide Reconcile.Act;
      if answer.Some? {
        Cleanup(answer.value);
      }
      request := Act(env);
      done := state == Idle;
    }

    /** The answer to the outstanding configuration: succeeded, failed or cancelled. */
    method Cleanup(answer: DisplState)
      modifies this`state
      ensures View() == old(View()).(state := answer)
    {
      state := answer;
    }

    method HeadsReapply()
      requires Valid()
      modifies heads
      ensures forall i | 0 <= i < |heads| :: heads[i].View() == Reapplied(old(heads[i].View()))
    {
      for i := 0 to |heads|
        invariant forall j | 0 <= j < i :: heads[j].View() == Reapplied(old(heads[j].View()))
        invariant forall j | i <= j < |heads| :: heads[j].View() == old(heads[j].View())
      {
        hide Reapplied;
        heads[i].Reapply();
      }
    }

    /**
     ipc_request_filter: the heads that the request concerns are overridden, and the entries that did so
     are left out, together with those that clash with a conditional entry.
     */
    method IpcRequestFilter(env: Env, req: Ipc.Disableds, command: Merge.Command) returns (filtered: Ipc.Disableds)
      requires Valid() && Unique(req)
      modifies heads
      ensures forall i | 0 <= i < |heads| :: heads[i].View() == Requested(env, old(heads[i].View()), req, command)
      ensures filtered == Ipc.Filtered(env.rx, env.cfg.disableds, NamesOf(old(ViewsOf(heads))), req)
    {
      hide Requested, OverrideBy, Ipc.Collected;
      var names := NamesOfHeads();
      var overridden: Ipc.Disableds := [];
      Ipc.CollectedNone(env.rx, env.cfg.disableds, names, req);
      for i := 0 to |heads|
        invariant forall j | 0 <= j < i :: heads[j].View() == Requested(env, old(heads[j].View()), req, command)
        invariant forall j | i <= j < |heads| :: heads[j].View() == old(heads[j].View())
        invariant Ipc.Collected(env.rx, env.cfg.disableds, names, i, req, overridden)
      {
        var more := OverrideHead(env, heads[i], req, command);
        Ipc.CollectedStep(env.rx, env.cfg.disableds, names, i, req, overridden);
        overridden := PutAll(overridden, more);
      }
      filtered := Ipc.LeaveOut(env.rx, env.cfg.disableds, names, req, overridden);
    }

    /** head_override_ipc_disableds */
    method OverrideHead(env: Env, head: Head, req: Ipc.Disableds, command: Merge.Command) returns (overridden: Ipc.Disableds)
      requires Unique(req)
      modifies head`override
      ensures overridden == Ipc.Overridden(env.rx, env.cfg.disableds, old(head.name), req)
      ensures head.View() == Requested(env, old(head.View()), req, command)
    {
      hide OverrideBy;
      overridden := Ipc.HeadOverridden(env.rx, env.cfg.disableds, head.name, req);
      if |overridden| > 0 {
        head.OverrideDisableds(command);
      }
    }

    /** displ_add_head */
    method AddHead(name: Name, widthMm: int, heightMm: int, headState: HeadState) returns (head: Head)
      requires Valid()
      modifies this`heads
      ensures Valid() && fresh(head) && heads == old(heads) + [head]
      ensures View() == old(View()).(heads := old(View()).heads + [NewHead(name, widthMm, heightMm, headState)])
    {
      head := new Head(name, widthMm, heightMm, headState);
      heads := heads + [head];
      assert ViewsOf(heads) == old(ViewsOf(heads)) + [head.View()];
    }
  }

  /** A head that is not in the order stays where it is. */
  lemma UnplacedStays(c: Cfg, h: HeadView, boxes: seq<Layout.Box>)
    ensures Placed(c, h, boxes, |boxes|) == h
  {
  }

  lemma OrderFits(env: Env, names: seq<Name>)
    ensures Distinct(Order.Ordered(env.rx, env.cfg.order, names))
    ensures forall k | 0 <= k < |Order.Ordered(env.rx, env.cfg.order, names)| ::
      0 <= Order.Ordered(env.rx, env.cfg.order, names)[k] < |names|
  {
    Order.OrderedSorts(env.rx, env.cfg.order, names);
    var ordered := Order.Ordered(env.rx, env.cfg.order, names);
    assert forall k | 0 <= k < |ordered| :: ordered[k] in ordered;
  }

  /** The items for the heads at the given places. */
  function ItemsOf(views: seq<HeadView>, places: seq<nat>): seq<Item>
    requires forall k | 0 <= k < |places| :: places[k] < |views|
  {
    seq(|places|, k requires 0 <= k < |places| => ItemFor(views[places[k]], places[k]))
  }

  lemma ItemsOfSnoc(views: seq<HeadView>, places: seq<nat>, i: nat)
    requires i < |views| && forall k | 0 <= k < |places| :: places[k] < |views|
    ensures ItemsOf(views, places + [i]) == ItemsOf(views, places) + [ItemFor(views[i], i)]
  {
  }

  lemma FirstIs(views: seq<HeadView>, pass: HeadView -> bool, place: nat)
    requires place <= |views| && (place < |views| ==> pass(views[place])) && forall j | 0 <= j < place :: !pass(views[j])
    ensures First(views, pass) == place
  {
  }

  /** The accumulators of the loop are what the layout is made of. */
  lemma SpotIsPosition(c: Cfg, boxes: seq<Layout.Box>, k: nat, x: int, y: int, tallest: int, widest: int)
    requires k < |boxes|
    requires tallest == Layout.Extent(Layout.Row, boxes) && widest == Layout.Extent(Layout.Col, boxes)
    requires ArrangeOf(c) == Layout.Row ==> x == Layout.Start(Layout.Row, boxes, k)
    requires ArrangeOf(c) == Layout.Col ==> y == Layout.Start(Layout.Col, boxes, k)
    ensures Spot(c, x, y, tallest, widest, boxes[k].width, boxes[k].height) ==
            Layout.Position(ArrangeOf(c), AlignOf(c), boxes, k)
  {
  }
}
