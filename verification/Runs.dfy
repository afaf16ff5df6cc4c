/**
 Safety over whole runs: whatever the compositor, the user and the hardware do between calls of
 act(), in any order.
 */
module Runs {
  import opened Seqs
  import opened OrderedMap
  import opened Names
  import opened Modes
  import opened Reconcile
  import opened Heads
  import FixedPoint

  datatype Event =
    | ActNow
    | Answer(answer: DisplState)
    | CurrentState(head: nat, cur: HeadState)
    | Advertised(head: nat, zmode: ZMode, mode: Mode)
    | Finished(head: nat, zmode: ZMode)
    | PreferredMode(head: nat, zmode: ZMode)
    | Arrived(name: Name, widthMm: int, heightMm: int, state: HeadState)
    | ReapplyAll
    | OverrideSet(head: nat, override: Override)
    | Environment(env: Env)

  /**
   What has happened to the modes of a head: those advertised and not forgotten, with their values;
   of these, the ones withdrawn while set aside; and those that failed since the last reapply.
   */
  datatype Book = Book(known: map<ZMode, Mode>, withdrawn: set<ZMode>, refused: set<ZMode>)

  const EMPTY_BOOK: Book := Book(map[], {}, {})

  /**
   The displays and the environment, with a record of the run: unanswered configurations, the latest
   one, a book for each head, and how often a cancelled one was sent again since the last success.
   */
  datatype World = World(env: Env, sys: Sys, inFlight: seq<Request>, last: Option<Request>, books: seq<Book>, resent: nat)

  function Start(env: Env): World {
    World(env, Sys([], Idle, NO_DELTA, 0, false), [], None, [], 0)
  }

  // -------- one event --------

  /** When an event can happen: the compositor answers what was sent and its mode objects are fresh. */
  predicate Enabled(w: World, e: Event) {
    && !w.sys.exited && |w.books| == |w.sys.heads|
    && match e
       case Answer(answer) => w.inFlight != [] && (answer == Succeeded || answer == Failed || answer == Cancelled)
       case CurrentState(i, _) => i < |w.sys.heads|
       case Advertised(i, z, _) => i < |w.sys.heads| && z !in w.books[i].known && z !in w.books[i].refused
       case Finished(i, z) => i < |w.sys.heads| && z in w.books[i].known && z !in w.books[i].withdrawn
       case PreferredMode(i, _) => i < |w.sys.heads|
       case OverrideSet(i, _) => i < |w.sys.heads|
       case _ => true
  }

  function WithHead(s: Sys, i: nat, h: HeadView): Sys
    requires i < |s.heads|
  {
    s.(heads := s.heads[i := h])
  }

  /** A mode that failed is crossed off when act() deals with the answer. */
  function Refuse(w: World): seq<Book> {
    if w.sys.state == Failed && w.last.Some? && w.last.value.SetMode? && w.last.value.zmode.Some?
       && w.last.value.head < |w.books|
    then
      var (i, z) := (w.last.value.head, w.last.value.zmode.value);
      w.books[i := w.books[i].(refused := w.books[i].refused + {z})]
    else w.books
  }

  function Acted(w: World): World {
    var (s, request) := Act(w.env, w.sys);
    w.(sys := s,
       inFlight := w.inFlight + if request.Some? then [request.value] else [],
       last := if request.Some? then request else w.last,
       books := Refuse(w),
       resent := if w.sys.state == Succeeded then 0
                 else if w.sys.state == Cancelled && request.Some? then w.resent + 1
                 else w.resent)
  }

  function ReapplyEach(heads: seq<HeadView>): (rs: seq<HeadView>)
    ensures |rs| == |heads| && forall i | 0 <= i < |heads| :: rs[i] == Reapplied(heads[i])
  {
    seq(|heads|, i requires 0 <= i < |heads| => Reapplied(heads[i]))
  }

  function NoneRefused(books: seq<Book>): (bs: seq<Book>)
    ensures |bs| == |books| && forall i | 0 <= i < |books| :: bs[i] == books[i].(refused := {})
  {
    seq(|books|, i requires 0 <= i < |books| => books[i].(refused := {}))
  }

  function After(w: World, e: Event): World
    requires Enabled(w, e)
  {
    var (s, hs) := (w.sys, w.sys.heads);
    match e
    case ActNow => Acted(w)
    case Answer(answer) => w.(sys := s.(state := answer), inFlight := w.inFlight[1..])
    case CurrentState(i, cur) => w.(sys := WithHead(s, i, hs[i].(cur := cur)))
    case Advertised(i, z, mode) =>
      w.(sys := WithHead(s, i, hs[i].(modes := Put(hs[i].modes, z, mode))),
         books := w.books[i := w.books[i].(known := w.books[i].known[z := mode])])
    case Finished(i, z) =>
      var b := w.books[i];
      w.(sys := WithHead(s, i, Release(hs[i], z)),
         books := w.books[i := if Has(hs[i].modesFailed, z) then b.(withdrawn := b.withdrawn + {z})
                               else b.(known := b.known - {z})])
    case PreferredMode(i, z) => w.(sys := WithHead(s, i, Prefer(hs[i], z)))
    case Arrived(name, width, height, state) =>
      w.(sys := s.(heads := hs + [NewHead(name, width, height, state)]), books := w.books + [EMPTY_BOOK])
    case ReapplyAll => w.(sys := s.(heads := ReapplyEach(hs)), books := NoneRefused(w.books))
    case OverrideSet(i, override) => w.(sys := WithHead(s, i, hs[i].(override := override)))
    case Environment(env) => w.(env := env)
  }

  /** The events es can happen, one after the other, from w, and lead to v. */
  ghost predicate Leads(w: World, es: seq<Event>, v: World)
    decreases |es|
  {
    if es == [] then v == w else Enabled(w, es[0]) && Leads(After(w, es[0]), es[1..], v)
  }

  // -------- the invariant --------

  /** Every known mode is kept in exactly one place, with its value; no other is; no refused one is available. */
  ghost predicate Booked(h: HeadView, b: Book) {
    && ModesApart(h) && b.withdrawn <= b.known.Keys
    && (forall z | z in b.known :: KeptMode(h, z) == Some(b.known[z]))
    && (forall z | Has(h.modes, z) || Has(h.modesFailed, z) :: z in b.known)
    && (forall z | z in b.refused :: !Has(h.modes, z))
  }

  function DeltaOf(request: Request): Delta {
    match request
    case Disable(i) => Delta(Many, Some(i), None)
    case SetMode(i, zmode) => Delta(ModeElement, Some(i), zmode)
    case SetVrr(i, _) => Delta(VrrElement, Some(i), None)
    case Arrange(_) => NO_DELTA
  }

  /** What the delta says is what the latest request asked for. */
  predicate DeltaFits(s: Sys, last: Option<Request>) {
    && last.Some? && s.delta == DeltaOf(last.value)
    && (s.delta.head.Some? ==> s.delta.head.value < |s.heads|)
  }

  ghost predicate AllBooked(heads: seq<HeadView>, books: seq<Book>) {
    |books| == |heads| && forall i | 0 <= i < |heads| :: Booked(heads[i], books[i])
  }

  ghost predicate InStep(w: World) {
    && (w.inFlight == [] <==> w.sys.state != Outstanding)
    && (w.sys.state == Outstanding ==> w.last == Some(w.inFlight[0]) && |w.inFlight| == 1)
    && (w.sys.state != Idle ==> DeltaFits(w.sys, w.last))
  }

  ghost predicate Safe(w: World) {
    && AllBooked(w.sys.heads, w.books)
    && (!w.sys.exited ==> InStep(w))
    && w.resent <= w.sys.retries && w.resent <= MAX_CANCELLATION_RETRIES
  }

  // -------- act() keeps it --------

  lemma DesireKeepsModes(env: Env, heads: seq<HeadView>, i: nat)
    requires i < |heads|
    ensures SameHead(Desire(env, heads)[i], heads[i])
  {
    FixedPoint.DesireIs(env, heads, i);
    DesireHeadIs(env, NamesOf(heads), heads[i]);
  }

  lemma SameBooked(d: HeadView, h: HeadView, b: Book)
    requires Booked(h, b) && d.modes == h.modes && d.modesFailed == h.modesFailed
    ensures Booked(d, b)
  {
  }

  lemma FailureBooked(h: HeadView, b: Book, z: ZMode)
    requires Booked(h, b)
    ensures Booked(MoveToFailed(h, Some(z)), b.(refused := b.refused + {z}))
  {
    var f := MoveToFailed(h, Some(z));
    FailureKeeps(h, z, z);
    forall q ensures KeptMode(f, q) == KeptMode(h, q) && Has(f.modes, q) == (Has(h.modes, q) && q != z) {
      FailureKeeps(h, z, q);
    }
  }

  /** Dealing with the answer keeps the modes that it does not move aside. */
  lemma HandledBooked(w: World)
    requires Safe(w) && !w.sys.exited
    ensures AllBooked(Handled(w.sys).0.heads, Refuse(w))
  {
    var s, u := w.sys, Handled(w.sys).0;
    if s.state == Failed && w.last.value.SetMode? {
      var i := w.last.value.head;
      assert u.heads == s.heads[i := MoveToFailed(s.heads[i], w.last.value.zmode)];
      if w.last.value.zmode.Some? {
        FailureBooked(s.heads[i], w.books[i], w.last.value.zmode.value);
      }
    } else {
      HandledOtherwise(s, w.last);
      forall i | 0 <= i < |s.heads| ensures Booked(u.heads[i], w.books[i]) {
        SameBooked(u.heads[i], s.heads[i], w.books[i]);
      }
    }
  }

  lemma HandledOtherwise(s: Sys, last: Option<Request>)
    requires s.state == Failed ==> DeltaFits(s, last) && !last.value.SetMode?
    ensures |Handled(s).0.heads| == |s.heads|
    ensures forall i | 0 <= i < |s.heads| ::
      Handled(s).0.heads[i].modes == s.heads[i].modes && Handled(s).0.heads[i].modesFailed == s.heads[i].modesFailed
  {
  }

  /** What act_apply sends fits the delta, and it never touches the modes. */
  lemma ApplyFits(s: Sys)
    ensures var (sent, request) := Apply(s);
      && |sent.heads| == |s.heads| && sent.retries == s.retries && sent.exited == s.exited
      && (forall i | 0 <= i < |s.heads| ::
            sent.heads[i] == s.heads[i].(reapply := sent.heads[i].reapply))
      && (request.Some? ==> sent.state == Outstanding && DeltaFits(sent, request))
      && (request.None? ==> sent.state == s.state && sent.heads == s.heads)
  {
  }

  lemma ActBooked(w: World)
    requires Safe(w) && !w.sys.exited
    ensures AllBooked(Acted(w).sys.heads, Acted(w).books)
  {
    hide Desire, Apply, Handled, Refuse, Booked;
    HandledBooked(w);
    var (handled, goOn) := Handled(w.sys);
    if goOn {
      var asked := handled.(heads := Desire(w.env, handled.heads));
      ApplyFits(asked);
      var sent := Apply(asked).0;
      assert Acted(w).sys == sent;
      forall i | 0 <= i < |sent.heads| ensures Booked(sent.heads[i], Refuse(w)[i]) {
        DesireKeepsModes(w.env, handled.heads, i);
        SameBooked(sent.heads[i], handled.heads[i], Refuse(w)[i]);
      }
    }
  }

  lemma HandledStep(s: Sys)
    requires !s.exited
    ensures var (u, goOn) := Handled(s);
      && (!u.exited && s.state != Outstanding ==> u.state == Idle)
      && (u.exited ==> s.state == Failed && !goOn)
      && (s.state == Outstanding ==> u == s && !goOn)
      && u.retries == (if s.state == Succeeded then 0 else if s.state == Cancelled then s.retries + 1 else s.retries)
      && (s.state == Cancelled && goOn ==> u.retries <= MAX_CANCELLATION_RETRIES)
  {
  }

  lemma ActInStep(w: World)
    requires Safe(w) && !w.sys.exited
    ensures Safe(Acted(w))
  {
    hide Desire, Apply, Handled, Refuse, AllBooked, DeltaFits;
    ActBooked(w);
    var (handled, goOn) := Handled(w.sys);
    HandledStep(w.sys);
    if goOn {
      var asked, v := handled.(heads := Desire(w.env, handled.heads)), Acted(w);
      ApplyFits(asked);
      assert Act(w.env, w.sys) == Apply(asked);
      assert v.inFlight != [] ==> v.last == Some(v.inFlight[0]) && |v.inFlight| == 1;
      assert v.sys.state != Idle ==> DeltaFits(v.sys, v.last);
    }
  }

  // -------- the other events keep it --------

  lemma AdvertisedBooked(h: HeadView, b: Book, z: ZMode, mode: Mode)
    requires Booked(h, b) && z !in b.known && z !in b.refused
    ensures Booked(h.(modes := Put(h.modes, z, mode)), b.(known := b.known[z := mode]))
  {
    var a := h.(modes := Put(h.modes, z, mode));
    PutKeys(h.modes, z, mode);
    forall q ensures Get(a.modes, q) == if q == z then Some(mode) else Get(h.modes, q) {
      PutGet(h.modes, z, mode, q);
    }
    assert forall q :: Has(a.modes, q) <==> q == z || Has(h.modes, q);
  }

  lemma FinishedBooked(h: HeadView, b: Book, z: ZMode)
    requires Booked(h, b) && z in b.known
    ensures Booked(Release(h, z),
      if Has(h.modesFailed, z) then b.(withdrawn := b.withdrawn + {z})
      else b.(known := b.known - {z}, withdrawn := b.withdrawn - {z}))
  {
    var r := Release(h, z);
    ReleaseKeeps(h, z, z);
    forall q ensures Has(r.modes, q) == (q != z && Has(h.modes, q)) {
      ReleaseKeeps(h, z, q);
    }
    forall q | q != z || Has(h.modesFailed, z) ensures KeptMode(r, q) == KeptMode(h, q) {
      ReleaseKeeps(h, z, q);
    }
  }

  lemma ReappliedBooked(h: HeadView, b: Book)
    requires Booked(h, b)
    ensures Booked(Reapplied(h), b.(refused := {}))
  {
    hide Reapplied;
    var r := Reapplied(h);
    ReapplyRestores(h, 0);
    forall q ensures KeptMode(r, q) == KeptMode(h, q) && (Has(r.modes, q) ==> Has(h.modes, q) || Has(h.modesFailed, q)) {
      ReapplyRestores(h, q);
    }
  }

  /** An event for one head keeps the books when it keeps the book of that head. */
  lemma OneBooked(heads: seq<HeadView>, books: seq<Book>, i: nat, h: HeadView, b: Book)
    requires AllBooked(heads, books) && i < |heads| && Booked(h, b)
    ensures AllBooked(heads[i := h], books[i := b])
  {
  }

  lemma EventBooked(w: World, e: Event)
    requires Safe(w) && Enabled(w, e) && !e.ActNow?
    ensures AllBooked(After(w, e).sys.heads, After(w, e).books)
  {
    hide Booked;
    var hs := w.sys.heads;
    match e
    case CurrentState(i, cur) =>
      SameBooked(hs[i].(cur := cur), hs[i], w.books[i]);
      OneBooked(hs, w.books, i, hs[i].(cur := cur), w.books[i]);
    case Advertised(i, z, mode) =>
      AdvertisedBooked(hs[i], w.books[i], z, mode);
      OneBooked(hs, w.books, i, After(w, e).sys.heads[i], After(w, e).books[i]);
    case Finished(i, z) =>
      FinishedBooked(hs[i], w.books[i], z);
      assert w.books[i].withdrawn - {z} == w.books[i].withdrawn;
      OneBooked(hs, w.books, i, After(w, e).sys.heads[i], After(w, e).books[i]);
    case PreferredMode(i, z) =>
      SameBooked(Prefer(hs[i], z), hs[i], w.books[i]);
      OneBooked(hs, w.books, i, Prefer(hs[i], z), w.books[i]);
    case Arrived(name, width, height, state) =>
      NewBooked(NewHead(name, width, height, state));
    case ReapplyAll =>
      forall i | 0 <= i < |hs| ensures Booked(ReapplyEach(hs)[i], NoneRefused(w.books)[i]) {
        ReappliedBooked(hs[i], w.books[i]);
      }
    case OverrideSet(i, override) =>
      SameBooked(hs[i].(override := override), hs[i], w.books[i]);
      OneBooked(hs, w.books, i, hs[i].(override := override), w.books[i]);
    case _ =>
  }

  lemma NewBooked(h: HeadView)
    requires h.modes == [] && h.modesFailed == []
    ensures Booked(h, EMPTY_BOOK)
  {
  }

  lemma EventInStep(w: World, e: Event)
    requires Safe(w) && Enabled(w, e)
    ensures Safe(After(w, e))
  {
    if e.ActNow? {
      ActInStep(w);
    } else {
      EventBooked(w, e);
      hide AllBooked, Release, Prefer;
    }
  }

  // -------- whole runs --------

  /** Main result: the invariant holds after every run. */
  lemma {:induction false} AlwaysSafe(w: World, es: seq<Event>, v: World)
    requires Safe(w) && Leads(w, es, v)
    ensures Safe(v)
    decreases |es|
  {
    hide Safe, Enabled, After;
    if es != [] {
      EventInStep(w, es[0]);
      AlwaysSafe(After(w, es[0]), es[1..], v);
    }
  }
}
