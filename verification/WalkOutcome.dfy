/**
 Which pages a transfer carries, and which of them its last frame carries, in terms of the events and of the
 allocations that fail: a run of sendable pages goes out whole or not at all, with the flush that ends it.
 */
module WalkOutcome {
  import opened Basics
  import opened Bytes
  import opened Framing
  import opened PageWalk
  import opened Images
  import opened WalkBounds
  import opened WalkContent
  import opened WalkLosses
  import opened WalkRuns

  // ------------------------------------------------------------------------------------------
  // Which runs are missing
  // ------------------------------------------------------------------------------------------

  predicate SendableEntry(m: Machine, e: Event) { e.Entry? && m.Sendable(e.pte) }

  predicate SendsAt(m: Machine, events: seq<Event>, i: int)
  {
    0 <= i < |events| && SendableEntry(m, events[i])
  }

  /** A run does not reach callback i: it is not for a sendable page, or it is the one the walk is followed to. */
  predicate ClosesAt(m: Machine, events: seq<Event>, end: nat, i: int) { i == end || !SendsAt(m, events, i) }

  /** The callback that ends the run of callback i: the next one that is not for a sendable page, or `end`. */
  function Closer(m: Machine, events: seq<Event>, end: nat, i: nat): (c: nat)
    requires i < end <= |events|
    ensures i < c <= end && ClosesAt(m, events, end, c)
    ensures forall j :: i < j < c ==> !ClosesAt(m, events, end, j)
    decreases end - i
  {
    if ClosesAt(m, events, end, i + 1) then i + 1 else Closer(m, events, end, i + 1)
  }

  /**
   The cells of the first i callbacks, a sendable page only if the flush that ends its run finds its memory; `end` is
   the callback of the last flush considered.
   */
  function Delivered(m: Machine, events: seq<Event>, faults: seq<Fault>, end: nat, i: nat): (s: seq<Option<Pfn>>)
    requires i <= end <= |events| < |faults|
    ensures |s| == |CellsTo(m, events, i)|
  {
    if i == 0 then []
    else
      var f := faults[Closer(m, events, end, i - 1)];
      Delivered(m, events, faults, end, i - 1)
      + if SendableEntry(m, events[i - 1]) && !(f.vmapOk && f.allocOk) then [None] else CellsOf(m, events[i - 1])
  }

  lemma CloserIs(m: Machine, events: seq<Event>, end: nat, j: nat, i: nat)
    requires j < i <= end <= |events| && ClosesAt(m, events, end, i)
    requires forall k :: j < k < i ==> !ClosesAt(m, events, end, k)
    ensures Closer(m, events, end, j) == i
  {
    hide ClosesAt;
    var c := Closer(m, events, end, j);
    assert c < i ==> !ClosesAt(m, events, end, c);
    assert i < c ==> !ClosesAt(m, events, end, i);
  }

  /** The entries from b up to i are for the pages of a batch, one after the other. */
  predicate IsRunOf(m: Machine, events: seq<Event>, b: nat, i: nat, ps: seq<Pfn>)
  {
    b + |ps| == i <= |events|
    && forall j :: b <= j < i ==> SendsAt(m, events, j) && events[j].pte.pfn == ps[j - b]
  }

  /** The first k pages of a run, or what a lost flush leaves of them. */
  function RunPart(kept: bool, ps: seq<Pfn>, k: nat): (s: seq<Option<Pfn>>)
    requires k <= |ps|
  {
    if kept then Somes(ps[..k]) else Nones(k)
  }

  lemma RunPartSnoc(kept: bool, ps: seq<Pfn>, k: nat)
    requires k < |ps|
    ensures RunPart(kept, ps, k + 1) == RunPart(kept, ps, k) + [if kept then Some(ps[k]) else None]
  {
    assert ps[..k + 1] == ps[..k] + [ps[k]];
  }

  lemma DeliveredStep(m: Machine, events: seq<Event>, faults: seq<Fault>, end: nat, j: nat, i: nat, p: Pfn, kept: bool)
    requires |faults| == |events| + 1 && j < i <= end <= |events| && Closer(m, events, end, j) == i
    requires SendsAt(m, events, j) && events[j].pte.pfn == p
    requires kept == (faults[i].vmapOk && faults[i].allocOk)
    ensures Delivered(m, events, faults, end, j + 1)
         == Delivered(m, events, faults, end, j) + [if kept then Some(p) else None]
  {
  }

  lemma RunPage(m: Machine, events: seq<Event>, end: nat, b: nat, j: nat, i: nat, ps: seq<Pfn>)
    requires IsRunOf(m, events, b, i, ps) && b <= j < i <= end <= |events| && ClosesAt(m, events, end, i)
    ensures j < |events| && SendsAt(m, events, j) && events[j].pte.pfn == ps[j - b]
    ensures Closer(m, events, end, j) == i
  {
    hide Closer;
    CloserIs(m, events, end, j, i);
  }

  /** A run is delivered whole or not at all. */
  lemma {:induction false} RunDelivered(m: Machine, events: seq<Event>, faults: seq<Fault>, end: nat, b: nat, j: nat,
                                        i: nat, ps: seq<Pfn>, kept: bool)
    requires |faults| == |events| + 1 && i <= end <= |events| && b + |ps| == i && b <= j <= i
    requires IsRunOf(m, events, b, i, ps) && ClosesAt(m, events, end, i)
    requires kept == (faults[i].vmapOk && faults[i].allocOk)
    ensures Delivered(m, events, faults, end, j) == Delivered(m, events, faults, end, b) + RunPart(kept, ps, j - b)
  {
    hide Delivered, RunPart, Closer, IsRunOf, SendsAt, ClosesAt;
    if j > b {
      RunPage(m, events, end, b, j - 1, i, ps);
      RunDelivered(m, events, faults, end, b, j - 1, i, ps, kept);
      DeliveredStep(m, events, faults, end, j - 1, i, ps[j - 1 - b], kept);
      RunPartSnoc(kept, ps, j - 1 - b);
      Reassociate(Delivered(m, events, faults, end, b), RunPart(kept, ps, j - 1 - b),
              [if kept then Some(ps[j - 1 - b]) else None]);
    } else {
      RunPartEmpty(kept, ps);
    }
  }

  lemma RunPartEmpty(kept: bool, ps: seq<Pfn>)
    ensures RunPart(kept, ps, 0) == []
  {
  }

  /** While the batch is open its pages are shown; what is before them is delivered or lost for good. */
  predicate OpenRun(m: Machine, w: Walk, events: seq<Event>, faults: seq<Fault>, end: nat, i: nat, s: seq<Option<Pfn>>)
    requires i <= end <= |events| < |faults|
  {
    var b := i - |w.batch|;
    && 0 <= b && IsRunOf(m, events, b, i, w.batch) && !SendsAt(m, events, b - 1) && !w.memoryError
    && s == Delivered(m, events, faults, end, b) + Somes(w.batch)
  }

  lemma RunSettles(m: Machine, w: Walk, events: seq<Event>, faults: seq<Fault>, end: nat, b: nat, i: nat,
                   s: seq<Option<Pfn>>)
    requires |faults| == |events| + 1 && i <= end <= |events| && b + |w.batch| == i
    requires IsRunOf(m, events, b, i, w.batch) && ClosesAt(m, events, end, i)
    requires s == Delivered(m, events, faults, end, b) + Somes(w.batch)
    requires w.batch != [] ==> w.info.mappedAddr / PAGE_SIZE == |Delivered(m, events, faults, end, b)|
    ensures AfterFlush(w, s, faults[i]) == Delivered(m, events, faults, end, i)
  {
    hide Delivered, IsRunOf, Closer, SendsAt, ClosesAt, Somes, AfterFlush, RunPart;
    RunDelivered(m, events, faults, end, b, i, i, w.batch, faults[i].vmapOk && faults[i].allocOk);
    Settled(w, s, faults[i], Delivered(m, events, faults, end, b));
  }

  lemma OpenRunFacts(m: Machine, w: Walk, events: seq<Event>, faults: seq<Fault>, end: nat, i: nat, s: seq<Option<Pfn>>)
    requires i <= end <= |events| < |faults| && OpenRun(m, w, events, faults, end, i, s)
    ensures var b := i - |w.batch|;
            && 0 <= b && IsRunOf(m, events, b, i, w.batch) && !w.memoryError
            && s == Delivered(m, events, faults, end, b) + Somes(w.batch)
            && |Delivered(m, events, faults, end, b)| == |s| - |w.batch|
  {
    hide Delivered, IsRunOf, SendsAt;
  }

  lemma BatchOffset(info: Info, w: Walk, pages: nat)
    requires Bounded(info, w, pages) && !w.memoryError
    ensures !w.stopped && (w.batch != [] ==> w.info.mappedAddr / PAGE_SIZE == pages - |w.batch|)
  {
    assert w.batch != [] ==> w.info.mappedAddr == (pages - |w.batch|) * PAGE_SIZE;
  }

  /** A flush settles the open run. */
  lemma FlushSettles(m: Machine, info: Info, w: Walk, events: seq<Event>, faults: seq<Fault>, end: nat, i: nat,
                     s: seq<Option<Pfn>>)
    requires |faults| == |events| + 1 && i <= end <= |events| && OpenRun(m, w, events, faults, end, i, s)
    requires ClosesAt(m, events, end, i) && Bounded(info, w, |s|)
    ensures AfterFlush(w, s, faults[i]) == Delivered(m, events, faults, end, i)
  {
    hide Delivered, OpenRun, IsRunOf, Closer, SendsAt, ClosesAt, Somes, AfterFlush, RunPart, Bounded;
    OpenRunFacts(m, w, events, faults, end, i, s);
    BatchOffset(info, w, |s|);
    RunSettles(m, w, events, faults, end, i - |w.batch|, i, s);
  }

  lemma Settled(w: Walk, s: seq<Option<Pfn>>, f: Fault, front: seq<Option<Pfn>>)
    requires s == front + Somes(w.batch)
    requires w.batch != [] ==> w.info.mappedAddr / PAGE_SIZE == |front|
    ensures AfterFlush(w, s, f) == front + RunPart(f.vmapOk && f.allocOk, w.batch, |w.batch|)
  {
    assert w.batch[..|w.batch|] == w.batch;
    assert s[..|front|] == front;
  }

  lemma PageOpens(m: Machine, w: Walk, w': Walk, events: seq<Event>, faults: seq<Fault>, end: nat, i: nat,
                  s: seq<Option<Pfn>>)
    requires |faults| == |events| + 1 && SendsAt(m, events, i) && i < end <= |events|
    requires OpenRun(m, w, events, faults, end, i, s)
    requires w'.batch == w.batch + [events[i].pte.pfn] && !w'.memoryError
    ensures OpenRun(m, w', events, faults, end, i + 1, s + [Some(events[i].pte.pfn)])
  {
    hide Delivered;
    assert Somes(w'.batch) == Somes(w.batch) + [Some(events[i].pte.pfn)];
    Reassociate(Delivered(m, events, faults, end, i - |w.batch|), Somes(w.batch), [Some(events[i].pte.pfn)]);
  }

  lemma OtherOpens(m: Machine, w: Walk, events: seq<Event>, faults: seq<Fault>, end: nat, i: nat)
    requires |faults| == |events| + 1 && i < end <= |events| && !SendsAt(m, events, i)
    requires w.batch == [] && !w.memoryError
    ensures OpenRun(m, w, events, faults, end, i + 1, Delivered(m, events, faults, end, i) + CellsOf(m, events[i]))
  {
    hide Delivered, CellsOf, SendsAt, OpenRun;
    DeliveredOther(m, events, faults, end, i);
    EmptyOpens(m, w, events, faults, end, i + 1);
  }

  lemma EmptyOpens(m: Machine, w: Walk, events: seq<Event>, faults: seq<Fault>, end: nat, i: nat)
    requires |faults| == |events| + 1 && i <= end <= |events| && !SendsAt(m, events, i - 1)
    requires w.batch == [] && !w.memoryError
    ensures OpenRun(m, w, events, faults, end, i, Delivered(m, events, faults, end, i))
  {
    hide Delivered, SendsAt;
    NoPages(Delivered(m, events, faults, end, i));
  }

  lemma NoPages(s: seq<Option<Pfn>>)
    ensures s + Somes([]) == s
  {
  }

  lemma DeliveredOther(m: Machine, events: seq<Event>, faults: seq<Fault>, end: nat, i: nat)
    requires |faults| == |events| + 1 && i < end <= |events| && !SendsAt(m, events, i)
    ensures Delivered(m, events, faults, end, i + 1) == Delivered(m, events, faults, end, i) + CellsOf(m, events[i])
  {
    hide CellsOf;
  }

  lemma PageStep(m: Machine, w: Walk, s: seq<Option<Pfn>>, addr: nat, e: Event, f: Fault)
    requires SendableEntry(m, e) && !w.stopped && !StepEvent(m, w, addr, e, f).memoryError
    ensures StepEvent(m, w, addr, e, f).batch == w.batch + [e.pte.pfn]
    ensures StepShown(m, w, s, e, f) == s + [Some(e.pte.pfn)]
  {
    hide AfterFlush;
  }

  lemma OtherStep(m: Machine, w: Walk, s: seq<Option<Pfn>>, addr: nat, e: Event, f: Fault)
    requires !SendableEntry(m, e) && !w.stopped && !w.memoryError && w.info.isEnd == 0
    ensures StepEvent(m, w, addr, e, f).batch == []
    ensures StepShown(m, w, s, e, f) == AfterFlush(w, s, f) + CellsOf(m, e)
  {
    hide AfterFlush, CellsOf;
  }

  lemma StepOpens(m: Machine, info: Info, w: Walk, events: seq<Event>, faults: seq<Fault>, end: nat, i: nat,
                  s: seq<Option<Pfn>>, addr: nat)
    requires |faults| == |events| + 1 && i < end <= |events| && OpenRun(m, w, events, faults, end, i, s)
    requires !StepEvent(m, w, addr, events[i], faults[i]).memoryError
    requires Bounded(info, w, |s|) && w.info.isEnd == 0
    ensures OpenRun(m, StepEvent(m, w, addr, events[i], faults[i]), events, faults, end, i + 1,
                    StepShown(m, w, s, events[i], faults[i]))
  {
    hide OpenRun, Bounded, AfterFlush, StepEvent, StepShown, CellsOf, Delivered;
    var w' := StepEvent(m, w, addr, events[i], faults[i]);
    OpenRunFacts(m, w, events, faults, end, i, s);
    BatchOffset(info, w, |s|);
    if SendsAt(m, events, i) {
      PageStep(m, w, s, addr, events[i], faults[i]);
      PageOpens(m, w, w', events, faults, end, i, s);
    } else {
      OtherStep(m, w, s, addr, events[i], faults[i]);
      FlushSettles(m, info, w, events, faults, end, i, s);
      OtherOpens(m, w', events, faults, end, i);
    }
  }

  lemma StartOpens(m: Machine, info: Info, events: seq<Event>, faults: seq<Fault>, end: nat)
    requires |faults| == |events| + 1 && end <= |events|
    ensures OpenRun(m, At(m, info, events, faults, 0), events, faults, end, 0, Shown(m, info, events, faults, 0))
  {
    assert Delivered(m, events, faults, end, 0) + Somes([]) == [];
  }

  /** As long as growing has not failed, the batch is the open run. */
  lemma {:induction false} WalkedOpens(m: Machine, info: Info, events: seq<Event>, faults: seq<Fault>, end: nat, i: nat)
    requires |faults| == |events| + 1 && i <= end <= |events| && Describes(info, |Cells(m, events)|)
    requires !At(m, info, events, faults, i).memoryError
    ensures OpenRun(m, At(m, info, events, faults, i), events, faults, end, i, Shown(m, info, events, faults, i))
  {
    hide OpenRun, At, Walked, StepEvent, StepShown, Bounded, CellsTo, CellsOf, Describes;
    if i == 0 {
      StartOpens(m, info, events, faults, end);
    } else {
      NoErrorHeedsAll(m, info, events, faults, i);
      WalkedOpens(m, info, events, faults, end, i - 1);
      AtStep(m, info, events, faults, i - 1);
      CellsPrefix(m, events, i - 1, |events|);
      WalkedBounded(m, info, |Cells(m, events)|, events, faults, i - 1);
      NotMarked(info, At(m, info, events, faults, i - 1), |CellsTo(m, events, i - 1)|, |Cells(m, events)|);
      StepOpens(m, info, At(m, info, events, faults, i - 1), events, faults, end, i - 1,
                Shown(m, info, events, faults, i - 1), info.initAddr + |CellsTo(m, events, i - 1)| * PAGE_SIZE);
    }
  }

  lemma NotMarked(info: Info, w: Walk, pages: nat, n: nat)
    requires Bounded(info, w, pages) && Describes(info, n)
    ensures w.info.isEnd == 0
  {
  }

  /**
   Without a growth failure, a sendable page is carried exactly when the flush that ends its run finds the memory it
   asks for; every other page is where it belongs.
   */
  lemma CarriedIsDelivered(m: Machine, info: Info, events: seq<Event>, faults: seq<Fault>)
    requires |faults| == |events| + 1 && Describes(info, |Cells(m, events)|)
    requires !Transfer(m, info, events, faults).memoryError
    ensures Carried(m, info, events, faults) == Delivered(m, events, faults, |events|, |events|)
  {
    var n, w := |Cells(m, events)|, At(m, info, events, faults, |events|);
    EndKeepsShown(m, info, events, faults);
    hide At, Walked, Shown, CellsTo, AfterFlush, OpenRun, Delivered, Bounded, Describes, Transfer;
    WalkedOpens(m, info, events, faults, |events|, |events|);
    WalkedBounded(m, info, n, events, faults, |events|);
    FlushSettles(m, info, w, events, faults, |events|, |events|, Shown(m, info, events, faults, |events|));
  }

  // ------------------------------------------------------------------------------------------
  // What the last frame carries
  // ------------------------------------------------------------------------------------------

  /** The cells that the last frame of a transfer carries. */
  function LastCarried(m: Machine, info: Info, events: seq<Event>, faults: seq<Fault>): (s: seq<Option<Pfn>>)
    requires |faults| == |events| + 1
    ensures |s| == |Cells(m, events)|
  {
    var w, cells := At(m, info, events, faults, |events|), Carried(m, info, events, faults);
    var lo := w.info.mappedAddr / PAGE_SIZE;
    if w.batch == [] || |cells| < lo then Nones(|cells|) else Nones(lo) + cells[lo..]
  }

  /** The cells of a mapping that can be seen in its dump: a server that keeps its buffer shows all that is carried. */
  function Seen(keepUntilEnd: bool, m: Machine, info: Info, events: seq<Event>, faults: seq<Fault>)
      : (s: seq<Option<Pfn>>)
    requires |faults| == |events| + 1
    ensures |s| == |Cells(m, events)|
  {
    if keepUntilEnd then Carried(m, info, events, faults) else LastCarried(m, info, events, faults)
  }

  lemma SeenBelow(keepUntilEnd: bool, m: Machine, info: Info, events: seq<Event>, faults: seq<Fault>)
    requires |faults| == |events| + 1
    ensures Below(Seen(keepUntilEnd, m, info, events, faults), Cells(m, events))
  {
    hide Carried, At, CellsTo;
    CarriedBelow(m, info, events, faults);
  }

  /** Only the last t cells. */
  function LastOnly(cells: seq<Option<Pfn>>, t: nat): (s: seq<Option<Pfn>>)
    requires t <= |cells|
    ensures |s| == |cells|
  {
    Nones(|cells| - t) + cells[|cells| - t..]
  }

  /** The cells of a run, behind those of what comes before it. */
  lemma {:induction false} RunCells(m: Machine, events: seq<Event>, b: nat, j: nat, i: nat, ps: seq<Pfn>)
    requires IsRunOf(m, events, b, i, ps) && b <= j <= i
    ensures CellsTo(m, events, j) == CellsTo(m, events, b) + Somes(ps[..j - b])
  {
    if j > b {
      RunCells(m, events, b, j - 1, i, ps);
      assert SendsAt(m, events, j - 1);
      RunPartSnoc(true, ps, j - 1 - b);
      Reassociate(CellsTo(m, events, b), Somes(ps[..j - 1 - b]), [Some(ps[j - 1 - b])]);
    } else {
      NoPages(CellsTo(m, events, b));
    }
  }

  lemma FrontEndsClosed(m: Machine, events: seq<Event>, b: nat)
    requires b <= |events| && !SendsAt(m, events, b - 1) && Positive(events)
    ensures EndsClosed(CellsTo(m, events, b))
  {
    if b > 0 {
      HoleIsNones(m, events[b - 1]);
    }
  }

  /** The open run at the end of the range is the one that the cells end with. */
  lemma OpenRunTrails(m: Machine, w: Walk, events: seq<Event>, faults: seq<Fault>, s: seq<Option<Pfn>>)
    requires |faults| == |events| + 1 && Positive(events) && OpenRun(m, w, events, faults, |events|, |events|, s)
    ensures Trailing(Cells(m, events)) == |w.batch|
    ensures |w.batch| <= |s| == |Cells(m, events)|
    ensures s[|s| - |w.batch|..] == Cells(m, events)[|s| - |w.batch|..]
  {
    hide Delivered, Trailing, CellsTo, EndsClosed;
    var b := |events| - |w.batch|;
    RunCells(m, events, b, |events|, |events|, w.batch);
    assert w.batch[..|events| - b] == w.batch;
    FrontEndsClosed(m, events, b);
    TrailingIs(Cells(m, events), CellsTo(m, events, b), w.batch);
    SameEnd(Delivered(m, events, faults, |events|, b), CellsTo(m, events, b), Somes(w.batch));
  }

  lemma SameEnd(a: seq<Option<Pfn>>, b: seq<Option<Pfn>>, c: seq<Option<Pfn>>)
    requires |a| == |b|
    ensures (a + c)[|a + c| - |c|..] == (b + c)[|a + c| - |c|..]
  {
    assert (a + c)[|a + c| - |c|..] == c;
    assert (b + c)[|b + c| - |c|..] == c;
  }

  /**
   Unless growing has failed, the end frame, if it is sent, carries the run of sendable pages that reaches the end of
   the range; whichever runs before it have been lost.
   */
  lemma LastCarriedTrails(m: Machine, info: Info, events: seq<Event>, faults: seq<Fault>)
    requires |faults| == |events| + 1 && Describes(info, |Cells(m, events)|) && Positive(events)
    requires EndSent(m, info, events, faults) && !Transfer(m, info, events, faults).memoryError
    ensures LastCarried(m, info, events, faults) == LastOnly(Cells(m, events), Trailing(Cells(m, events)))
  {
    hide At, Walked, Shown, CellsTo, AfterFlush, Carried, OpenRun, Bounded, Describes, Transfer, Trailing, EndSent;
    var n, w := |Cells(m, events)|, At(m, info, events, faults, |events|);
    EndKeepsShown(m, info, events, faults);
    WalkedOpens(m, info, events, faults, |events|, |events|);
    WalkedBounded(m, info, n, events, faults, |events|);
    OpenRunTrails(m, w, events, faults, Shown(m, info, events, faults, |events|));
    BatchOffset(info, w, n);
  }

  lemma EndKeepsShown(m: Machine, info: Info, events: seq<Event>, faults: seq<Fault>)
    requires |faults| == |events| + 1
    ensures Transfer(m, info, events, faults).memoryError == At(m, info, events, faults, |events|).memoryError
    ensures EndSent(m, info, events, faults) ==>
              Carried(m, info, events, faults) == Shown(m, info, events, faults, |events|)
  {
    hide At, Walked, Shown, CellsTo;
  }

  // ------------------------------------------------------------------------------------------
  // After a growth failure
  // ------------------------------------------------------------------------------------------

  /** The flush that sends the page at which growing failed: that of a hole right behind it, or else the last one. */
  function PageFlush(events: seq<Event>, k: nat): (c: nat)
    requires k < |events|
    ensures k < c <= |events|
  {
    if k + 1 < |events| && events[k + 1].Hole? then k + 1 else |events|
  }

  /** How many pages come behind those of callback k. */
  function Behind(m: Machine, events: seq<Event>, k: nat): nat
    requires k < |events|
  {
    CellsPrefix(m, events, k + 1, |events|);
    |Cells(m, events)| - |CellsTo(m, events, k + 1)|
  }

  /** The cells of a transfer whose array could not be grown at callback k. */
  function Broken(m: Machine, events: seq<Event>, faults: seq<Fault>, k: nat): (s: seq<Option<Pfn>>)
    requires SendsAt(m, events, k) && |faults| == |events| + 1
  {
    var f := faults[PageFlush(events, k)];
    Delivered(m, events, faults, k, k) + [if f.vmapOk && f.allocOk then Some(events[k].pte.pfn) else None]
    + Nones(Behind(m, events, k))
  }

  /** Those of its last frame: nothing, or just the page at which growing failed. */
  function BrokenLast(m: Machine, events: seq<Event>, k: nat): (s: seq<Option<Pfn>>)
    requires SendsAt(m, events, k)
  {
    Nones(|CellsTo(m, events, k)|) + [if PageFlush(events, k) == |events| then Some(events[k].pte.pfn) else None]
    + Nones(Behind(m, events, k))
  }

  /** The page at which growing failed waits in the batch. */
  predicate Parked(w: Walk, at: nat, p: Pfn)
  {
    w.memoryError && w.batch == [p] && w.info.mappedAddr / PAGE_SIZE == at && w.info.isEnd == 0
  }

  /** It has been flushed, and nothing follows it. */
  predicate Dropped(w: Walk) { w.memoryError && w.batch == [] && w.info.isEnd == 0 }

  lemma FailingStep(m: Machine, w: Walk, addr: nat, e: Event, f: Fault)
    requires SendableEntry(m, e) && !w.stopped && !w.memoryError && w.info.isEnd == 0
    requires 0 < |w.batch| == w.capacity && !f.growOk
    ensures var w' := StepEvent(m, w, addr, e, f);
            && w'.batch == [e.pte.pfn] && w'.memoryError && !w'.stopped
            && w'.info == w.info.(mappedAddr := (addr - w.info.initAddr) % U64_LIMIT)
  {
    hide BatchFrame;
  }

  lemma FailingShown(m: Machine, w: Walk, s: seq<Option<Pfn>>, e: Event, f: Fault)
    requires SendableEntry(m, e) && !w.stopped && !w.memoryError && |w.batch| == w.capacity && !f.growOk
    ensures StepShown(m, w, s, e, f) == AfterFlush(w, s, f) + [Some(e.pte.pfn)]
  {
    hide AfterFlush;
  }

  lemma BoundedBatch(info: Info, n: nat, w: Walk, pages: nat)
    requires Bounded(info, w, pages) && Describes(info, n)
    ensures w.info.isEnd == 0 && w.info.initAddr == info.initAddr && 0 < w.capacity && (!w.memoryError ==> !w.stopped)
  {
  }

  lemma OffsetOfPage(info: Info, n: nat, pages: nat)
    requires Describes(info, n) && pages < n
    ensures (info.initAddr + pages * PAGE_SIZE - info.initAddr) % U64_LIMIT / PAGE_SIZE == pages
  {
    assert (pages * PAGE_SIZE) % U64_LIMIT == pages * PAGE_SIZE;
  }

  lemma FailureParks(m: Machine, info: Info, w: Walk, n: nat, events: seq<Event>, faults: seq<Fault>, k: nat,
                     s: seq<Option<Pfn>>)
    requires |faults| == |events| + 1 && k < |events| && OpenRun(m, w, events, faults, k, k, s)
    requires Describes(info, n) && Bounded(info, w, |s|) && |s| < n
    requires SendsAt(m, events, k) && |w.batch| == w.capacity && !faults[k].growOk
    ensures var w' := StepEvent(m, w, info.initAddr + |s| * PAGE_SIZE, events[k], faults[k]);
            Parked(w', |s|, events[k].pte.pfn) && !w'.stopped
    ensures StepShown(m, w, s, events[k], faults[k])
         == Delivered(m, events, faults, k, k) + [Some(events[k].pte.pfn)]
  {
    hide OpenRun, Bounded, AfterFlush, StepEvent, StepShown, Delivered, Parked, Describes;
    OpenRunFacts(m, w, events, faults, k, k, s);
    FlushSettles(m, info, w, events, faults, k, k, s);
    BoundedBatch(info, n, w, |s|);
    OffsetOfPage(info, n, |s|);
    FailingStep(m, w, info.initAddr + |s| * PAGE_SIZE, events[k], faults[k]);
    FailingShown(m, w, s, events[k], faults[k]);
    ParkedIs(StepEvent(m, w, info.initAddr + |s| * PAGE_SIZE, events[k], faults[k]), |s|, events[k].pte.pfn);
  }

  lemma ParkedIs(w: Walk, at: nat, p: Pfn)
    requires w.memoryError && w.batch == [p] && w.info.mappedAddr / PAGE_SIZE == at && w.info.isEnd == 0
    ensures Parked(w, at, p)
  {
  }

  /** After a growth failure at k, up to callback i: the page of k waits, unless a hole comes right behind it. */
  predicate AfterFailure(m: Machine, w: Walk, events: seq<Event>, faults: seq<Fault>, k: nat, i: nat,
                         s: seq<Option<Pfn>>, rest: nat)
    requires SendsAt(m, events, k) && |faults| == |events| + 1 && k < i <= |events|
  {
    var d, p, f := Delivered(m, events, faults, k, k), events[k].pte.pfn, faults[PageFlush(events, k)];
    if i == k + 1 || PageFlush(events, k) == |events| then
      Parked(w, |d|, p) && w.stopped == (i > k + 1) && s == d + [Some(p)] + Nones(rest)
    else Dropped(w) && s == d + [if f.vmapOk && f.allocOk then Some(p) else None] + Nones(rest)
  }

  lemma MoreNones(a: seq<Option<Pfn>>, n: nat, more: nat)
    ensures (a + Nones(n)) + Nones(more) == a + Nones(n + more)
  {
  }

  /** What waits is lost, if the flush finds no memory, and what comes behind it were Nones all along. */
  lemma ParkedFlush(w: Walk, d: seq<Option<Pfn>>, p: Pfn, rest: nat, f: Fault)
    requires Parked(w, |d|, p)
    ensures AfterFlush(w, d + [Some(p)] + Nones(rest), f)
         == d + [if f.vmapOk && f.allocOk then Some(p) else None] + Nones(rest)
  {
    var s := d + [Some(p)] + Nones(rest);
    assert s[..|d|] == d;
    assert Nones(|s| - |d|) == [None] + Nones(rest);
    Reassociate(d, [None], Nones(rest));
  }

  lemma FailureStays(m: Machine, w: Walk, events: seq<Event>, faults: seq<Fault>, k: nat, i: nat, s: seq<Option<Pfn>>,
                     rest: nat, addr: nat)
    requires SendsAt(m, events, k) && |faults| == |events| + 1 && k < i < |events|
    requires AfterFailure(m, w, events, faults, k, i, s, rest)
    ensures AfterFailure(m, StepEvent(m, w, addr, events[i], faults[i]), events, faults, k, i + 1,
                         StepShown(m, w, s, events[i], faults[i]), rest + |CellsOf(m, events[i])|)
  {
    var d, p, e, f := Delivered(m, events, faults, k, k), events[k].pte.pfn, events[i], faults[i];
    var more := |CellsOf(m, e)|;
    hide Delivered;
    HoleIsNones(m, e);
    if i == k + 1 && e.Hole? {
      ParkedFlush(w, d, p, rest, f);
      MoreNones(d + [if f.vmapOk && f.allocOk then Some(p) else None], rest, more);
    } else if i == k + 1 || PageFlush(events, k) == |events| {
      MoreNones(d + [Some(p)], rest, more);
    } else {
      var g := faults[PageFlush(events, k)];
      MoreNones(d + [if g.vmapOk && g.allocOk then Some(p) else None], rest, more);
    }
  }

  lemma FailureStarts(m: Machine, info: Info, events: seq<Event>, faults: seq<Fault>, k: nat)
    requires |faults| == |events| + 1 && Describes(info, |Cells(m, events)|)
    requires k < |events| && GrowthFailsAt(m, info, events, faults, k)
    ensures SendsAt(m, events, k)
    ensures AfterFailure(m, At(m, info, events, faults, k + 1), events, faults, k, k + 1,
                         Shown(m, info, events, faults, k + 1), 0)
  {
    hide GrowthFailsAt, At, Walked, CellsTo, OpenRun, Bounded, Describes, StepEvent, StepShown, Parked, Delivered,
      AfterFlush, SendsAt, AfterFailure;
    var n, w, s := |Cells(m, events)|, At(m, info, events, faults, k), Shown(m, info, events, faults, k);
    GrowthFacts(m, info, events, faults, k);
    PageAt(m, events, k);
    AtStep(m, info, events, faults, k);
    WalkedOpens(m, info, events, faults, k, k);
    WalkedBounded(m, info, n, events, faults, k);
    FailureParks(m, info, w, n, events, faults, k, s);
    FailureBegins(m, At(m, info, events, faults, k + 1), events, faults, k, Shown(m, info, events, faults, k + 1));
  }

  lemma GrowthFacts(m: Machine, info: Info, events: seq<Event>, faults: seq<Fault>, k: nat)
    requires k < |events| < |faults| && GrowthFailsAt(m, info, events, faults, k)
    ensures var w := At(m, info, events, faults, k);
            SendsAt(m, events, k) && !w.memoryError && |w.batch| == w.capacity && !faults[k].growOk
  {
    hide At, Walked;
  }

  lemma FailureBegins(m: Machine, w: Walk, events: seq<Event>, faults: seq<Fault>, k: nat, s: seq<Option<Pfn>>)
    requires SendsAt(m, events, k) && |faults| == |events| + 1
    requires Parked(w, |Delivered(m, events, faults, k, k)|, events[k].pte.pfn) && !w.stopped
    requires s == Delivered(m, events, faults, k, k) + [Some(events[k].pte.pfn)]
    ensures AfterFailure(m, w, events, faults, k, k + 1, s, 0)
  {
    hide Parked, Delivered;
    NoneFollow(s);
  }

  lemma PageAt(m: Machine, events: seq<Event>, k: nat)
    requires k < |events| && SendsAt(m, events, k)
    ensures |CellsTo(m, events, k)| < |Cells(m, events)|
  {
    CellsPrefix(m, events, k + 1, |events|);
  }

  lemma NoneFollow(s: seq<Option<Pfn>>)
    ensures s + Nones(0) == s
  {
  }

  lemma {:induction false} WalkedBroken(m: Machine, info: Info, events: seq<Event>, faults: seq<Fault>, k: nat, i: nat)
    requires |faults| == |events| + 1 && Describes(info, |Cells(m, events)|)
    requires k < i <= |events| && GrowthFailsAt(m, info, events, faults, k)
    ensures SendsAt(m, events, k) && |CellsTo(m, events, k + 1)| <= |CellsTo(m, events, i)|
    ensures AfterFailure(m, At(m, info, events, faults, i), events, faults, k, i, Shown(m, info, events, faults, i),
                         |CellsTo(m, events, i)| - |CellsTo(m, events, k + 1)|)
  {
    hide AfterFailure, At, Walked, StepEvent, StepShown, GrowthFailsAt, SendsAt, Describes, CellsOf;
    if i == k + 1 {
      FailureStarts(m, info, events, faults, k);
    } else {
      WalkedBroken(m, info, events, faults, k, i - 1);
      AtStep(m, info, events, faults, i - 1);
      FailureStays(m, At(m, info, events, faults, i - 1), events, faults, k, i - 1,
                   Shown(m, info, events, faults, i - 1),
                   |CellsTo(m, events, i - 1)| - |CellsTo(m, events, k + 1)|,
                   info.initAddr + |CellsTo(m, events, i - 1)| * PAGE_SIZE);
    }
  }

  /**
   After a growth failure at callback k, whichever flushes find no memory: what is carried are the runs before the page
   of k whose flush found memory, that page if its own flush did, and nothing behind it.
   */
  lemma CarriedIsBroken(m: Machine, info: Info, events: seq<Event>, faults: seq<Fault>, k: nat)
    requires |faults| == |events| + 1 && Describes(info, |Cells(m, events)|)
    requires k < |events| && GrowthFailsAt(m, info, events, faults, k)
    ensures SendsAt(m, events, k) && Carried(m, info, events, faults) == Broken(m, events, faults, k)
  {
    var w, s := At(m, info, events, faults, |events|), Shown(m, info, events, faults, |events|);
    WalkedBroken(m, info, events, faults, k, |events|);
    hide Delivered, At, Walked, Shown, CellsTo, AfterFlush, GrowthFailsAt, Describes;
    if PageFlush(events, k) == |events| {
      ParkedFlush(w, Delivered(m, events, faults, k, k), events[k].pte.pfn, Behind(m, events, k), faults[|events|]);
    } else {
      NothingToFlush(w, s, faults[|events|]);
    }
  }

  lemma NothingToFlush(w: Walk, s: seq<Option<Pfn>>, f: Fault)
    requires w.batch == []
    ensures AfterFlush(w, s, f) == s
  {
  }

  /** The end frame, if it is sent, then carries just the page of k, or nothing when a hole comes right behind it. */
  lemma LastCarriedIsBroken(m: Machine, info: Info, events: seq<Event>, faults: seq<Fault>, k: nat)
    requires |faults| == |events| + 1 && Describes(info, |Cells(m, events)|) && EndSent(m, info, events, faults)
    requires k < |events| && GrowthFailsAt(m, info, events, faults, k)
    ensures SendsAt(m, events, k) && LastCarried(m, info, events, faults) == BrokenLast(m, events, k)
  {
    var w, f := At(m, info, events, faults, |events|), faults[|events|];
    WalkedBroken(m, info, events, faults, k, |events|);
    CarriedIsBroken(m, info, events, faults, k);
    assert w.batch != [] ==> f.vmapOk && f.allocOk;
    hide At, Walked, Shown, CellsTo, AfterFlush, GrowthFailsAt, Describes, EndSent, Carried, Delivered;
    var d, p, rest := Delivered(m, events, faults, k, k), events[k].pte.pfn, Behind(m, events, k);
    if PageFlush(events, k) == |events| {
      BehindFront(d, [Some(p)], Nones(rest));
    } else {
      AllNones(|d|, rest);
    }
  }

  lemma BehindFront(a: seq<Option<Pfn>>, b: seq<Option<Pfn>>, c: seq<Option<Pfn>>)
    ensures Nones(|a|) + (a + b + c)[|a|..] == Nones(|a|) + b + c
  {
  }

  lemma AllNones(a: nat, b: nat)
    ensures Nones(a) + [None] + Nones(b) == Nones(a + 1 + b)
  {
  }

  // ------------------------------------------------------------------------------------------
  // In one place
  // ------------------------------------------------------------------------------------------

  /**
   What can be seen of a mapping, for either server and whichever allocations fail. Unless growing fails: the runs whose
   flush found memory, or the last run. If growing fails at k: the same for the runs before k and the page of k, or at
   most that page.
   */
  lemma SeenIsClosed(keepUntilEnd: bool, m: Machine, info: Info, events: seq<Event>, faults: seq<Fault>)
    requires |faults| == |events| + 1 && Describes(info, |Cells(m, events)|)
    requires keepUntilEnd || (Positive(events) && EndSent(m, info, events, faults))
    ensures !Transfer(m, info, events, faults).memoryError ==>
              Seen(keepUntilEnd, m, info, events, faults)
              == if keepUntilEnd then Delivered(m, events, faults, |events|, |events|)
                 else LastOnly(Cells(m, events), Trailing(Cells(m, events)))
    ensures forall k: nat :: k < |events| && GrowthFailsAt(m, info, events, faults, k) ==>
              && SendsAt(m, events, k)
              && Seen(keepUntilEnd, m, info, events, faults)
                 == if keepUntilEnd then Broken(m, events, faults, k) else BrokenLast(m, events, k)
  {
    hide Carried, LastCarried, Delivered, Broken, BrokenLast, Transfer, GrowthFailsAt, CellsTo, EndSent, SendsAt,
      Describes, Trailing;
    if !Transfer(m, info, events, faults).memoryError {
      if keepUntilEnd {
        CarriedIsDelivered(m, info, events, faults);
      } else {
        LastCarriedTrails(m, info, events, faults);
      }
    }
    forall k: nat | k < |events| && GrowthFailsAt(m, info, events, faults, k)
      ensures SendsAt(m, events, k)
      ensures Seen(keepUntilEnd, m, info, events, faults)
           == if keepUntilEnd then Broken(m, events, faults, k) else BrokenLast(m, events, k)
    {
      if keepUntilEnd {
        CarriedIsBroken(m, info, events, faults, k);
      } else {
        LastCarriedIsBroken(m, info, events, faults, k);
      }
    }
  }
}
