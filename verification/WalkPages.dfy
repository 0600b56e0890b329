/**
 The walk in terms of its page-table entries alone: which pages of the range lie in a frame, at which entries the page
 array is full, and when the end frame goes out.
 */
module WalkPages {
  import opened Basics
  import opened Framing
  import opened PageWalk
  import opened Images
  import opened WalkBounds
  import opened WalkContent
  import opened WalkLosses
  import opened WalkRuns
  import opened WalkOutcome

  /** How many pages of the range the first i events cover. */
  function PagesBefore(events: seq<Event>, i: nat): nat
    requires i <= |events|
  {
    if i == 0 then 0
    else PagesBefore(events, i - 1) + match events[i - 1] case Entry(_) => 1 case Hole(n) => n
  }

  lemma {:induction false} PagesAreCells(m: Machine, events: seq<Event>, i: nat)
    requires i <= |events|
    ensures |CellsTo(m, events, i)| == PagesBefore(events, i)
  {
    if i > 0 {
      PagesAreCells(m, events, i - 1);
    }
  }

  lemma CellOfEvent(m: Machine, events: seq<Event>, i: nat, k: nat)
    requires i < |events| && PagesBefore(events, i) <= k < PagesBefore(events, i + 1)
    ensures k < |Cells(m, events)|
    ensures match events[i]
            case Entry(pte) =>
              Cells(m, events)[k]
              == if pte.present && pte.pfn !in m.zeroPfns && pte.pfn in m.validPfns then Some(pte.pfn) else None
            case Hole(_) => Cells(m, events)[k] == None
  {
    PagesAreCells(m, events, i);
    PagesAreCells(m, events, i + 1);
    CellsPrefix(m, events, i + 1, |events|);
    assert Cells(m, events)[k] == CellsTo(m, events, i + 1)[k];
  }

  /** Page k of the range begins in the payload of a frame. */
  predicate HasPage(f: Frame, k: nat)
  {
    f.info.mappedAddr <= k * PAGE_SIZE < f.info.mappedAddr + |f.payload|
  }

  lemma RunHasPage(m: Machine, cells: seq<Option<Pfn>>, f: Frame, k: nat)
    requires RunFrame(m, cells, f)
    ensures HasPage(f, k) <==> Lo(f) <= k < Hi(f)
    ensures Lo(f) <= k < Hi(f) ==> k < |cells| && cells[k].Some?
    ensures Lo(f) <= k < Hi(f) ==>
              k * PAGE_SIZE + PAGE_SIZE - f.info.mappedAddr <= |f.payload|
              && f.payload[k * PAGE_SIZE - f.info.mappedAddr..k * PAGE_SIZE + PAGE_SIZE - f.info.mappedAddr]
                 == m.mem(cells[k].value)
  {
    hide Image;
    var lo, hi := Lo(f), Hi(f);
    assert |f.payload| == (hi - lo) * PAGE_SIZE;
    if lo <= k < hi {
      ImageAt(m, cells[lo..hi], k - lo);
      assert k * PAGE_SIZE - f.info.mappedAddr == (k - lo) * PAGE_SIZE;
    }
  }

  lemma DecomposedPage(m: Machine, cells: seq<Option<Pfn>>, fs: seq<Frame>, k: nat)
    requires Decomposes(m, cells, fs) && k < |cells|
    ensures cells[k].Some? <==> exists j :: 0 <= j < |fs| && HasPage(fs[j], k)
    ensures forall j :: 0 <= j < |fs| && HasPage(fs[j], k) ==>
              var from := k * PAGE_SIZE - fs[j].info.mappedAddr;
              from + PAGE_SIZE <= |fs[j].payload| && cells[k].Some?
              && fs[j].payload[from..from + PAGE_SIZE] == m.mem(cells[k].value)
  {
    hide RunFrame, HasPage;
    forall j | 0 <= j < |fs|
      ensures HasPage(fs[j], k) <==> Lo(fs[j]) <= k < Hi(fs[j])
      ensures HasPage(fs[j], k) ==>
                var from := k * PAGE_SIZE - fs[j].info.mappedAddr;
                0 <= from && from + PAGE_SIZE <= |fs[j].payload| && cells[k].Some?
                && fs[j].payload[from..from + PAGE_SIZE] == m.mem(cells[k].value)
    {
      assert RunFrame(m, cells, fs[j]);
      RunHasPage(m, cells, fs[j], k);
      OffsetInFrame(fs[j], k);
    }
    if cells[k].Some? {
      assert Covers(fs, k);
    }
  }

  lemma OffsetInFrame(f: Frame, k: nat)
    ensures HasPage(f, k) ==> f.info.mappedAddr <= k * PAGE_SIZE
  {
  }

  lemma FramesWithData(fs: seq<Frame>, k: nat)
    requires fs != []
    ensures forall j :: 0 <= j < |fs| && HasPage(fs[j], k) ==> j < |DataFrames(fs)| && DataFrames(fs)[j] == fs[j]
    ensures forall j :: 0 <= j < |DataFrames(fs)| ==> DataFrames(fs)[j] == fs[j] && j < |fs|
  {
  }

  /**
   A transfer without failures, page by page: page k lies in a frame exactly when its entry is present, is not for the
   zero page and has a valid frame; no page of a hole does. The frame holds the page's bytes in its place.
   */
  lemma PageInFrame(m: Machine, info: Info, events: seq<Event>, faults: seq<Fault>, i: nat, k: nat)
    requires |faults| == |events| + 1 && Describes(info, PagesBefore(events, |events|))
    requires NothingLost(faults) && AlwaysGrows(faults) && Positive(events)
    requires i < |events| && PagesBefore(events, i) <= k < PagesBefore(events, i + 1)
    ensures var fs, e := Transfer(m, info, events, faults).frames, events[i];
            && ((exists j :: 0 <= j < |fs| && HasPage(fs[j], k))
                <==> e.Entry? && e.pte.present && e.pte.pfn !in m.zeroPfns && e.pte.pfn in m.validPfns)
            && forall j :: 0 <= j < |fs| && HasPage(fs[j], k) ==>
                 var from := k * PAGE_SIZE - fs[j].info.mappedAddr;
                 from + PAGE_SIZE <= |fs[j].payload| && e.Entry?
                 && fs[j].payload[from..from + PAGE_SIZE] == m.mem(e.pte.pfn)
  {
    hide Transfer, Decomposes, DataFrames, HasPage, CellsTo, PagesBefore, Image, Trailing, Describes;
    PagesAreCells(m, events, |events|);
    CellOfEvent(m, events, i, k);
    RunDecomposition(m, info, events, faults);
    var fs := Transfer(m, info, events, faults).frames;
    DecomposedPage(m, Cells(m, events), DataFrames(fs), k);
    FramesWithData(fs, k);
    if j :| 0 <= j < |DataFrames(fs)| && HasPage(DataFrames(fs)[j], k) {
      assert fs[j] == DataFrames(fs)[j];
    }
    if j :| 0 <= j < |fs| && HasPage(fs[j], k) {
      assert fs[j] == DataFrames(fs)[j];
    }
  }

  // ------------------------------------------------------------------------------------------
  // When the end frame goes out
  // ------------------------------------------------------------------------------------------

  /** The frames marked as the end: the last one, and only if the last flush found its memory. */
  lemma EndMarked(m: Machine, info: Info, events: seq<Event>, faults: seq<Fault>, j: nat)
    requires |faults| == |events| + 1 && Describes(info, |Cells(m, events)|)
    requires j < |Transfer(m, info, events, faults).frames|
    ensures var fs := Transfer(m, info, events, faults).frames;
            fs[j].info.isEnd == 1 <==> j == |fs| - 1 && EndSent(m, info, events, faults)
  {
    hide Transfer, EndSent, CellsTo;
    FramesFit(m, info, events, faults);
  }

  lemma OpenBatch(m: Machine, w: Walk, events: seq<Event>, faults: seq<Fault>, i: nat, s: seq<Option<Pfn>>)
    requires |faults| == |events| + 1 && i <= |events| && OpenRun(m, w, events, faults, |events|, i, s)
    ensures w.batch == [] <==> !SendsAt(m, events, i - 1)
  {
    hide Delivered;
  }

  /**
   The end frame goes out exactly when its header can be allocated, and - if the walk ends with a page to send - the
   pages can be mapped. After a growth failure that page is the one at which growing failed, unless a hole follows it.
   */
  lemma EndSentExactly(m: Machine, info: Info, events: seq<Event>, faults: seq<Fault>)
    requires |faults| == |events| + 1 && Describes(info, |Cells(m, events)|)
    ensures var end := faults[|events|];
            && (!Transfer(m, info, events, faults).memoryError ==>
                  (EndSent(m, info, events, faults)
                   <==> end.allocOk && (end.vmapOk || !SendsAt(m, events, |events| - 1))))
            && forall k: nat :: k < |events| && GrowthFailsAt(m, info, events, faults, k) ==>
                 (EndSent(m, info, events, faults)
                  <==> end.allocOk && (end.vmapOk || PageFlush(events, k) < |events|))
  {
    hide At, Walked, Shown, CellsTo, OpenRun, SendsAt, GrowthFailsAt, Describes, Delivered, Transfer, Carried;
    var w := At(m, info, events, faults, |events|);
    EndKeepsShown(m, info, events, faults);
    if !w.memoryError {
      WalkedOpens(m, info, events, faults, |events|, |events|);
      OpenBatch(m, w, events, faults, |events|, Shown(m, info, events, faults, |events|));
    }
    forall k: nat | k < |events| && GrowthFailsAt(m, info, events, faults, k)
      ensures w.batch == [] <==> PageFlush(events, k) < |events|
    {
      WalkedBroken(m, info, events, faults, k, |events|);
    }
  }

  // ------------------------------------------------------------------------------------------
  // When the page array is full
  // ------------------------------------------------------------------------------------------

  /** How many pages to send the first i events end with. */
  function RunLength(m: Machine, events: seq<Event>, i: nat): nat
    requires i <= |events|
  {
    if i == 0 || !SendsAt(m, events, i - 1) then 0 else 1 + RunLength(m, events, i - 1)
  }

  /** The longest such run so far. */
  function LongestRun(m: Machine, events: seq<Event>, i: nat): (n: nat)
    requires i <= |events|
    ensures RunLength(m, events, i) <= n
  {
    if i == 0 || LongestRun(m, events, i - 1) < RunLength(m, events, i) then RunLength(m, events, i)
    else LongestRun(m, events, i - 1)
  }

  /** 512, 1024, 2048 and so on. */
  predicate IsCapacity(n: nat) { n == 512 || (n > 512 && n % 2 == 0 && IsCapacity(n / 2)) }

  lemma {:induction false} CapacitiesApart(a: nat, b: nat)
    requires IsCapacity(a) && IsCapacity(b) && a <= b < 2 * a
    ensures a == b
  {
    if a > 512 {
      CapacitiesApart(a / 2, b / 2);
    }
  }

  /** The array is as large as the longest run so far has made it. */
  predicate FitsRuns(capacity: nat, longest: nat)
  {
    IsCapacity(capacity) && longest <= capacity && (capacity == 512 || capacity < 2 * longest)
  }

  lemma {:induction false} RunOfLength(m: Machine, events: seq<Event>, b: nat, i: nat, ps: seq<Pfn>)
    requires IsRunOf(m, events, b, i, ps) && !SendsAt(m, events, b - 1)
    ensures RunLength(m, events, i) == |ps|
  {
    if ps != [] {
      assert SendsAt(m, events, i - 1);
      RunOfLength(m, events, b, i - 1, ps[..|ps| - 1]);
    }
  }

  lemma BatchIsRun(m: Machine, w: Walk, events: seq<Event>, faults: seq<Fault>, i: nat, s: seq<Option<Pfn>>)
    requires |faults| == |events| + 1 && i <= |events| && OpenRun(m, w, events, faults, |events|, i, s)
    ensures |w.batch| == RunLength(m, events, i)
  {
    hide Delivered, SendsAt;
    RunOfLength(m, events, i - |w.batch|, i, w.batch);
  }

  lemma StepCapacity(m: Machine, w: Walk, addr: nat, e: Event, f: Fault)
    ensures var w' := StepEvent(m, w, addr, e, f);
            w'.capacity == if !w.stopped && !w.memoryError && SendableEntry(m, e) && |w.batch| >= w.capacity && f.growOk
                           then 2 * w.capacity else w.capacity
  {
    hide BatchFrame;
  }

  lemma {:induction false} WalkedCapacity(m: Machine, info: Info, events: seq<Event>, faults: seq<Fault>, i: nat)
    requires |faults| == |events| + 1 && i <= |events| && Describes(info, |Cells(m, events)|)
    requires !At(m, info, events, faults, i).memoryError
    ensures var w := At(m, info, events, faults, i);
            && |w.batch| == RunLength(m, events, i) && !w.stopped
            && FitsRuns(w.capacity, LongestRun(m, events, i))
  {
    hide At, Walked, StepEvent, OpenRun, Describes, CellsTo, Delivered, Bounded, LongestRun, RunLength;
    var w := At(m, info, events, faults, i);
    WalkedOpens(m, info, events, faults, |events|, i);
    BatchIsRun(m, w, events, faults, i, Shown(m, info, events, faults, i));
    CellsPrefix(m, events, i, |events|);
    WalkedBounded(m, info, |Cells(m, events)|, events, faults, i);
    BatchOffset(info, w, |CellsTo(m, events, i)|);
    if i == 0 {
      FreshCapacity(m, info, events, faults);
    } else {
      NoErrorHeedsAll(m, info, events, faults, i);
      WalkedCapacity(m, info, events, faults, i - 1);
      AtStep(m, info, events, faults, i - 1);
      var before := At(m, info, events, faults, i - 1);
      StepCapacity(m, before, info.initAddr + |CellsTo(m, events, i - 1)| * PAGE_SIZE, events[i - 1], faults[i - 1]);
      NoErrorGrows(m, before, info.initAddr + |CellsTo(m, events, i - 1)| * PAGE_SIZE, events[i - 1], faults[i - 1]);
      NextCapacity(m, events, i - 1, before.capacity, w.capacity);
    }
  }

  lemma FreshCapacity(m: Machine, info: Info, events: seq<Event>, faults: seq<Fault>)
    requires |events| <= |faults|
    ensures FitsRuns(At(m, info, events, faults, 0).capacity, LongestRun(m, events, 0))
  {
  }

  lemma NoErrorGrows(m: Machine, w: Walk, addr: nat, e: Event, f: Fault)
    requires !w.stopped && !w.memoryError && !StepEvent(m, w, addr, e, f).memoryError
    ensures SendableEntry(m, e) && |w.batch| >= w.capacity ==> f.growOk
  {
  }

  lemma NextCapacity(m: Machine, events: seq<Event>, i: nat, c: nat, c': nat)
    requires i < |events| && FitsRuns(c, LongestRun(m, events, i))
    requires c' == if SendsAt(m, events, i) && RunLength(m, events, i) >= c then 2 * c else c
    ensures FitsRuns(c', LongestRun(m, events, i + 1))
  {
    hide SendsAt;
    assert (2 * c) / 2 == c && (2 * c) % 2 == 0;
  }

  /** The array is full at callback k: the longest run so far is 512, 1024, ... pages long, and goes on. */
  predicate FullAt(m: Machine, events: seq<Event>, k: nat)
    requires k < |events|
  {
    SendsAt(m, events, k) && RunLength(m, events, k) == LongestRun(m, events, k) && IsCapacity(RunLength(m, events, k))
  }

  lemma FullExactly(m: Machine, events: seq<Event>, k: nat, capacity: nat)
    requires k < |events| && FitsRuns(capacity, LongestRun(m, events, k))
    ensures FullAt(m, events, k) <==> SendsAt(m, events, k) && RunLength(m, events, k) == capacity
  {
    hide SendsAt;
    if IsCapacity(LongestRun(m, events, k)) {
      AtLeastInitial(LongestRun(m, events, k));
      if capacity != 512 {
        CapacitiesApart(LongestRun(m, events, k), capacity);
      }
    }
  }

  lemma AtLeastInitial(n: nat)
    requires IsCapacity(n)
    ensures n >= 512
  {
  }

  /** Growing fails for the first time at callback k. */
  predicate FirstFailure(m: Machine, events: seq<Event>, faults: seq<Fault>, k: nat)
    requires k < |events| <= |faults|
  {
    FullAt(m, events, k) && !faults[k].growOk && forall j :: 0 <= j < k && FullAt(m, events, j) ==> faults[j].growOk
  }

  lemma {:induction false} NoErrorSoFar(m: Machine, info: Info, events: seq<Event>, faults: seq<Fault>, i: nat)
    requires |faults| == |events| + 1 && i <= |events| && Describes(info, |Cells(m, events)|)
    ensures !At(m, info, events, faults, i).memoryError
       <==> forall j :: 0 <= j < i && FullAt(m, events, j) ==> faults[j].growOk
  {
    hide At, Walked, StepEvent, FullAt, Describes, CellsTo, RunLength, LongestRun;
    if i == 0 {
      NoErrorAtStart(m, info, events, faults);
    } else {
      NoErrorSoFar(m, info, events, faults, i - 1);
      AtStep(m, info, events, faults, i - 1);
      var w := At(m, info, events, faults, i - 1);
      var addr := info.initAddr + |CellsTo(m, events, i - 1)| * PAGE_SIZE;
      if w.memoryError {
        ErrorStays(m, info, events, faults, i - 1, i);
      } else {
        WalkedCapacity(m, info, events, faults, i - 1);
        FullExactly(m, events, i - 1, w.capacity);
        StepError(m, w, addr, events[i - 1], faults[i - 1]);
      }
    }
  }

  lemma StepError(m: Machine, w: Walk, addr: nat, e: Event, f: Fault)
    requires !w.stopped && !w.memoryError
    ensures StepEvent(m, w, addr, e, f).memoryError <==> SendableEntry(m, e) && |w.batch| >= w.capacity && !f.growOk
  {
    hide BatchFrame;
  }

  /**
   Growth failures from the entries and the allocations alone: growing fails at the first callback that finds the array
   full and gets no memory, and the call returns -ENOMEM exactly when there is one.
   */
  lemma GrowthFailsExactly(m: Machine, info: Info, events: seq<Event>, faults: seq<Fault>)
    requires |faults| == |events| + 1 && Describes(info, |Cells(m, events)|)
    ensures forall k: nat :: k < |events| ==>
              (GrowthFailsAt(m, info, events, faults, k) <==> FirstFailure(m, events, faults, k))
    ensures Transfer(m, info, events, faults).memoryError
       <==> exists k: nat :: k < |events| && FullAt(m, events, k) && !faults[k].growOk
  {
    hide At, Walked, FullAt, Describes, CellsTo, SendsAt, Transfer, RunLength, LongestRun, IsCapacity;
    EndKeepsShown(m, info, events, faults);
    NoErrorSoFar(m, info, events, faults, |events|);
    forall k: nat | k < |events|
      ensures GrowthFailsAt(m, info, events, faults, k) <==> FirstFailure(m, events, faults, k)
    {
      NoErrorSoFar(m, info, events, faults, k);
      if !At(m, info, events, faults, k).memoryError {
        WalkedCapacity(m, info, events, faults, k);
        FullExactly(m, events, k, At(m, info, events, faults, k).capacity);
        SendsIs(m, events, k);
      }
    }
  }

  lemma SendsIs(m: Machine, events: seq<Event>, k: nat)
    requires k < |events|
    ensures SendsAt(m, events, k) <==> events[k].Entry? && m.Sendable(events[k].pte)
  {
  }
}
