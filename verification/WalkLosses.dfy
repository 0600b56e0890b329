/**
 What a transfer carries when any allocation may fail: a flush that finds no memory loses its batch, and the
 callbacks after a growth failure contribute nothing. Which pages are missing follows from the failed callbacks.
 */
module WalkLosses {
  import opened Basics
  import opened Bytes
  import opened Framing
  import opened PageWalk
  import opened Images
  import opened WalkBounds
  import opened WalkContent

  /** What is left of the cells seen so far after a flush: one that finds no memory loses the pages of the batch. */
  function AfterFlush(w: Walk, s: seq<Option<Pfn>>, f: Fault): (r: seq<Option<Pfn>>)
    ensures |r| == |s|
  {
    var lo := w.info.mappedAddr / PAGE_SIZE;
    if w.batch == [] || (f.vmapOk && f.allocOk) || |s| < lo then s else s[..lo] + Nones(|s| - lo)
  }

  /** The same after a callback, together with the cells it adds. */
  function StepShown(m: Machine, w: Walk, s: seq<Option<Pfn>>, e: Event, f: Fault): (r: seq<Option<Pfn>>)
    ensures |r| == |s| + |CellsOf(m, e)|
  {
    if w.stopped || (e.Entry? && w.memoryError) then s + Nones(|CellsOf(m, e)|)
    else if e.Hole? || !m.Sendable(e.pte) || (|w.batch| >= w.capacity && !f.growOk) then
      AfterFlush(w, s, f) + CellsOf(m, e)
    else s + CellsOf(m, e)
  }

  /** The cells of the first i callbacks, without those that a failure has lost by then. */
  function Shown(m: Machine, info: Info, events: seq<Event>, faults: seq<Fault>, i: nat): (s: seq<Option<Pfn>>)
    requires i <= |events| <= |faults|
    ensures |s| == |CellsTo(m, events, i)|
  {
    if i == 0 then []
    else
      StepShown(m, At(m, info, events, faults, i - 1), Shown(m, info, events, faults, i - 1), events[i - 1],
                faults[i - 1])
  }

  /** The cells that a whole transfer carries. */
  function Carried(m: Machine, info: Info, events: seq<Event>, faults: seq<Fault>): (s: seq<Option<Pfn>>)
    requires |faults| == |events| + 1
    ensures |s| == |Cells(m, events)|
  {
    AfterFlush(At(m, info, events, faults, |events|), Shown(m, info, events, faults, |events|), faults[|events|])
  }

  /** The same cells, some of them possibly gone. */
  predicate Below(shown: seq<Option<Pfn>>, cells: seq<Option<Pfn>>)
  {
    |shown| == |cells| && forall k :: 0 <= k < |cells| ==> shown[k] == cells[k] || shown[k].None?
  }

  lemma StepBelow(m: Machine, w: Walk, s: seq<Option<Pfn>>, cells: seq<Option<Pfn>>, e: Event, f: Fault)
    requires Below(s, cells)
    ensures Below(StepShown(m, w, s, e, f), cells + CellsOf(m, e))
  {
    hide CellsOf;
  }

  lemma {:induction false} ShownBelow(m: Machine, info: Info, events: seq<Event>, faults: seq<Fault>, i: nat)
    requires i <= |events| <= |faults|
    ensures Below(Shown(m, info, events, faults, i), CellsTo(m, events, i))
  {
    hide At, Walked, StepShown, CellsOf;
    if i > 0 {
      ShownBelow(m, info, events, faults, i - 1);
      StepBelow(m, At(m, info, events, faults, i - 1), Shown(m, info, events, faults, i - 1),
                CellsTo(m, events, i - 1), events[i - 1], faults[i - 1]);
    }
  }

  lemma CarriedBelow(m: Machine, info: Info, events: seq<Event>, faults: seq<Fault>)
    requires |faults| == |events| + 1
    ensures Below(Carried(m, info, events, faults), Cells(m, events))
  {
    hide At, Shown, CellsTo;
    ShownBelow(m, info, events, faults, |events|);
  }

  // ------------------------------------------------------------------------------------------
  // The frames carry exactly that
  // ------------------------------------------------------------------------------------------

  /** The image so far, with the rest of the cells gone. */
  lemma FrontImage(m: Machine, front: seq<Option<Pfn>>, k: nat, n: nat)
    requires |front| + k <= n
    ensures Image(m, front) + Zeros((n - |front|) * PAGE_SIZE)
         == Image(m, front + Nones(k)) + Zeros((n - |front| - k) * PAGE_SIZE)
  {
    hide Image;
    ImageAppend(m, front, Nones(k));
    ImageOfNones(m, k);
    ZerosAfter(Image(m, front), k * PAGE_SIZE, (n - |front| - k) * PAGE_SIZE);
    assert (n - |front|) * PAGE_SIZE == k * PAGE_SIZE + (n - |front| - k) * PAGE_SIZE;
  }

  lemma FlushKeeps(m: Machine, s: seq<Option<Pfn>>, w: Walk, n: nat, f: Fault)
    requires Held(m, s, w, n) && n * PAGE_SIZE <= U64_LIMIT && w.info.isEnd == 0
    ensures Flush(m, w, f).batch == [] && Held(m, AfterFlush(w, s, f), Flush(m, w, f), n)
  {
    hide Image, Placed;
    var front :| Holds(m, s, w, front, n);
    if w.batch == [] || (f.vmapOk && f.allocOk) {
      FlushHolds(m, s, w, front, n, Fault(f.growOk, true, true));
      assert Holds(m, s, Flush(m, w, f), s, n);
    } else {
      assert w.info.mappedAddr / PAGE_SIZE == |front| && s[..|front|] == front;
      FrontImage(m, front, |s| - |front|, n);
      HoldsFlushed(m, front + Nones(|s| - |front|), Flush(m, w, f), n);
    }
  }

  /** More cells with nothing to send. */
  lemma NonesHeld(m: Machine, s: seq<Option<Pfn>>, w: Walk, n: nat, more: nat)
    requires Held(m, s, w, n) && |s| + more <= n && (w.batch == [] || w.memoryError)
    ensures Held(m, s + Nones(more), w, n)
  {
    hide Image, Placed, Holds;
    var front :| Holds(m, s, w, front, n);
    HoldsGrows(m, s, w, front, n, more);
  }

  lemma PageHeld(m: Machine, info: Info, s: seq<Option<Pfn>>, w: Walk, n: nat, pfn: Pfn)
    requires Held(m, s, w, n) && |s| < n && (w.batch == [] || !w.memoryError)
    requires n * PAGE_SIZE <= U64_LIMIT && w.info.initAddr == info.initAddr
    ensures Held(m, s + [Some(pfn)], Append(w, info.initAddr + |s| * PAGE_SIZE, pfn), n)
  {
    hide Image, Placed;
    var front :| Holds(m, s, w, front, n);
    AppendHolds(m, info, s, w, front, n, pfn);
  }

  /** What is held depends on the batch, its offset, the frames and the flag; and setting the flag does no harm. */
  lemma HeldSame(m: Machine, s: seq<Option<Pfn>>, w: Walk, w': Walk, n: nat)
    requires Held(m, s, w, n)
    requires w'.batch == w.batch && w'.frames == w.frames && w'.info.mappedAddr == w.info.mappedAddr
    requires w.memoryError ==> w'.memoryError
    ensures Held(m, s, w', n)
  {
    hide Image, Placed;
    var front :| Holds(m, s, w, front, n);
    assert Holds(m, s, w', front, n);
  }

  lemma StepHeld(m: Machine, info: Info, s: seq<Option<Pfn>>, w: Walk, n: nat, e: Event, f: Fault)
    requires Describes(info, n) && Bounded(info, w, |s|) && Held(m, s, w, n) && |s| + |CellsOf(m, e)| <= n
    ensures Held(m, StepShown(m, w, s, e, f), StepEvent(m, w, info.initAddr + |s| * PAGE_SIZE, e, f), n)
  {
    hide Held, AfterFlush;
    if w.stopped || (e.Entry? && w.memoryError) {
      HeldSame(m, s, w, w.(stopped := true), n);
      NonesHeld(m, s, w.(stopped := true), n, |CellsOf(m, e)|);
    } else if e.Hole? || !m.Sendable(e.pte) {
      FlushKeeps(m, s, w, n, f);
      NonesHeld(m, AfterFlush(w, s, f), Flush(m, w, f), n, |CellsOf(m, e)|);
      assert CellsOf(m, e) == Nones(|CellsOf(m, e)|);
    } else if |w.batch| >= w.capacity && !f.growOk {
      HeldSame(m, s, w, w.(memoryError := true), n);
      FlushKeeps(m, s, w.(memoryError := true), n, f);
      AfterFlushSame(w, w.(memoryError := true), s, f);
      PageHeld(m, info, AfterFlush(w, s, f), MakeRoom(m, w, f), n, e.pte.pfn);
    } else {
      HeldSame(m, s, w, MakeRoom(m, w, f), n);
      PageHeld(m, info, s, MakeRoom(m, w, f), n, e.pte.pfn);
    }
  }

  lemma AfterFlushSame(w: Walk, w': Walk, s: seq<Option<Pfn>>, f: Fault)
    requires w'.batch == w.batch && w'.info.mappedAddr == w.info.mappedAddr
    ensures AfterFlush(w', s, f) == AfterFlush(w, s, f)
  {
  }

  lemma StartShown(m: Machine, info: Info, n: nat, events: seq<Event>, faults: seq<Fault>)
    requires Describes(info, n) && |events| <= |faults|
    ensures Held(m, Shown(m, info, events, faults, 0), At(m, info, events, faults, 0), n)
  {
    hide Held;
    StartHolds(m, info, n, events, faults);
  }

  /** After every callback, whatever has failed, the frames and the batch hold exactly the cells still shown. */
  lemma {:induction false} WalkedShown(m: Machine, info: Info, n: nat, events: seq<Event>, faults: seq<Fault>, i: nat)
    requires Describes(info, n) && i <= |events| <= |faults| && |CellsTo(m, events, i)| <= n
    ensures Held(m, Shown(m, info, events, faults, i), At(m, info, events, faults, i), n)
  {
    hide StepEvent, StepShown, Bounded, Held, At, Walked, CellsTo, CellsOf, Describes;
    if i == 0 {
      StartShown(m, info, n, events, faults);
    } else {
      AtStep(m, info, events, faults, i - 1);
      WalkedShown(m, info, n, events, faults, i - 1);
      WalkedBounded(m, info, n, events, faults, i - 1);
      StepHeld(m, info, Shown(m, info, events, faults, i - 1), At(m, info, events, faults, i - 1), n, events[i - 1],
               faults[i - 1]);
    }
  }

  lemma LastFlushKeeps(m: Machine, info: Info, s: seq<Option<Pfn>>, w: Walk, n: nat, f: Fault)
    requires Held(m, s, w, n) && |s| == n && n * PAGE_SIZE < U64_LIMIT && w.info.isEnd == 1
    ensures Placed(Flush(m, w, f).frames, n * PAGE_SIZE) == Image(m, AfterFlush(w, s, f))
  {
    hide Image, Placed;
    if (w.batch == [] || f.vmapOk) && f.allocOk {
      LastFlush(m, info, s, w, n, Fault(f.growOk, true, true));
    } else {
      var front :| Holds(m, s, w, front, n);
      FrontImage(m, front, n - |front|, n);
      assert Image(m, front + Nones(n - |front|)) + Zeros(0) == Image(m, front + Nones(n - |front|));
      if w.batch != [] {
        assert w.info.mappedAddr / PAGE_SIZE == |front| && s[..|front|] == front;
      } else {
        assert front + Nones(n - |front|) == s;
      }
    }
  }

  /**
   Whatever fails: placing the frames of a transfer in zeros builds exactly the image of the cells that the failed
   callbacks have left.
   */
  lemma CarriedContent(m: Machine, info: Info, events: seq<Event>, faults: seq<Fault>)
    requires |faults| == |events| + 1 && Describes(info, |Cells(m, events)|)
    ensures Placed(Transfer(m, info, events, faults).frames, |Cells(m, events)| * PAGE_SIZE)
         == Image(m, Carried(m, info, events, faults))
  {
    hide Image, Placed, Walked, Flush, Held, Shown, AfterFlush;
    var n, w := |Cells(m, events)|, At(m, info, events, faults, |events|);
    var w', s, f := w.(info := w.info.(isEnd := 1)), Shown(m, info, events, faults, |events|), faults[|events|];
    WalkedShown(m, info, n, events, faults, |events|);
    HeldSame(m, s, w, w', n);
    LastFlushKeeps(m, info, s, w', n, f);
    AfterFlushSame(w, w', s, f);
  }

  // ------------------------------------------------------------------------------------------
  // Without lost flushes
  // ------------------------------------------------------------------------------------------

  /** When every flush finds its memory, what is shown is what was heeded. */
  lemma {:induction false} ShownIsHeeded(m: Machine, info: Info, events: seq<Event>, faults: seq<Fault>, i: nat)
    requires i <= |events| <= |faults| && NothingLost(faults) && Describes(info, |Cells(m, events)|)
    ensures Shown(m, info, events, faults, i) == Heeded(m, info, events, faults, i)
  {
    hide At, Walked, CellsTo, Bounded, Describes;
    if i > 0 {
      CellsPrefix(m, events, i - 1, |events|);
      WalkedBounded(m, info, |Cells(m, events)|, events, faults, i - 1);
      StoppedHasError(info, At(m, info, events, faults, i - 1), |CellsTo(m, events, i - 1)|);
      ShownIsHeeded(m, info, events, faults, i - 1);
      HoleIsNones(m, events[i - 1]);
    }
  }

  lemma StoppedHasError(info: Info, w: Walk, pages: nat)
    requires Bounded(info, w, pages)
    ensures w.stopped ==> w.memoryError
  {
  }

  lemma HoleIsNones(m: Machine, e: Event)
    ensures e.Hole? || !m.Sendable(e.pte) ==> CellsOf(m, e) == Nones(|CellsOf(m, e)|)
  {
  }

  lemma CarriedIsHeeded(m: Machine, info: Info, events: seq<Event>, faults: seq<Fault>)
    requires |faults| == |events| + 1 && NothingLost(faults) && Describes(info, |Cells(m, events)|)
    ensures Carried(m, info, events, faults) == Heeded(m, info, events, faults, |events|)
  {
    hide At, Shown, CellsTo;
    ShownIsHeeded(m, info, events, faults, |events|);
  }

  /**
   When no flush loses its batch, the frames carry exactly the heeded cells: without a growth failure all sendable
   pages, and after one those up to and including the page at which growing failed.
   */
  lemma TransferContent(m: Machine, info: Info, events: seq<Event>, faults: seq<Fault>)
    requires |faults| == |events| + 1 && NothingLost(faults) && Describes(info, |Cells(m, events)|)
    ensures Placed(Transfer(m, info, events, faults).frames, |Cells(m, events)| * PAGE_SIZE)
         == Image(m, Heeded(m, info, events, faults, |events|))
  {
    hide Transfer, Placed, Image, Carried, Heeded, CellsTo;
    CarriedContent(m, info, events, faults);
    CarriedIsHeeded(m, info, events, faults);
  }
}
