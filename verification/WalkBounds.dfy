/**
 What every walk keeps, whichever allocations fail: the batch fits its array, and every frame sent lies
 inside the mapping it announces, without 64-bit wrap-around.
 */
module WalkBounds {
  import opened Bytes
  import opened Framing
  import opened PageWalk

  /** What `set_mapping_info` hands to a transfer of n pages, for a range whose end does not wrap. */
  predicate Describes(info: Info, n: nat)
  {
    && info.isEnd == 0
    && info.mappedAddr == 0
    && info.mappingLen == n * PAGE_SIZE
    && info.initAddr + n * PAGE_SIZE <= U64_LIMIT
  }

  /** A data frame of a transfer described by `info`, inside its first `bound` bytes. */
  predicate DataFrame(info: Info, f: Frame, bound: nat)
  {
    && f.info == info.(mappedAddr := f.info.mappedAddr, len := f.info.len)
    && WellFormed(f)
    && 0 < |f.payload|
    && f.info.mappedAddr + |f.payload| <= bound
  }

  predicate Bounded(info: Info, w: Walk, pages: nat)
  {
    && w.info == info.(mappedAddr := w.info.mappedAddr)
    && w.info.mappedAddr <= pages * PAGE_SIZE
    && |w.batch| <= w.capacity && INITIAL_CAPACITY <= w.capacity
    && (w.batch != [] ==> w.info.mappedAddr + |w.batch| * PAGE_SIZE <= pages * PAGE_SIZE)
    && (w.batch != [] && !w.stopped ==> w.info.mappedAddr + |w.batch| * PAGE_SIZE == pages * PAGE_SIZE)
    && (w.stopped ==> w.memoryError)
    && forall i :: 0 <= i < |w.frames| ==> DataFrame(info, w.frames[i], pages * PAGE_SIZE)
  }

  lemma FlushBounded(m: Machine, info: Info, n: nat, w: Walk, pages: nat, f: Fault)
    requires Describes(info, n) && pages <= n && Bounded(info, w, pages)
    ensures Bounded(info, Flush(m, w, f), pages) && Flush(m, w, f).batch == []
  {
    if w.batch != [] {
      assert |w.batch| * PAGE_SIZE % U64_LIMIT == |w.batch| * PAGE_SIZE;
      assert DataFrame(info, BatchFrame(m, w), pages * PAGE_SIZE);
    }
  }

  lemma BoundedGrows(info: Info, w: Walk, pages: nat, more: nat)
    requires Bounded(info, w, pages) && (w.batch == [] || w.stopped)
    ensures Bounded(info, w, pages + more)
  {
    forall i | 0 <= i < |w.frames|
      ensures DataFrame(info, w.frames[i], (pages + more) * PAGE_SIZE)
    {
      assert DataFrame(info, w.frames[i], pages * PAGE_SIZE);
    }
  }

  lemma AppendBounded(m: Machine, info: Info, n: nat, w: Walk, pages: nat, pfn: Pfn)
    requires Describes(info, n) && pages < n && Bounded(info, w, pages) && !w.stopped && |w.batch| < w.capacity
    ensures Bounded(info, Append(w, info.initAddr + pages * PAGE_SIZE, pfn), pages + 1)
  {
    var w' := Append(w, info.initAddr + pages * PAGE_SIZE, pfn);
    assert (pages * PAGE_SIZE) % U64_LIMIT == pages * PAGE_SIZE;
    forall i | 0 <= i < |w'.frames|
      ensures DataFrame(info, w'.frames[i], (pages + 1) * PAGE_SIZE)
    {
      assert DataFrame(info, w.frames[i], pages * PAGE_SIZE);
    }
  }

  lemma StepBounded(m: Machine, info: Info, n: nat, w: Walk, pages: nat, e: Event, f: Fault)
    requires Describes(info, n) && Bounded(info, w, pages) && pages + |CellsOf(m, e)| <= n
    ensures Bounded(info, StepEvent(m, w, info.initAddr + pages * PAGE_SIZE, e, f), pages + |CellsOf(m, e)|)
  {
    if w.stopped || (e.Entry? && w.memoryError) {
      BoundedGrows(info, w.(stopped := true), pages, |CellsOf(m, e)|);
    } else if e.Hole? || !m.Sendable(e.pte) {
      FlushBounded(m, info, n, w, pages, f);
      BoundedGrows(info, Flush(m, w, f), pages, |CellsOf(m, e)|);
    } else {
      if |w.batch| >= w.capacity && !f.growOk {
        FlushBounded(m, info, n, w.(memoryError := true), pages, f);
      }
      AppendBounded(m, info, n, MakeRoom(m, w, f), pages, e.pte.pfn);
    }
  }

  lemma {:induction false} WalkedBounded(m: Machine, info: Info, n: nat, events: seq<Event>, faults: seq<Fault>, i: nat)
    requires Describes(info, n) && i <= |events| <= |faults| && |CellsTo(m, events, i)| <= n
    ensures Bounded(info, At(m, info, events, faults, i), |CellsTo(m, events, i)|)
  {
    hide StepEvent;
    if i > 0 {
      AtStep(m, info, events, faults, i - 1);
      WalkedBounded(m, info, n, events, faults, i - 1);
      StepBounded(m, info, n, At(m, info, events, faults, i - 1),
                  |CellsTo(m, events, i - 1)|, events[i - 1], faults[i - 1]);
    }
  }

  lemma {:induction false} CellsPrefix(m: Machine, events: seq<Event>, i: nat, j: nat)
    requires i <= j <= |events|
    ensures CellsTo(m, events, i) <= CellsTo(m, events, j)
  {
    if i < j {
      CellsPrefix(m, events, i, j - 1);
    }
  }

  /**
   While a batch is being collected, the address the walk reaches next is always
   `init_addr + mapped_addr + count * PAGE_SIZE`, and the batch never outgrows its array.
   */
  lemma BatchAddress(m: Machine, info: Info, events: seq<Event>, faults: seq<Fault>, i: nat)
    requires Describes(info, |Cells(m, events)|) && i <= |events| <= |faults|
    ensures var w := At(m, info, events, faults, i);
            && |w.batch| <= w.capacity
            && (w.batch != [] && !w.stopped ==>
                  info.initAddr + |CellsTo(m, events, i)| * PAGE_SIZE
                  == w.info.initAddr + w.info.mappedAddr + |w.batch| * PAGE_SIZE)
  {
    CellsPrefix(m, events, i, |events|);
    WalkedBounded(m, info, |Cells(m, events)|, events, faults, i);
  }

  /** What every transfer sends, up to and including its end frame when that is not lost. */
  predicate TransferFrames(info: Info, n: nat, w: Walk, ended: bool)
  {
    && (ended ==> w.frames != [])
    && var data := if ended then |w.frames| - 1 else |w.frames|;
    && (forall i :: 0 <= i < data ==> DataFrame(info, w.frames[i], n * PAGE_SIZE))
    && (ended ==>
          var last := w.frames[data];
          && WellFormed(last)
          && last.info == info.(mappedAddr := last.info.mappedAddr, len := last.info.len, isEnd := 1)
          && last.info.mappedAddr + |last.payload| <= n * PAGE_SIZE)
  }

  /** Whether the flush that ends the mapping finds the memory it asks for. */
  predicate EndSent(m: Machine, info: Info, events: seq<Event>, faults: seq<Fault>)
    requires |faults| == |events| + 1
  {
    var w := At(m, info, events, faults, |events|);
    var f := faults[|events|];
    (w.batch == [] || f.vmapOk) && f.allocOk
  }

  /**
   Sender frames always fit: for a range of n pages whose end does not wrap, and whatever fails, each frame
   lies inside the mapping, repeats its length, and only the last one - when it is not lost - is marked as the end.
   */
  lemma FramesFit(m: Machine, info: Info, events: seq<Event>, faults: seq<Fault>)
    requires |faults| == |events| + 1 && Describes(info, |Cells(m, events)|)
    ensures TransferFrames(info, |Cells(m, events)|, Transfer(m, info, events, faults),
                           EndSent(m, info, events, faults))
  {
    var n := |Cells(m, events)|;
    WalkedBounded(m, info, n, events, faults, |events|);
    var w := At(m, info, events, faults, |events|);
    assert |w.batch| * PAGE_SIZE % U64_LIMIT == |w.batch| * PAGE_SIZE;
    var t := Transfer(m, info, events, faults);
    assert forall i :: 0 <= i < |w.frames| ==> DataFrame(info, w.frames[i], n * PAGE_SIZE);
    if EndSent(m, info, events, faults) {
      assert t.frames == w.frames + [BatchFrame(m, w.(info := w.info.(isEnd := 1)))];
    }
  }
}
