/**
 Which bytes a transfer carries when no flush loses its batch: without a growth failure every sendable page,
 after one the sendable pages up to and including the page at which growing failed, and none after it.
 */
module WalkContent {
  import opened Basics
  import opened Bytes
  import opened Framing
  import opened PageWalk
  import opened Images
  import opened WalkBounds

  predicate NothingLost(faults: seq<Fault>) { forall i :: 0 <= i < |faults| ==> faults[i].vmapOk && faults[i].allocOk }

  predicate AlwaysGrows(faults: seq<Fault>) { forall i :: 0 <= i < |faults| ==> faults[i].growOk }

  /** The cells the first i callbacks took into account: a callback that finds the error flag set adds nothing. */
  function Heeded(m: Machine, info: Info, events: seq<Event>, faults: seq<Fault>, i: nat): (s: seq<Option<Pfn>>)
    requires i <= |events| <= |faults|
    ensures |s| == |CellsTo(m, events, i)|
  {
    if i == 0 then []
    else
      Heeded(m, info, events, faults, i - 1)
      + (if At(m, info, events, faults, i - 1).memoryError
         then Nones(|CellsOf(m, events[i - 1])|)
         else CellsOf(m, events[i - 1]))
  }

  /** Cells followed by nothing to send, up to n pages. */
  function Padded(cells: seq<Option<Pfn>>, n: nat): (s: seq<Option<Pfn>>)
    ensures |cells| <= n ==> |s| == n
  {
    if |cells| <= n then cells + Nones(n - |cells|) else cells
  }

  lemma PadMore(cells: seq<Option<Pfn>>, n: nat, more: nat)
    requires |cells| <= n
    ensures Padded(cells, n) + Nones(more) == Padded(cells, n + more)
  {
  }

  lemma HeededStep(m: Machine, info: Info, events: seq<Event>, faults: seq<Fault>, i: nat)
    requires i < |events| <= |faults|
    ensures var more := CellsOf(m, events[i]);
            Heeded(m, info, events, faults, i + 1)
            == Heeded(m, info, events, faults, i)
               + (if At(m, info, events, faults, i).memoryError then Nones(|more|) else more)
  {
  }

  /** The frames sent so far hold the cells in front, the batch the run of cells behind them. */
  predicate Holds(m: Machine, cells: seq<Option<Pfn>>, w: Walk, front: seq<Option<Pfn>>, n: nat)
  {
    && |front| + |w.batch| <= |cells| <= n
    && cells == front + Somes(w.batch) + Nones(|cells| - |front| - |w.batch|)
    && Placed(w.frames, n * PAGE_SIZE) == Image(m, front) + Zeros((n - |front|) * PAGE_SIZE)
    && (w.batch == [] ==> front == cells)
    && (w.batch != [] ==> w.info.mappedAddr == |front| * PAGE_SIZE)
    && (!w.memoryError ==> |front| + |w.batch| == |cells|)
  }

  lemma ImageOfParts(m: Machine, front: seq<Option<Pfn>>, ps: seq<Pfn>, tail: nat)
    ensures Image(m, front + Somes(ps) + Nones(tail)) == (Image(m, front) + m.Vmap(ps)) + Zeros(tail * PAGE_SIZE)
  {
    ImageAppend(m, front + Somes(ps), Nones(tail));
    ImageAppend(m, front, Somes(ps));
    ImageOfSomes(m, ps);
    ImageOfNones(m, tail);
  }

  lemma PlaceBehind(img: seq<byte>, off: nat, payload: seq<byte>, total: nat, tail: nat, rest: nat)
    requires off == |img| && total == |payload| + tail + rest
    ensures Place(img + Zeros(total), off, payload) == ((img + payload) + Zeros(tail)) + Zeros(rest)
  {
    PlaceWithTail(img, payload, tail, rest);
  }

  lemma FlushedImage(m: Machine, front: seq<Option<Pfn>>, ps: seq<Pfn>, tail: nat, rest: nat)
    ensures Place(Image(m, front) + Zeros((|ps| + tail + rest) * PAGE_SIZE), |front| * PAGE_SIZE, m.Vmap(ps))
         == Image(m, front + Somes(ps) + Nones(tail)) + Zeros(rest * PAGE_SIZE)
  {
    ImageOfParts(m, front, ps, tail);
    hide *;
    assert (|ps| + tail + rest) * PAGE_SIZE == |ps| * PAGE_SIZE + tail * PAGE_SIZE + rest * PAGE_SIZE;
    PlaceBehind(Image(m, front), |front| * PAGE_SIZE, m.Vmap(ps), (|ps| + tail + rest) * PAGE_SIZE, tail * PAGE_SIZE,
                rest * PAGE_SIZE);
  }

  lemma HoldsFlushed(m: Machine, cells: seq<Option<Pfn>>, w: Walk, n: nat)
    requires w.batch == [] && |cells| <= n
    requires Placed(w.frames, n * PAGE_SIZE) == Image(m, cells) + Zeros((n - |cells|) * PAGE_SIZE)
    ensures Holds(m, cells, w, cells, n)
  {
    assert cells + Somes([]) + Nones(0) == cells;
  }

  lemma FlushHolds(m: Machine, cells: seq<Option<Pfn>>, w: Walk, front: seq<Option<Pfn>>, n: nat, f: Fault)
    requires Holds(m, cells, w, front, n) && f.vmapOk && f.allocOk
    requires n * PAGE_SIZE <= U64_LIMIT && w.info.isEnd == 0
    ensures Holds(m, cells, Flush(m, w, f), cells, n) && Flush(m, w, f).batch == []
  {
    hide Image, Place, Placed;
    if w.batch != [] {
      FlushedImage(m, front, w.batch, |cells| - |front| - |w.batch|, n - |cells|);
      PlacedSnoc(w.frames, BatchFrame(m, w), n * PAGE_SIZE);
    }
    HoldsFlushed(m, cells, Flush(m, w, f), n);
  }

  /** Cells with nothing to send, once the batch is empty or growing has failed. */
  lemma HoldsGrows(m: Machine, cells: seq<Option<Pfn>>, w: Walk, front: seq<Option<Pfn>>, n: nat, more: nat)
    requires Holds(m, cells, w, front, n) && |cells| + more <= n
    requires w.batch == [] || w.memoryError
    ensures Holds(m, cells + Nones(more), w, if w.batch == [] then cells + Nones(more) else front, n)
  {
    hide Image, Placed;
    if w.batch == [] {
      ImageAppend(m, cells, Nones(more));
      ImageOfNones(m, more);
      var a, b := more * PAGE_SIZE, (n - |cells| - more) * PAGE_SIZE;
      assert (n - |cells|) * PAGE_SIZE == a + b;
      ZerosAfter(Image(m, cells), a, b);
      HoldsFlushed(m, cells + Nones(more), w, n);
    } else {
      var tail := |cells| - |front| - |w.batch|;
      assert Nones(tail) + Nones(more) == Nones(tail + more);
    }
  }

  lemma AppendHolds(m: Machine, info: Info, cells: seq<Option<Pfn>>, w: Walk, front: seq<Option<Pfn>>, n: nat, pfn: Pfn)
    requires Holds(m, cells, w, front, n) && |cells| < n && |front| + |w.batch| == |cells|
    requires n * PAGE_SIZE <= U64_LIMIT && w.info.initAddr == info.initAddr
    ensures Holds(m, cells + [Some(pfn)], Append(w, info.initAddr + |cells| * PAGE_SIZE, pfn), front, n)
  {
    hide Image, Placed;
    assert (|cells| * PAGE_SIZE) % U64_LIMIT == |cells| * PAGE_SIZE;
    assert Nones(0) == [];
    assert Somes(w.batch + [pfn]) == Somes(w.batch) + [Some(pfn)];
    assert cells + [Some(pfn)] == front + Somes(w.batch + [pfn]) + Nones(0);
  }

  ghost predicate Held(m: Machine, cells: seq<Option<Pfn>>, w: Walk, n: nat)
  {
    exists front :: Holds(m, cells, w, front, n)
  }

  lemma StartHolds(m: Machine, info: Info, n: nat, events: seq<Event>, faults: seq<Fault>)
    requires Describes(info, n) && |events| <= |faults|
    ensures Held(m, Heeded(m, info, events, faults, 0), At(m, info, events, faults, 0), n)
  {
    hide Place;
    HoldsFlushed(m, [], Fresh(info), n);
  }

  lemma LastFlush(m: Machine, info: Info, cells: seq<Option<Pfn>>, w: Walk, n: nat, f: Fault)
    requires Held(m, cells, w, n) && |cells| == n && n * PAGE_SIZE < U64_LIMIT
    requires f.vmapOk && f.allocOk && w.info.isEnd == 1
    ensures Placed(Flush(m, w, f).frames, n * PAGE_SIZE) == Image(m, cells)
  {
    hide Image, Place, Placed;
    var front :| Holds(m, cells, w, front, n);
    var last := BatchFrame(m, w);
    assert |w.batch| * PAGE_SIZE % U64_LIMIT == |w.batch| * PAGE_SIZE;
    PlacedSnoc(w.frames, last, n * PAGE_SIZE);
    if w.batch == [] {
      PlaceNothing(Placed(w.frames, n * PAGE_SIZE), last.info.mappedAddr);
    } else {
      FlushedImage(m, front, w.batch, n - |front| - |w.batch|, 0);
    }
    assert Zeros(0) == [];
  }

  /** Once the flag is set it stays set, and nothing later is heeded. */
  lemma {:induction false} ErrorStays(m: Machine, info: Info, events: seq<Event>, faults: seq<Fault>, k: nat, i: nat)
    requires k <= i <= |events| <= |faults|
    requires At(m, info, events, faults, k).memoryError
    ensures At(m, info, events, faults, i).memoryError
    ensures Heeded(m, info, events, faults, i)
         == Padded(Heeded(m, info, events, faults, k), |CellsTo(m, events, i)|)
  {
    hide Walked, Heeded, CellsOf;
    if k < i {
      ErrorStays(m, info, events, faults, k, i - 1);
      AtStep(m, info, events, faults, i - 1);
      HeededStep(m, info, events, faults, i - 1);
      CellsPrefix(m, events, k, i - 1);
      PadMore(Heeded(m, info, events, faults, k), |CellsTo(m, events, i - 1)|, |CellsOf(m, events[i - 1])|);
    } else {
      assert Heeded(m, info, events, faults, k) + Nones(0) == Heeded(m, info, events, faults, k);
    }
  }

  lemma {:induction false} NoErrorHeedsAll(m: Machine, info: Info, events: seq<Event>, faults: seq<Fault>, i: nat)
    requires i <= |events| <= |faults|
    requires !At(m, info, events, faults, i).memoryError
    ensures forall j :: 0 <= j <= i ==> !At(m, info, events, faults, j).memoryError
    ensures Heeded(m, info, events, faults, i) == CellsTo(m, events, i)
  {
    hide StepEvent, At, Walked, CellsOf;
    if i > 0 {
      HeededStep(m, info, events, faults, i - 1);
      if At(m, info, events, faults, i - 1).memoryError {
        ErrorStays(m, info, events, faults, i - 1, i);
      }
      NoErrorHeedsAll(m, info, events, faults, i - 1);
    }
  }

  /** The callback at which growing failed: a sendable page that follows at least 512 sendable pages. */
  predicate GrowthFailsAt(m: Machine, info: Info, events: seq<Event>, faults: seq<Fault>, k: nat)
    requires k < |events| <= |faults|
  {
    var w := At(m, info, events, faults, k);
    && !w.memoryError
    && events[k].Entry? && m.Sendable(events[k].pte)
    && |w.batch| == w.capacity && !faults[k].growOk
  }

  lemma ErrorArises(m: Machine, w: Walk, addr: nat, e: Event, f: Fault)
    requires |w.batch| <= w.capacity && !w.memoryError && StepEvent(m, w, addr, e, f).memoryError
    ensures e.Entry? && m.Sendable(e.pte) && |w.batch| == w.capacity && !f.growOk
  {
  }

  lemma NoErrorAtStart(m: Machine, info: Info, events: seq<Event>, faults: seq<Fault>)
    requires |events| <= |faults|
    ensures !At(m, info, events, faults, 0).memoryError
  {
  }

  lemma {:induction false} FirstError(m: Machine, info: Info, events: seq<Event>, faults: seq<Fault>, i: nat)
      returns (k: nat)
    requires i <= |events| <= |faults| && Describes(info, |Cells(m, events)|)
    requires At(m, info, events, faults, i).memoryError
    ensures k < i && GrowthFailsAt(m, info, events, faults, k)
    ensures At(m, info, events, faults, k + 1).memoryError
  {
    hide StepEvent, Walked, CellsTo, CellsOf;
    if i == 0 {
      NoErrorAtStart(m, info, events, faults);
    }
    AtStep(m, info, events, faults, i - 1);
    CellsPrefix(m, events, i - 1, |events|);
    WalkedBounded(m, info, |Cells(m, events)|, events, faults, i - 1);
    if At(m, info, events, faults, i - 1).memoryError {
      k := FirstError(m, info, events, faults, i - 1);
    } else {
      k := i - 1;
      ErrorArises(m, At(m, info, events, faults, k), info.initAddr + |CellsTo(m, events, k)| * PAGE_SIZE, events[k],
                  faults[k]);
    }
  }

  /**
   Growth failure: the transfer reports -ENOMEM exactly when growing failed at some callback k, and then what it
   carries is the sendable pages up to and including the page of k, and none after it; otherwise it carries all.
   */
  lemma GrowthFailure(m: Machine, info: Info, events: seq<Event>, faults: seq<Fault>)
    requires |faults| == |events| + 1 && Describes(info, |Cells(m, events)|)
    ensures var n := |Cells(m, events)|;
            var heeded := Heeded(m, info, events, faults, |events|);
            && (Transfer(m, info, events, faults).memoryError
                <==> exists k: nat :: k < |events| && GrowthFailsAt(m, info, events, faults, k))
            && (!Transfer(m, info, events, faults).memoryError ==> heeded == Cells(m, events))
            && (forall k: nat :: k < |events| && GrowthFailsAt(m, info, events, faults, k) ==>
                  heeded == Padded(CellsTo(m, events, k + 1), n))
  {
    var w := At(m, info, events, faults, |events|);
    if w.memoryError {
      var k := FirstError(m, info, events, faults, |events|);
      assert GrowthFailsAt(m, info, events, faults, k);
    } else {
      NoErrorHeedsAll(m, info, events, faults, |events|);
    }
    forall k: nat | k < |events| && GrowthFailsAt(m, info, events, faults, k)
      ensures w.memoryError
      ensures Heeded(m, info, events, faults, |events|)
           == Padded(CellsTo(m, events, k + 1), |Cells(m, events)|)
    {
      NoErrorHeedsAll(m, info, events, faults, k);
      CellsPrefix(m, events, k, |events|);
      WalkedBounded(m, info, |Cells(m, events)|, events, faults, k);
      AtStep(m, info, events, faults, k);
      HeededStep(m, info, events, faults, k);
      ErrorStays(m, info, events, faults, k + 1, |events|);
    }
  }

  /** When growing always succeeds, nothing is left out. */
  lemma GrowingKeepsAll(m: Machine, info: Info, events: seq<Event>, faults: seq<Fault>)
    requires |faults| == |events| + 1 && Describes(info, |Cells(m, events)|) && AlwaysGrows(faults)
    ensures !Transfer(m, info, events, faults).memoryError
    ensures Heeded(m, info, events, faults, |events|) == Cells(m, events)
  {
    GrowthFailure(m, info, events, faults);
  }
}
