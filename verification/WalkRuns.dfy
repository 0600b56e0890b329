/** Without failures the data frames of a transfer are exactly the maximal runs of sendable pages. */
module WalkRuns {
  import opened Basics
  import opened Bytes
  import opened Framing
  import opened PageWalk
  import opened Images
  import opened WalkBounds
  import opened WalkContent

  /** The first page of a frame, and the page behind its last one. */
  function Lo(f: Frame): nat { f.info.mappedAddr / PAGE_SIZE }

  function Hi(f: Frame): nat { (f.info.mappedAddr + |f.payload|) / PAGE_SIZE }

  /** The pages from a up to b are sendable, and the run cannot be extended on either side. */
  predicate IsMaximalRun(cells: seq<Option<Pfn>>, a: nat, b: nat)
  {
    && a < b <= |cells|
    && (forall k :: a <= k < b ==> cells[k].Some?)
    && (a == 0 || cells[a - 1].None?)
    && (b == |cells| || cells[b].None?)
  }

  predicate RunFrame(m: Machine, cells: seq<Option<Pfn>>, f: Frame)
  {
    && IsMaximalRun(cells, Lo(f), Hi(f))
    && f.info.mappedAddr == Lo(f) * PAGE_SIZE
    && f.payload == Image(m, cells[Lo(f)..Hi(f)])
  }

  predicate Covers(fs: seq<Frame>, k: nat) { exists i :: 0 <= i < |fs| && Lo(fs[i]) <= k < Hi(fs[i]) }

  /** Every frame is a maximal run; the frames ascend without touching; together they cover every sendable page. */
  predicate Decomposes(m: Machine, cells: seq<Option<Pfn>>, fs: seq<Frame>)
  {
    && (forall i :: 0 <= i < |fs| ==> RunFrame(m, cells, fs[i]))
    && (forall i, j :: 0 <= i < j < |fs| ==> Hi(fs[i]) < Lo(fs[j]))
    && (forall k :: 0 <= k < |cells| && cells[k].Some? ==> Covers(fs, k))
  }

  predicate SendableAt(cells: seq<Option<Pfn>>, k: int) { 0 <= k < |cells| && cells[k].Some? }

  lemma SharedPage(cells: seq<Option<Pfn>>, a: nat, b: nat, c: nat, d: nat, k: nat)
    requires IsMaximalRun(cells, a, b) && IsMaximalRun(cells, c, d) && a <= k < b && c <= k < d
    ensures a == c && b == d
  {
    assert a == 0 || !(c <= a - 1 < d) || SendableAt(cells, a - 1);
    assert c == 0 || !(a <= c - 1 < b) || SendableAt(cells, c - 1);
    assert !(c <= b < d) || SendableAt(cells, b);
    assert !(a <= d < b) || SendableAt(cells, d);
  }

  /** A decomposition lists all the maximal runs and nothing else. */
  lemma DecomposesExactly(m: Machine, cells: seq<Option<Pfn>>, fs: seq<Frame>, a: nat, b: nat)
    requires Decomposes(m, cells, fs)
    ensures IsMaximalRun(cells, a, b) <==> exists i :: 0 <= i < |fs| && Lo(fs[i]) == a && Hi(fs[i]) == b
  {
    hide Image, IsMaximalRun;
    if IsMaximalRun(cells, a, b) {
      RunIsListed(m, cells, fs, a, b);
    }
    if i :| 0 <= i < |fs| && Lo(fs[i]) == a && Hi(fs[i]) == b {
      assert RunFrame(m, cells, fs[i]);
    }
  }

  lemma RunIsListed(m: Machine, cells: seq<Option<Pfn>>, fs: seq<Frame>, a: nat, b: nat)
    requires Decomposes(m, cells, fs) && IsMaximalRun(cells, a, b)
    ensures exists i :: 0 <= i < |fs| && Lo(fs[i]) == a && Hi(fs[i]) == b
  {
    hide Image;
    assert Covers(fs, a);
    var i :| 0 <= i < |fs| && Lo(fs[i]) <= a < Hi(fs[i]);
    assert RunFrame(m, cells, fs[i]);
    SharedPage(cells, a, b, Lo(fs[i]), Hi(fs[i]), a);
  }

  predicate EndsClosed(cells: seq<Option<Pfn>>) { cells == [] || cells[|cells| - 1].None? }

  /** Runs stay maximal, and covered, when something not sendable follows. */
  lemma DecomposesNones(m: Machine, cells: seq<Option<Pfn>>, fs: seq<Frame>, n: nat)
    requires Decomposes(m, cells, fs)
    ensures Decomposes(m, cells + Nones(n), fs)
  {
    hide Image;
    var cells' := cells + Nones(n);
    forall i | 0 <= i < |fs|
      ensures RunFrame(m, cells', fs[i])
    {
      assert RunFrame(m, cells, fs[i]);
      assert cells'[Lo(fs[i])..Hi(fs[i])] == cells[Lo(fs[i])..Hi(fs[i])];
    }
  }

  lemma NewRun(m: Machine, front: seq<Option<Pfn>>, ps: seq<Pfn>, f: Frame)
    requires EndsClosed(front) && ps != []
    requires f.info.mappedAddr == |front| * PAGE_SIZE && f.payload == m.Vmap(ps)
    ensures Lo(f) == |front| && Hi(f) == |front| + |ps| && RunFrame(m, front + Somes(ps), f)
  {
    hide Image;
    assert (front + Somes(ps))[|front|..|front| + |ps|] == Somes(ps);
    ImageOfSomes(m, ps);
  }

  lemma OldRun(m: Machine, front: seq<Option<Pfn>>, ps: seq<Pfn>, f: Frame)
    requires EndsClosed(front) && RunFrame(m, front, f)
    ensures Hi(f) < |front| && RunFrame(m, front + Somes(ps), f)
  {
    hide Image;
    assert front[Hi(f) - 1].Some?;
    assert (front + Somes(ps))[Lo(f)..Hi(f)] == front[Lo(f)..Hi(f)];
  }

  /** The run that follows a closed front becomes one more frame. */
  lemma DecomposesRun(m: Machine, front: seq<Option<Pfn>>, ps: seq<Pfn>, fs: seq<Frame>, f: Frame)
    requires Decomposes(m, front, fs) && EndsClosed(front) && ps != []
    requires f.info.mappedAddr == |front| * PAGE_SIZE && f.payload == m.Vmap(ps)
    ensures Decomposes(m, front + Somes(ps), fs + [f]) && Hi(f) == |front| + |ps|
  {
    hide Image;
    var cells, fs' := front + Somes(ps), fs + [f];
    NewRun(m, front, ps, f);
    forall i | 0 <= i < |fs|
      ensures RunFrame(m, cells, fs[i]) && Hi(fs[i]) < |front|
    {
      OldRun(m, front, ps, fs[i]);
    }
    forall k | 0 <= k < |cells| && cells[k].Some?
      ensures Covers(fs', k)
    {
      if k < |front| {
        assert Covers(fs, k);
        var i :| 0 <= i < |fs| && Lo(fs[i]) <= k < Hi(fs[i]);
        assert fs'[i] == fs[i];
      } else {
        assert fs'[|fs|] == f;
      }
    }
  }

  /** A hole always covers some pages. */
  predicate Positive(events: seq<Event>) { forall i :: 0 <= i < |events| && events[i].Hole? ==> 0 < events[i].pages }

  /** The frames sent so far are the runs of a closed front; the batch is the run behind it. */
  predicate Split(m: Machine, cells: seq<Option<Pfn>>, w: Walk, front: seq<Option<Pfn>>)
  {
    && cells == front + Somes(w.batch)
    && EndsClosed(front)
    && Decomposes(m, front, w.frames)
    && (w.batch != [] ==> w.info.mappedAddr == |front| * PAGE_SIZE)
  }

  ghost predicate Splits(m: Machine, cells: seq<Option<Pfn>>, w: Walk)
  {
    exists front :: Split(m, cells, w, front)
  }

  lemma FlushSplits(m: Machine, cells: seq<Option<Pfn>>, w: Walk, n: nat, f: Fault, more: nat)
    requires Splits(m, cells, w) && f.vmapOk && f.allocOk && w.info.isEnd == 0 && 0 < more
    ensures Splits(m, cells + Nones(more), Flush(m, w, f))
  {
    hide Decomposes;
    var front :| Split(m, cells, w, front);
    var w' := Flush(m, w, f);
    if w.batch != [] {
      DecomposesRun(m, front, w.batch, w.frames, BatchFrame(m, w));
    } else {
      assert front + Somes([]) == front;
    }
    DecomposesNones(m, cells, w'.frames, more);
    assert (cells + Nones(more)) + Somes([]) == cells + Nones(more);
    assert Split(m, cells + Nones(more), w', cells + Nones(more));
  }

  lemma AppendSplits(m: Machine, info: Info, cells: seq<Option<Pfn>>, w: Walk, pfn: Pfn)
    requires Splits(m, cells, w) && info.initAddr + |cells| * PAGE_SIZE < U64_LIMIT && w.info.initAddr == info.initAddr
    ensures Splits(m, cells + [Some(pfn)], Append(w, info.initAddr + |cells| * PAGE_SIZE, pfn))
  {
    hide Decomposes;
    var front :| Split(m, cells, w, front);
    assert (|cells| * PAGE_SIZE) % U64_LIMIT == |cells| * PAGE_SIZE;
    assert Somes(w.batch + [pfn]) == Somes(w.batch) + [Some(pfn)];
    assert front + Somes(w.batch + [pfn]) == cells + [Some(pfn)];
    assert Split(m, cells + [Some(pfn)], Append(w, info.initAddr + |cells| * PAGE_SIZE, pfn), front);
  }

  lemma StepSplits(m: Machine, info: Info, n: nat, cells: seq<Option<Pfn>>, w: Walk, e: Event, f: Fault)
    requires Describes(info, n) && Bounded(info, w, |cells|) && |cells| + |CellsOf(m, e)| <= n
    requires Splits(m, cells, w) && !w.memoryError
    requires f.vmapOk && f.allocOk && f.growOk && (e.Hole? ==> 0 < e.pages)
    ensures Splits(m, cells + CellsOf(m, e), StepEvent(m, w, info.initAddr + |cells| * PAGE_SIZE, e, f))
  {
    hide Split, Decomposes;
    if e.Hole? || !m.Sendable(e.pte) {
      FlushSplits(m, cells, w, n, f, |CellsOf(m, e)|);
      assert CellsOf(m, e) == Nones(|CellsOf(m, e)|);
    } else {
      SplitsWiderArray(m, cells, w, MakeRoom(m, w, f));
      AppendSplits(m, info, cells, MakeRoom(m, w, f), e.pte.pfn);
    }
  }

  lemma SplitsWiderArray(m: Machine, cells: seq<Option<Pfn>>, w: Walk, w': Walk)
    requires Splits(m, cells, w) && w' == w.(capacity := w'.capacity)
    ensures Splits(m, cells, w')
  {
    hide Decomposes;
    var front :| Split(m, cells, w, front);
    assert Split(m, cells, w', front);
  }

  lemma StartSplits(m: Machine, info: Info)
    ensures Splits(m, [], Fresh(info))
  {
    assert [] + Somes([]) == [];
    assert Split(m, [], Fresh(info), []);
  }

  lemma {:induction false} WalkedSplits(m: Machine, info: Info, n: nat, events: seq<Event>, faults: seq<Fault>, i: nat)
    requires Describes(info, n) && i <= |events| <= |faults| && |CellsTo(m, events, i)| <= n
    requires NothingLost(faults) && AlwaysGrows(faults) && Positive(events)
    ensures Splits(m, CellsTo(m, events, i), At(m, info, events, faults, i))
    ensures !At(m, info, events, faults, i).memoryError
  {
    hide StepEvent, Splits;
    if i == 0 {
      StartSplits(m, info);
    } else {
      AtStep(m, info, events, faults, i - 1);
      WalkedSplits(m, info, n, events, faults, i - 1);
      WalkedBounded(m, info, n, events, faults, i - 1);
      StepSplits(m, info, n, CellsTo(m, events, i - 1), At(m, info, events, faults, i - 1), events[i - 1],
                 faults[i - 1]);
      if At(m, info, events, faults, i).memoryError {
        ErrorArises(m, At(m, info, events, faults, i - 1), info.initAddr + |CellsTo(m, events, i - 1)| * PAGE_SIZE,
                    events[i - 1], faults[i - 1]);
      }
    }
  }

  /** How many sendable pages the range ends with. */
  function Trailing(cells: seq<Option<Pfn>>): (t: nat)
    ensures t <= |cells|
    ensures forall k :: |cells| - t <= k < |cells| ==> cells[k].Some?
    ensures t == |cells| || cells[|cells| - t - 1].None?
  {
    if cells == [] || cells[|cells| - 1].None? then 0 else 1 + Trailing(cells[..|cells| - 1])
  }

  lemma TrailingIs(cells: seq<Option<Pfn>>, front: seq<Option<Pfn>>, ps: seq<Pfn>)
    requires cells == front + Somes(ps) && EndsClosed(front)
    ensures Trailing(cells) == |ps|
  {
    var t := Trailing(cells);
    assert t == |cells| || |ps| <= t || SendableAt(cells, |cells| - t - 1);
    assert front == [] || t <= |ps| || SendableAt(cells, |front| - 1);
  }

  /** The frames that carry data: all but an empty end frame. */
  function DataFrames(fs: seq<Frame>): seq<Frame>
    requires fs != []
  {
    if fs[|fs| - 1].payload == [] then fs[..|fs| - 1] else fs
  }

  lemma ClosingSplits(m: Machine, cells: seq<Option<Pfn>>, w: Walk, f: Fault)
    requires Splits(m, cells, w) && f.vmapOk && f.allocOk && w.info.isEnd == 1 && |w.batch| * PAGE_SIZE < U64_LIMIT
    ensures var fs := Flush(m, w, f).frames;
            && fs != []
            && Decomposes(m, cells, DataFrames(fs))
            && var last := fs[|fs| - 1];
               && last.payload == Image(m, cells[|cells| - Trailing(cells)..])
               && (last.payload != [] ==> last.info.mappedAddr == (|cells| - Trailing(cells)) * PAGE_SIZE)
  {
    hide Decomposes, Image;
    var front :| Split(m, cells, w, front);
    var fs, last := Flush(m, w, f).frames, BatchFrame(m, w);
    assert fs == w.frames + [last];
    TrailingIs(cells, front, w.batch);
    assert cells[|front|..] == Somes(w.batch);
    ImageOfSomes(m, w.batch);
    if w.batch == [] {
      assert front + Somes([]) == front;
      assert fs[..|fs| - 1] == w.frames;
    } else {
      DecomposesRun(m, front, w.batch, w.frames, last);
    }
  }

  /**
   Run decomposition: when no allocation fails, the data frames are the maximal runs of sendable pages in
   ascending order, and the last frame - the end frame - carries the run that reaches the end of the range,
   or nothing.
   */
  lemma RunDecomposition(m: Machine, info: Info, events: seq<Event>, faults: seq<Fault>)
    requires |faults| == |events| + 1 && Describes(info, |Cells(m, events)|)
    requires NothingLost(faults) && AlwaysGrows(faults) && Positive(events)
    ensures var cells := Cells(m, events);
            var fs := Transfer(m, info, events, faults).frames;
            && fs != []
            && Decomposes(m, cells, DataFrames(fs))
            && var last := fs[|fs| - 1];
               && last.payload == Image(m, cells[|cells| - Trailing(cells)..])
               && (last.payload != [] ==> last.info.mappedAddr == (|cells| - Trailing(cells)) * PAGE_SIZE)
  {
    hide At, Splits, Decomposes, Image, Flush, DataFrames, Trailing, CellsTo, Bounded, Describes;
    var n, i := |Cells(m, events)|, |events|;
    var w := At(m, info, events, faults, i);
    WalkedSplits(m, info, n, events, faults, i);
    WalkedBounded(m, info, n, events, faults, i);
    var w' := w.(info := w.info.(isEnd := 1));
    SplitsMarked(m, Cells(m, events), w);
    BatchFits(info, w, n);
    ClosingSplits(m, Cells(m, events), w', faults[i]);
  }

  lemma BatchFits(info: Info, w: Walk, n: nat)
    requires Bounded(info, w, n) && Describes(info, n)
    ensures |w.batch| * PAGE_SIZE < U64_LIMIT
  {
  }

  lemma SplitsMarked(m: Machine, cells: seq<Option<Pfn>>, w: Walk)
    requires Splits(m, cells, w)
    ensures Splits(m, cells, w.(info := w.info.(isEnd := 1)))
  {
    hide Decomposes;
    var front :| Split(m, cells, w, front);
    assert Split(m, cells, w.(info := w.info.(isEnd := 1)), front);
  }
}
