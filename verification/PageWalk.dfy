/**
 The sender: a page-table walk that collects the sendable pages of a range into a growable batch,
 flushes the batch as one frame at every hole, and closes the transfer with an end-of-mapping frame.

 The first half specifies the walk on values; the second half is the walk context as the kernel
 updates it in place, proved against that specification.
 */
module PageWalk {
  import opened Basics
  import opened Bytes
  import opened Framing
  import opened Sockets

  const PAGE_SIZE: nat := 4096
  const INITIAL_CAPACITY: nat := 512
  const ENOMEM: int := 12

  type PageBytes = s: seq<byte> | |s| == 4096 witness Zeros(4096)
  type Pfn = nat

  datatype Pte = Pte(present: bool, pfn: Pfn)

  /** The page frames of the machine: which are the shared zero page, which are valid, what each holds. */
  datatype Machine = Machine(zeroPfns: set<Pfn>, validPfns: set<Pfn>, mem: Pfn -> PageBytes) {

    /** The page-table entries `collect_pages` puts in the batch. */
    predicate Sendable(pte: Pte) { pte.present && pte.pfn !in zeroPfns && pte.pfn in validPfns }

    /** `vmap`: the frames' bytes, one after the other. */
    function Vmap(pfns: seq<Pfn>): (s: seq<byte>)
      ensures |s| == |pfns| * PAGE_SIZE
    {
      if pfns == [] then [] else Vmap(pfns[..|pfns| - 1]) + mem(pfns[|pfns| - 1])
    }
  }

  /** One callback of the walk: a page-table entry, or a hole of some pages without page tables. */
  datatype Event = Entry(pte: Pte) | Hole(pages: nat)

  /** Which of the allocations a callback may attempt succeed. */
  datatype Fault = Fault(growOk: bool, vmapOk: bool, allocOk: bool)

  /** `struct walk_ctx`, the frames sent so far, and whether a callback's error has ended the walk. */
  datatype Walk = Walk(
    batch: seq<Pfn>,
    capacity: nat,
    memoryError: bool,
    stopped: bool,
    info: Info,
    frames: seq<Frame>)

  /** The frame a flush puts together: the context's header with the batch's length, and the batch's bytes. */
  function BatchFrame(m: Machine, w: Walk): (f: Frame)
  {
    Frame(w.info.(len := (|w.batch| * PAGE_SIZE) % U64_LIMIT), m.Vmap(w.batch))
  }

  /** `flush_accumulated_pages`. */
  function Flush(m: Machine, w: Walk, f: Fault): Walk
  {
    if w.batch == [] && w.info.isEnd == 0 then w
    else if (w.batch == [] || f.vmapOk) && f.allocOk then w.(batch := [], frames := w.frames + [BatchFrame(m, w)])
    else w.(batch := [])
  }

  /** `grow_page_array`, and the flush that follows when it fails. */
  function MakeRoom(m: Machine, w: Walk, f: Fault): Walk
  {
    if |w.batch| < w.capacity then w
    else if f.growOk then w.(capacity := 2 * w.capacity)
    else Flush(m, w.(memoryError := true), f)
  }

  /** Stores a page; the first one of a batch fixes the batch's offset (64-bit subtraction). */
  function Append(w: Walk, addr: nat, pfn: Pfn): Walk
  {
    var w' := w.(batch := w.batch + [pfn]);
    if |w'.batch| == 1 then w'.(info := w'.info.(mappedAddr := (addr - w.info.initAddr) % U64_LIMIT)) else w'
  }

  /** `collect_pages`. */
  function Collect(m: Machine, w: Walk, addr: nat, pte: Pte, f: Fault): Walk
  {
    if w.memoryError then w.(stopped := true)
    else if !m.Sendable(pte) then Flush(m, w, f)
    else Append(MakeRoom(m, w, f), addr, pte.pfn)
  }

  /** An absent page, the zero page and an invalid frame end the batch; any other page goes to its end. */
  lemma CollectedBatch(m: Machine, w: Walk, addr: nat, pte: Pte, f: Fault)
    ensures var batch := Collect(m, w, addr, pte, f).batch;
            if w.memoryError then batch == w.batch
            else if !pte.present || pte.pfn in m.zeroPfns || pte.pfn !in m.validPfns then batch == []
            else batch != [] && batch[|batch| - 1] == pte.pfn
  {
    hide BatchFrame;
  }

  function StepEvent(m: Machine, w: Walk, addr: nat, e: Event, f: Fault): Walk
  {
    if w.stopped then w
    else match e
      case Entry(pte) => Collect(m, w, addr, pte, f)
      case Hole(_) => Flush(m, w, f)
  }

  /** Page by page, what an event covers: the frame of a sendable page, or nothing to send. */
  function CellsOf(m: Machine, e: Event): seq<Option<Pfn>>
  {
    match e
    case Entry(pte) => if m.Sendable(pte) then [Some(pte.pfn)] else [None]
    case Hole(n) => seq(n, _ => None)
  }

  /** The cells of the first i events. */
  function CellsTo(m: Machine, events: seq<Event>, i: nat): seq<Option<Pfn>>
    requires i <= |events|
  {
    if i == 0 then [] else CellsTo(m, events, i - 1) + CellsOf(m, events[i - 1])
  }

  function Cells(m: Machine, events: seq<Event>): seq<Option<Pfn>> { CellsTo(m, events, |events|) }

  /** The walker's state after the first i callbacks of a walk that starts at `base`. */
  function Walked(m: Machine, w: Walk, base: nat, events: seq<Event>, faults: seq<Fault>, i: nat): Walk
    requires i <= |events| <= |faults|
  {
    if i == 0 then w
    else
      StepEvent(m, Walked(m, w, base, events, faults, i - 1),
                base + |CellsTo(m, events, i - 1)| * PAGE_SIZE, events[i - 1], faults[i - 1])
  }

  lemma WalkStart(m: Machine, w: Walk, base: nat, events: seq<Event>, faults: seq<Fault>)
    requires |events| <= |faults|
    ensures Walked(m, w, base, events, faults, 0) == w && CellsTo(m, events, 0) == []
  {
  }

  lemma WalkStep(m: Machine, w: Walk, base: nat, events: seq<Event>, faults: seq<Fault>, i: nat)
    requires i < |events| <= |faults|
    ensures CellsTo(m, events, i + 1) == CellsTo(m, events, i) + CellsOf(m, events[i])
    ensures Walked(m, w, base, events, faults, i + 1)
         == StepEvent(m, Walked(m, w, base, events, faults, i), base + |CellsTo(m, events, i)| * PAGE_SIZE,
                      events[i], faults[i])
  {
    hide StepEvent, CellsOf;
  }

  function Fresh(info: Info): Walk { Walk([], INITIAL_CAPACITY, false, false, info, []) }

  /** The state of a transfer after its first i callbacks. */
  function At(m: Machine, info: Info, events: seq<Event>, faults: seq<Fault>, i: nat): Walk
    requires i <= |events| <= |faults|
  {
    Walked(m, Fresh(info), info.initAddr, events, faults, i)
  }

  lemma AtStep(m: Machine, info: Info, events: seq<Event>, faults: seq<Fault>, i: nat)
    requires i < |events| <= |faults|
    ensures CellsTo(m, events, i + 1) == CellsTo(m, events, i) + CellsOf(m, events[i])
    ensures At(m, info, events, faults, i + 1)
         == StepEvent(m, At(m, info, events, faults, i), info.initAddr + |CellsTo(m, events, i)| * PAGE_SIZE,
                      events[i], faults[i])
  {
    hide StepEvent, CellsOf;
  }

  /** The walk, then the flush that is marked as the end of the mapping. */
  function Transfer(m: Machine, info: Info, events: seq<Event>, faults: seq<Fault>): Walk
    requires |faults| == |events| + 1
  {
    var w := At(m, info, events, faults, |events|);
    Flush(m, w.(info := w.info.(isEnd := 1)), faults[|events|])
  }

  // ------------------------------------------------------------------------------------------
  // The context as the kernel updates it
  // ------------------------------------------------------------------------------------------

  /** The reference counts of the page frames. */
  class PageRefs {
    var refs: multiset<Pfn>

    method Get(p: Pfn)
      modifies this
      ensures refs == old(refs) + multiset{p}
    {
      refs := refs + multiset{p};
    }

    method Put(p: Pfn)
      requires p in refs
      modifies this
      ensures refs == old(refs) - multiset{p}
    {
      refs := refs - multiset{p};
    }
  }

  /** Sends the header, and the payload only when there is one. */
  method SendFrame(sock: KernelSocket, frame: Frame)
    modifies sock
    ensures sock.sent == old(sock.sent) + EncodeFrame(frame)
  {
    var _ := sock.Send(EncodeInfo(frame.info));
    if frame.payload != [] {
      var _ := sock.Send(frame.payload);
    }
  }

  lemma FrameSent(before: seq<byte>, frames: seq<Frame>, frame: Frame, now: seq<byte>)
    requires now == (before + EncodeFrames(frames)) + EncodeFrame(frame)
    ensures now == before + EncodeFrames(frames + [frame])
  {
    EncodeFramesSnoc(frames, frame);
    Reassociate(before, EncodeFrames(frames), EncodeFrame(frame));
  }

  lemma CountHead(s: seq<Pfn>)
    requires s != []
    ensures multiset(s) == multiset{s[0]} + multiset(s[1..])
  {
    assert s == [s[0]] + s[1..];
  }

  lemma CountLast(s: seq<Pfn>, p: Pfn)
    ensures multiset(s + [p]) == multiset(s) + multiset{p}
  {
  }

  lemma OneMoreHeld(base: multiset<Pfn>, held: seq<Pfn>, p: Pfn)
    ensures base + multiset(held) + multiset{p} == base + multiset(held + [p])
  {
    CountLast(held, p);
  }

  lemma PutFirst(base: multiset<Pfn>, p: Pfn, rest: multiset<Pfn>)
    ensures p in base + (multiset{p} + rest)
    ensures base + (multiset{p} + rest) - multiset{p} == base + rest
  {
  }

  class WalkCtx {
    const m: Machine
    const sock: KernelSocket
    const table: PageRefs
    var pages: array<Pfn>
    var capacity: nat
    var count: nat
    var memoryError: bool
    /** `*ctx->info`. */
    var info: Info
    /** Set by the walker when a callback returns an error. */
    var stopped: bool
    ghost var frames: seq<Frame>
    ghost const sentBefore: seq<byte>
    ghost const refsBefore: multiset<Pfn>

    /** Indices stay within the array, the socket carries the frames, and each page in the batch is held once. */
    ghost predicate Valid()
      reads this, pages, sock, table
      ensures Valid() ==> count <= pages.Length
    {
      && 0 < capacity == pages.Length
      && count <= capacity
      && sock.sent == sentBefore + EncodeFrames(frames)
      && table.refs == refsBefore + multiset(pages[..count])
    }

    ghost function View(): Walk
      reads this, pages
      requires count <= pages.Length
    {
      Walk(pages[..count], capacity, memoryError, stopped, info, frames)
    }

    constructor (m: Machine, sock: KernelSocket, table: PageRefs, info: Info)
      ensures Valid() && View() == Fresh(info)
      ensures fresh(pages) && this.sock == sock && this.table == table && this.m == m
      ensures sentBefore == sock.sent && refsBefore == table.refs
    {
      this.m, this.sock, this.table := m, sock, table;
      pages := new Pfn[INITIAL_CAPACITY](_ => 0);
      capacity, count, memoryError, stopped := INITIAL_CAPACITY, 0, false, false;
      this.info, frames := info, [];
      sentBefore, refsBefore := sock.sent, table.refs;
    }

    method FlushAccumulatedPages(f: Fault)
      requires Valid()
      modifies this, sock, table
      ensures Valid() && pages == old(pages) && pages[..] == old(pages[..])
      ensures View() == Flush(m, old(View()), f)
    {
      hide EncodeFrames, EncodeFrame, EncodeInfo;
      if count == 0 && info.isEnd == 0 {
        return;
      }
      if (count == 0 || f.vmapOk) && f.allocOk {
        ghost var before, old' := sock.sent, frames;
        var frame := Frame(info.(len := (count * PAGE_SIZE) % U64_LIMIT), m.Vmap(pages[..count]));
        SendFrame(sock, frame);
        frames := frames + [frame];
        FrameSent(sentBefore, old', frame, sock.sent);
      }
      PutAll();
      count := 0;
    }

    /** The `put_page` loop: gives back exactly the references of the batch. */
    method PutAll()
      requires count <= pages.Length
      requires table.refs == refsBefore + multiset(pages[..count])
      modifies table
      ensures table.refs == refsBefore
    {
      ghost var held := pages[..count];
      var i := 0;
      while i < count
        invariant i <= count
        invariant table.refs == refsBefore + multiset(held[i..])
      {
        CountHead(held[i..]);
        assert held[i..][1..] == held[i + 1..];
        PutFirst(refsBefore, pages[i], multiset(held[i + 1..]));
        table.Put(pages[i]);
        i := i + 1;
      }
    }

    method GrowPageArray(ok: bool) returns (ret: int)
      requires Valid()
      modifies this
      ensures Valid() && count == old(count) && pages[..count] == old(pages[..count])
      ensures (ret == 0) == ok
      ensures View() == if ok then old(View()).(capacity := 2 * old(capacity)) else old(View()).(memoryError := true)
      ensures if ok then fresh(pages) else pages == old(pages)
    {
      hide EncodeFrames, EncodeFrame, EncodeInfo;
      if !ok {
        memoryError := true;
        return -ENOMEM;
      }
      ghost var kept := pages[..count];
      var bigger := new Pfn[2 * capacity](_ => 0);
      forall i | 0 <= i < count {
        bigger[i] := pages[i];
      }
      pages, capacity := bigger, 2 * capacity;
      assert pages[..count] == kept;
      return 0;
    }

    /** `get_page`, the page stored at the end of the batch, and the offset when it is the first one. */
    method Push(pfn: Pfn, addr: nat)
      requires Valid() && count < capacity
      modifies this, pages, table
      ensures Valid() && pages == old(pages)
      ensures View() == Append(old(View()), addr, pfn)
    {
      hide EncodeFrames;
      ghost var kept := pages[..count];
      table.Get(pfn);
      pages[count] := pfn;
      count := count + 1;
      assert pages[..count] == kept + [pfn];
      OneMoreHeld(refsBefore, kept, pfn);
      if count == 1 {
        info := info.(mappedAddr := (addr - info.initAddr) % U64_LIMIT);
      }
    }

    /** The full-array branch of `collect_pages`. */
    method EnsureRoom(f: Fault)
      requires Valid()
      modifies this, sock, table
      ensures Valid() && count < capacity && (pages == old(pages) || fresh(pages))
      ensures View() == MakeRoom(m, old(View()), f)
    {
      hide EncodeFrames, EncodeFrame, EncodeInfo;
      if count >= capacity {
        var grown := GrowPageArray(f.growOk);
        if grown != 0 {
          FlushAccumulatedPages(f);
        }
      }
    }

    method CollectPages(pte: Pte, addr: nat, f: Fault) returns (ret: int)
      requires Valid() && !stopped
      modifies this, pages, sock, table
      ensures Valid() && (pages == old(pages) || fresh(pages))
      ensures View() == Collect(m, old(View()), addr, pte, f)
      ensures ret == if old(memoryError) then -12 else 0
      ensures var batch := View().batch;
              if old(memoryError) then batch == old(View()).batch
              else if !pte.present || pte.pfn in m.zeroPfns || pte.pfn !in m.validPfns then batch == []
              else batch != [] && batch[|batch| - 1] == pte.pfn
    {
      hide EncodeFrames, EncodeFrame, EncodeInfo, StepEvent;
      CollectedBatch(m, View(), addr, pte, f);
      if memoryError {
        stopped := true;
        ret := -ENOMEM;
      } else {
        ret := 0;
        if m.Sendable(pte) {
          EnsureRoom(f);
          Push(pte.pfn, addr);
        } else {
          FlushAccumulatedPages(f);
        }
      }
    }

    /** One callback of the walker, which stops calling once a callback has returned an error. */
    method Visit(e: Event, addr: nat, f: Fault)
      requires Valid()
      modifies this, pages, sock, table
      ensures Valid() && (pages == old(pages) || fresh(pages))
      ensures View() == StepEvent(m, old(View()), addr, e, f)
    {
      hide EncodeFrames, EncodeFrame, EncodeInfo;
      if !stopped {
        match e {
          case Entry(pte) =>
            var _ := CollectPages(pte, addr, f);
          case Hole(_) =>
            FlushAccumulatedPages(f);
        }
      }
    }

    /** `walk_page_range` with the three callbacks. */
    method WalkPageRange(events: seq<Event>, faults: seq<Fault>)
      requires Valid() && |events| <= |faults|
      modifies this, pages, sock, table
      ensures Valid() && (pages == old(pages) || fresh(pages))
      ensures View() == Walked(m, old(View()), old(info).initAddr, events, faults, |events|)
    {
      hide *;
      ghost var start := View();
      var base: nat := info.initAddr;
      var passed := 0;
      var i := 0;
      WalkStart(m, start, base, events, faults);
      while i < |events|
        invariant i <= |events|
        invariant Valid() && (pages == old(pages) || fresh(pages))
        invariant passed == |CellsTo(m, events, i)|
        invariant View() == Walked(m, start, base, events, faults, i)
      {
        Visit(events[i], base + passed * PAGE_SIZE, faults[i]);
        WalkStep(m, start, base, events, faults, i);
        passed := passed + |CellsOf(m, events[i])|;
        i := i + 1;
      }
    }

    /** The flush that closes the transfer: nothing stays in the batch, and every reference is given back. */
    method EndOfMapping(f: Fault) returns (ret: int)
      requires Valid()
      modifies this, sock, table
      ensures sock.sent == sentBefore + EncodeFrames(Flush(m, old(View()).(info := old(info).(isEnd := 1)), f).frames)
      ensures table.refs == refsBefore
      ensures ret == if Flush(m, old(View()).(info := old(info).(isEnd := 1)), f).memoryError then -ENOMEM else 0
    {
      hide EncodeFrames, EncodeFrame, EncodeInfo;
      info := info.(isEnd := 1);
      FlushAccumulatedPages(f);
      assert View().batch == [];
      ret := if memoryError then -ENOMEM else 0;
    }
  }

  /**
   The part of `send_pages_to_userspace_tcp` that talks to the server. The socket receives exactly the
   frames of the specification, and every page reference taken is given back, whatever fails on the way.
   */
  method SendPages(m: Machine, sock: KernelSocket, table: PageRefs, info: Info, events: seq<Event>, faults: seq<Fault>)
      returns (ret: int)
    requires |faults| == |events| + 1
    modifies sock, table
    ensures sock.sent == old(sock.sent) + EncodeFrames(Transfer(m, info, events, faults).frames)
    ensures table.refs == old(table.refs)
    ensures ret == if Transfer(m, info, events, faults).memoryError then -12 else 0
  {
    hide EncodeFrames, Walked, Flush;
    var ctx := new WalkCtx(m, sock, table, info);
    ctx.WalkPageRange(events, faults);
    ret := ctx.EndOfMapping(faults[|events|]);
  }
}
