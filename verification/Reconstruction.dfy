/**
 Sender and server together: what the dump of a mapping holds, for the server that keeps its buffer until the
 end frame and for the server as written.
 */
module Reconstruction {
  import opened Basics
  import opened Bytes
  import opened Framing
  import opened PageWalk
  import opened Images
  import opened WalkBounds
  import opened WalkContent
  import opened WalkLosses
  import opened WalkRuns
  import opened WalkOutcome
  import opened TcpServer

  /** Between two mappings: connected, and no buffer held. */
  predicate Idle(s: Server) { s.root.None? && s.status == Running }

  /** One more dump, and its verdict sent back. */
  function Answered(cfg: Config, s: Server, d: Dump): Server
  {
    s.(dumps := s.dumps + [d], replies := s.replies + [cfg.verdict(d)])
  }

  /** A mapping the server can take in: not empty, and within what `mmap` grants. */
  predicate Accepts(cfg: Config, info: Info) { 0 < info.mappingLen <= cfg.limit }

  lemma KeepDataFrame(cfg: Config, info: Info, s: Server, buf: seq<byte>, held: bool, f: Frame)
    requires cfg.keepUntilEnd && Accepts(cfg, info) && Idle(s) && info.isEnd == 0
    requires DataFrame(info, f, info.mappingLen) && |buf| == info.mappingLen && (held || buf == Zeros(|buf|))
    ensures OnFrame(cfg, s.(root := if held then Some(buf) else None), f)
         == s.(root := Some(Place(buf, f.info.mappedAddr, f.payload)))
  {
    hide Place;
    assert Add64(f.info.mappedAddr, f.info.len) == f.info.mappedAddr + f.info.len;
  }

  /** The keeping server collects the data frames of a mapping in one buffer. */
  lemma {:induction false} KeepDataFrames(cfg: Config, info: Info, s: Server, fs: seq<Frame>)
    requires cfg.keepUntilEnd && Accepts(cfg, info) && Idle(s) && info.isEnd == 0
    requires forall i :: 0 <= i < |fs| ==> DataFrame(info, fs[i], info.mappingLen)
    ensures Serve(cfg, s, fs) == s.(root := if fs == [] then None else Some(Placed(fs, info.mappingLen)))
  {
    hide Place, OnFrame, DataFrame;
    if fs != [] {
      var fs', f := fs[..|fs| - 1], fs[|fs| - 1];
      assert fs == fs' + [f];
      KeepDataFrames(cfg, info, s, fs');
      ServeSnoc(cfg, s, fs', f);
      assert DataFrame(info, f, info.mappingLen);
      KeepDataFrame(cfg, info, s, Placed(fs', info.mappingLen), fs' != [], f);
    }
  }

  /** The server as written ends every data frame as it began: nothing of it is kept. */
  lemma {:induction false} ForgetDataFrames(cfg: Config, info: Info, s: Server, fs: seq<Frame>)
    requires !cfg.keepUntilEnd && Accepts(cfg, info) && Idle(s) && info.isEnd == 0
    requires forall i :: 0 <= i < |fs| ==> DataFrame(info, fs[i], info.mappingLen)
    ensures Serve(cfg, s, fs) == s
    decreases |fs|
  {
    hide Place;
    if fs != [] {
      assert DataFrame(info, fs[0], info.mappingLen);
      assert Add64(fs[0].info.mappedAddr, fs[0].info.len) == fs[0].info.mappedAddr + fs[0].info.len;
      assert OnFrame(cfg, s, fs[0]) == s;
      ForgetDataFrames(cfg, info, s, fs[1..]);
    }
  }

  lemma EndFrame(cfg: Config, info: Info, s: Server, buf: seq<byte>, held: bool, f: Frame)
    requires Accepts(cfg, info) && Idle(s) && WellFormed(f) && f.info.isEnd == 1
    requires f.info.mappingLen == info.mappingLen && f.info.mappedAddr + |f.payload| <= info.mappingLen
    requires |buf| == info.mappingLen && (held || buf == Zeros(|buf|))
    ensures OnFrame(cfg, s.(root := if held then Some(buf) else None), f)
         == Answered(cfg, s, Dump(f.info, Place(buf, f.info.mappedAddr, f.payload)))
  {
    assert Add64(f.info.mappedAddr, f.info.len) == f.info.mappedAddr + f.info.len;
    if f.info.len == 0 {
      PlaceNothing(buf, f.info.mappedAddr);
    }
    var root := Place(buf, f.info.mappedAddr, f.payload);
    assert root[..info.mappingLen] == root;
  }

  /** Data frames, then the end frame: what both servers do with a transfer. */
  lemma ServeTransfer(cfg: Config, info: Info, n: nat, s: Server, w: Walk)
    requires Describes(info, n) && Accepts(cfg, info) && Idle(s) && TransferFrames(info, n, w, true)
    ensures var last := w.frames[|w.frames| - 1];
            Serve(cfg, s, w.frames)
            == Answered(cfg, s, Dump(last.info,
                 if cfg.keepUntilEnd then Placed(w.frames, info.mappingLen)
                 else Place(Zeros(info.mappingLen), last.info.mappedAddr, last.payload)))
  {
    hide Place, OnFrame;
    var data, last := w.frames[..|w.frames| - 1], w.frames[|w.frames| - 1];
    assert w.frames == data + [last];
    ServeSnoc(cfg, s, data, last);
    if cfg.keepUntilEnd {
      KeepDataFrames(cfg, info, s, data);
      EndFrame(cfg, info, s, Placed(data, info.mappingLen), data != [], last);
    } else {
      ForgetDataFrames(cfg, info, s, data);
      EndFrame(cfg, info, s, Zeros(info.mappingLen), false, last);
    }
  }

  /** What the server dumps for a transfer. */
  function DumpOf(cfg: Config, w: Walk, size: nat): Dump
    requires w.frames != []
  {
    var last := w.frames[|w.frames| - 1];
    Dump(last.info,
         if cfg.keepUntilEnd then Placed(w.frames, size)
         else Place(Zeros(size), last.info.mappedAddr, last.payload))
  }

  /**
   No frame of a transfer is ever rejected, whatever fails in the kernel: if the end frame is sent, the server
   writes exactly one dump, of the announced length, answers once, and is back at a frame boundary.
   */
  lemma TransferServed(cfg: Config, m: Machine, info: Info, events: seq<Event>, faults: seq<Fault>, s: Server)
    requires |faults| == |events| + 1 && Describes(info, |Cells(m, events)|) && EndSent(m, info, events, faults)
    requires Accepts(cfg, info) && Idle(s)
    ensures var w := Transfer(m, info, events, faults);
            && w.frames != []
            && |DumpOf(cfg, w, info.mappingLen).bytes| == info.mappingLen
            && Consume(cfg, s, EncodeFrames(w.frames))
               == Progress(Answered(cfg, s, DumpOf(cfg, w, info.mappingLen)), [])
  {
    hide Transfer, EncodeFrames, Serve, Consume, Placed, Place;
    var n, w := |Cells(m, events)|, Transfer(m, info, events, faults);
    FramesFit(m, info, events, faults);
    ServeTransfer(cfg, info, n, s, w);
    AllFramesWellFormed(info, n, w);
    ConsumeFrames(cfg, s, w.frames, []);
    assert EncodeFrames(w.frames) + [] == EncodeFrames(w.frames);
    NothingLeft(cfg, Answered(cfg, s, DumpOf(cfg, w, info.mappingLen)));
  }

  lemma EndSentWhenNothingLost(m: Machine, info: Info, events: seq<Event>, faults: seq<Fault>)
    requires |faults| == |events| + 1 && NothingLost(faults)
    ensures EndSent(m, info, events, faults)
  {
  }

  lemma AllFramesWellFormed(info: Info, n: nat, w: Walk)
    requires TransferFrames(info, n, w, true)
    ensures AllWellFormed(w.frames)
  {
    forall i | 0 <= i < |w.frames|
      ensures WellFormed(w.frames[i])
    {
      assert i == |w.frames| - 1 || DataFrame(info, w.frames[i], n * PAGE_SIZE);
    }
  }

  lemma NothingLeft(cfg: Config, s: Server)
    ensures Consume(cfg, s, []) == Progress(s, [])
  {
  }

  // ------------------------------------------------------------------------------------------
  // The dump and the memory of the process
  // ------------------------------------------------------------------------------------------

  /** What the process reads in consecutive pages. */
  function Join(pages: seq<PageBytes>): (s: seq<byte>)
    ensures |s| == |pages| * PAGE_SIZE
  {
    if pages == [] then [] else Join(pages[..|pages| - 1]) + pages[|pages| - 1]
  }

  /** The process reads a sendable page's frame there; nothing is said about the other pages. */
  predicate Agrees(m: Machine, cells: seq<Option<Pfn>>, user: seq<PageBytes>)
  {
    && |user| == |cells|
    && forall k :: 0 <= k < |cells| && cells[k].Some? ==> user[k] == m.mem(cells[k].value)
  }

  lemma {:induction false} ImageIsJoin(m: Machine, cells: seq<Option<Pfn>>, user: seq<PageBytes>)
    requires |user| == |cells|
    ensures Image(m, cells) == Join(user) <==> forall k :: 0 <= k < |cells| ==> CellBytes(m, cells[k]) == user[k]
  {
    if cells != [] {
      var c, u := cells[..|cells| - 1], user[..|user| - 1];
      ImageIsJoin(m, c, u);
      SplitEqual(Image(m, c), CellBytes(m, cells[|c|]), Join(u), user[|u|]);
      assert (forall k :: 0 <= k < |cells| ==> CellBytes(m, cells[k]) == user[k])
        <==> (forall k :: 0 <= k < |c| ==> CellBytes(m, c[k]) == u[k]) && CellBytes(m, cells[|c|]) == user[|c|];
    }
  }

  lemma SplitEqual(a: seq<byte>, b: seq<byte>, c: seq<byte>, d: seq<byte>)
    requires |a| == |c| && |b| == |d|
    ensures a + b == c + d <==> a == c && b == d
  {
    if a + b == c + d {
      assert a == (a + b)[..|a|] == c;
      assert b == (a + b)[|a|..] == d;
    }
  }

  /** An image equals the memory exactly when every page left out reads as zero. */
  lemma ImageIsMemory(m: Machine, cells: seq<Option<Pfn>>, shown: seq<Option<Pfn>>, user: seq<PageBytes>)
    requires Agrees(m, cells, user) && |shown| == |cells|
    requires forall k :: 0 <= k < |cells| ==> shown[k] == cells[k] || shown[k].None?
    ensures Image(m, shown) == Join(user)
       <==> forall k :: 0 <= k < |cells| && shown[k].None? ==> user[k] == Zeros(PAGE_SIZE)
  {
    hide Image, Join;
    ImageIsJoin(m, shown, user);
    forall k | 0 <= k < |cells|
      ensures CellBytes(m, shown[k]) == user[k] <==> (shown[k].None? ==> user[k] == Zeros(PAGE_SIZE))
    {
    }
  }

  /** A run placed behind n pages of zeros. */
  lemma RunImage(m: Machine, n: nat, ps: seq<Pfn>, tail: nat)
    ensures Place(Zeros((n + |ps| + tail) * PAGE_SIZE), n * PAGE_SIZE, m.Vmap(ps))
         == Image(m, Nones(n) + Somes(ps) + Nones(tail))
  {
    hide Image, Place;
    var size := (|ps| + tail) * PAGE_SIZE;
    FlushedImage(m, Nones(n), ps, tail, 0);
    ImageOfNones(m, n);
    ZerosAppend(n * PAGE_SIZE, size);
    assert n * PAGE_SIZE + size == (n + |ps| + tail) * PAGE_SIZE;
    NoZeros(Image(m, Nones(n) + Somes(ps) + Nones(tail)));
  }

  lemma NoZeros(s: seq<byte>)
    ensures s + Zeros(0) == s
  {
  }

  /** The last frame, whose header announces `lo` pages before it, alone among zeros. */
  lemma LastFrameImage(m: Machine, s: seq<Option<Pfn>>, w: Walk, n: nat)
    requires Held(m, s, w, n) && |s| == n
    ensures var lo := w.info.mappedAddr / PAGE_SIZE;
            Place(Zeros(n * PAGE_SIZE), w.info.mappedAddr, m.Vmap(w.batch))
            == Image(m, if w.batch == [] || n < lo then Nones(n) else Nones(lo) + s[lo..])
  {
    hide Image, Place, Placed;
    var front :| Holds(m, s, w, front, n);
    if w.batch == [] {
      PlaceNothing(Zeros(n * PAGE_SIZE), w.info.mappedAddr);
      ImageOfNones(m, n);
    } else {
      var lo, tail := |front|, n - |front| - |w.batch|;
      RunImage(m, lo, w.batch, tail);
      assert w.info.mappedAddr / PAGE_SIZE == lo;
      BehindFront(front, Somes(w.batch), Nones(tail));
    }
  }

  /** What the dump holds, for either server and whatever has failed. */
  lemma DumpIsSeen(cfg: Config, m: Machine, info: Info, events: seq<Event>, faults: seq<Fault>)
    requires |faults| == |events| + 1 && Describes(info, |Cells(m, events)|) && EndSent(m, info, events, faults)
    ensures var w := Transfer(m, info, events, faults);
            w.frames != []
            && DumpOf(cfg, w, info.mappingLen).bytes == Image(m, Seen(cfg.keepUntilEnd, m, info, events, faults))
  {
    hide Image, Place, Placed, Walked, Shown, CellsTo;
    var n, w := |Cells(m, events)|, At(m, info, events, faults, |events|);
    if cfg.keepUntilEnd {
      CarriedContent(m, info, events, faults);
    } else {
      WalkedShown(m, info, n, events, faults, |events|);
      LastFrameImage(m, Shown(m, info, events, faults, |events|), w, n);
    }
  }

  /**
   Reconstruction, for either server and whatever fails on the way, as long as the end frame is sent: there is one
   dump, it shows exactly the cells seen - which follow from the page walk and its failures - and it equals the
   process's memory exactly when every page not seen reads as zero.
   */
  lemma ReconstructionExact(cfg: Config, m: Machine, info: Info, events: seq<Event>, faults: seq<Fault>,
                            user: seq<PageBytes>, s: Server)
    requires |faults| == |events| + 1 && Describes(info, |Cells(m, events)|) && EndSent(m, info, events, faults)
    requires Accepts(cfg, info) && Idle(s) && Agrees(m, Cells(m, events), user)
    ensures var seen := Seen(cfg.keepUntilEnd, m, info, events, faults);
            var w := Transfer(m, info, events, faults);
            && w.frames != []
            && var d := DumpOf(cfg, w, info.mappingLen);
               && Consume(cfg, s, EncodeFrames(w.frames)) == Progress(Answered(cfg, s, d), [])
               && d.bytes == Image(m, seen)
               && (d.bytes == Join(user)
                   <==> forall k :: 0 <= k < |seen| && seen[k].None? ==> user[k] == Zeros(PAGE_SIZE))
  {
    hide Transfer, Consume, Image, Join, EncodeFrames, EndSent, CellsTo, Seen, DumpOf, Describes;
    TransferServed(cfg, m, info, events, faults, s);
    DumpIsSeen(cfg, m, info, events, faults);
    SeenBelow(cfg.keepUntilEnd, m, info, events, faults);
    ImageIsMemory(m, Cells(m, events), Seen(cfg.keepUntilEnd, m, info, events, faults), user);
  }

  /**
   The server as written goes on as before when the end frame of a transfer is lost: it has kept none of the frames.
   */
  lemma LostEndForgotten(cfg: Config, m: Machine, info: Info, events: seq<Event>, faults: seq<Fault>, s: Server)
    requires |faults| == |events| + 1 && Describes(info, |Cells(m, events)|) && !EndSent(m, info, events, faults)
    requires !cfg.keepUntilEnd && Accepts(cfg, info) && Idle(s)
    ensures Consume(cfg, s, EncodeFrames(Transfer(m, info, events, faults).frames)) == Progress(s, [])
  {
    hide Transfer, EncodeFrames, Consume, EndSent, CellsTo;
    var n, w := |Cells(m, events)|, Transfer(m, info, events, faults);
    FramesFit(m, info, events, faults);
    ForgetDataFrames(cfg, info, s, w.frames);
    DataFramesWellFormed(info, n, w.frames);
    hide Serve;
    ConsumeFrames(cfg, s, w.frames, []);
    assert EncodeFrames(w.frames) + [] == EncodeFrames(w.frames);
    NothingLeft(cfg, s);
  }

  lemma DataFramesWellFormed(info: Info, n: nat, fs: seq<Frame>)
    requires forall i :: 0 <= i < |fs| ==> DataFrame(info, fs[i], n * PAGE_SIZE)
    ensures AllWellFormed(fs)
  {
  }

  // ------------------------------------------------------------------------------------------
  // Which cells are seen
  // ------------------------------------------------------------------------------------------

  /** Without a failed allocation the server that keeps its buffer shows every sendable page. */
  lemma KeptShowsAll(m: Machine, info: Info, events: seq<Event>, faults: seq<Fault>)
    requires |faults| == |events| + 1 && Describes(info, |Cells(m, events)|)
    requires NothingLost(faults) && AlwaysGrows(faults)
    ensures Seen(true, m, info, events, faults) == Cells(m, events)
  {
    hide Carried, Heeded, CellsTo, Describes;
    CarriedIsHeeded(m, info, events, faults);
    GrowingKeepsAll(m, info, events, faults);
  }

  /**
   The server that keeps its buffer, without a failed allocation: the dump is the image of the sendable pages,
   whatever the pattern of pages; it equals the memory exactly when every page that was not sent reads as zero - as
   every untouched page of an anonymous mapping does.
   */
  lemma ReconstructionKept(cfg: Config, m: Machine, info: Info, events: seq<Event>, faults: seq<Fault>,
                           user: seq<PageBytes>, s: Server)
    requires |faults| == |events| + 1 && Describes(info, |Cells(m, events)|)
    requires NothingLost(faults) && AlwaysGrows(faults)
    requires cfg.keepUntilEnd && Accepts(cfg, info) && Idle(s) && Agrees(m, Cells(m, events), user)
    ensures var cells := Cells(m, events);
            var w := Transfer(m, info, events, faults);
            && w.frames != []
            && var d := DumpOf(cfg, w, info.mappingLen);
               && Consume(cfg, s, EncodeFrames(w.frames)) == Progress(Answered(cfg, s, d), [])
               && d.bytes == Image(m, cells)
               && (d.bytes == Join(user)
                   <==> forall k :: 0 <= k < |cells| && cells[k].None? ==> user[k] == Zeros(PAGE_SIZE))
  {
    hide Transfer, Consume, Image, Join, EncodeFrames, EndSent, CellsTo, Seen, DumpOf, Describes, Accepts, Agrees;
    EndSentWhenNothingLost(m, info, events, faults);
    KeptShowsAll(m, info, events, faults);
    ReconstructionExact(cfg, m, info, events, faults, user, s);
  }

  /**
   Unless growing fails: a server that keeps its buffer dumps exactly the runs whose flush found memory, and the server
   as written the run that reaches the end of the range, whichever runs before it were lost.
   */
  lemma ReconstructionUnderLosses(cfg: Config, m: Machine, info: Info, events: seq<Event>, faults: seq<Fault>)
    requires |faults| == |events| + 1 && Describes(info, |Cells(m, events)|) && EndSent(m, info, events, faults)
    requires !Transfer(m, info, events, faults).memoryError && (cfg.keepUntilEnd || Positive(events))
    ensures var w, cells := Transfer(m, info, events, faults), Cells(m, events);
            w.frames != []
            && DumpOf(cfg, w, info.mappingLen).bytes
               == Image(m, if cfg.keepUntilEnd then Delivered(m, events, faults, |events|, |events|)
                           else LastOnly(cells, Trailing(cells)))
  {
    hide Transfer, Image, EndSent, CellsTo, DumpOf, Describes, Seen, Delivered, LastOnly, Trailing, GrowthFailsAt;
    DumpIsSeen(cfg, m, info, events, faults);
    SeenIsClosed(cfg.keepUntilEnd, m, info, events, faults);
  }

  /**
   After a growth failure at callback k, whichever flushes find no memory: a server that keeps its buffer dumps the runs
   before the page of k and that page, each if its flush found memory; the server as written dumps that page alone, or
   nothing when a hole comes right behind it.
   */
  lemma ReconstructionAfterGrowthFailure(cfg: Config, m: Machine, info: Info, events: seq<Event>, faults: seq<Fault>,
                                         k: nat)
    requires |faults| == |events| + 1 && Describes(info, |Cells(m, events)|) && EndSent(m, info, events, faults)
    requires k < |events| && GrowthFailsAt(m, info, events, faults, k)
    ensures SendsAt(m, events, k)
    ensures var w := Transfer(m, info, events, faults);
            w.frames != []
            && DumpOf(cfg, w, info.mappingLen).bytes
               == Image(m, if cfg.keepUntilEnd then Broken(m, events, faults, k) else BrokenLast(m, events, k))
  {
    hide Transfer, Image, GrowthFailsAt, EndSent, CellsTo, DumpOf, Describes, Carried, LastCarried, Broken, BrokenLast;
    DumpIsSeen(cfg, m, info, events, faults);
    CarriedIsBroken(m, info, events, faults, k);
    LastCarriedIsBroken(m, info, events, faults, k);
  }

  /** With no flush lost, the server that keeps its buffer dumps the pages up to and including that of k. */
  lemma KeptUpToGrowthFailure(m: Machine, info: Info, events: seq<Event>, faults: seq<Fault>, k: nat)
    requires |faults| == |events| + 1 && Describes(info, |Cells(m, events)|) && NothingLost(faults)
    requires k < |events| && GrowthFailsAt(m, info, events, faults, k)
    ensures SendsAt(m, events, k)
    ensures Broken(m, events, faults, k) == Padded(CellsTo(m, events, k + 1), |Cells(m, events)|)
  {
    hide GrowthFailsAt, CellsTo, Heeded, Carried, Broken, Describes;
    CarriedIsBroken(m, info, events, faults, k);
    CarriedIsHeeded(m, info, events, faults);
    GrowthFailure(m, info, events, faults);
  }

  /**
   The server as written: unless growing fails, and whichever flushes before the last one find no memory, the dump holds
   the payload of the end frame and zeros elsewhere: the run of sendable pages that reaches the end of the range. It
   equals the process's memory exactly when every page before that run reads as zero.
   */
  lemma ReconstructionAsWritten(cfg: Config, m: Machine, info: Info, events: seq<Event>, faults: seq<Fault>,
                                user: seq<PageBytes>, s: Server)
    requires |faults| == |events| + 1 && Describes(info, |Cells(m, events)|) && EndSent(m, info, events, faults)
    requires !Transfer(m, info, events, faults).memoryError && Positive(events)
    requires !cfg.keepUntilEnd && Accepts(cfg, info) && Idle(s) && Agrees(m, Cells(m, events), user)
    ensures var cells := Cells(m, events);
            var w := Transfer(m, info, events, faults);
            && w.frames != []
            && var d := DumpOf(cfg, w, info.mappingLen);
               && Consume(cfg, s, EncodeFrames(w.frames)) == Progress(Answered(cfg, s, d), [])
               && d.bytes == Image(m, LastOnly(cells, Trailing(cells)))
               && (d.bytes == Join(user)
                   <==> forall k :: 0 <= k < |cells| - Trailing(cells) ==> user[k] == Zeros(PAGE_SIZE))
  {
    hide Transfer, Consume, Image, Join, EncodeFrames, EndSent, CellsTo, Seen, DumpOf, Describes, Accepts,
      GrowthFailsAt;
    SeenIsClosed(false, m, info, events, faults);
    ReconstructionExact(cfg, m, info, events, faults, user, s);
    BeforeTrailing(Cells(m, events), user);
  }

  lemma BeforeTrailing(cells: seq<Option<Pfn>>, user: seq<PageBytes>)
    requires |user| == |cells|
    ensures var t := Trailing(cells);
            var seen := LastOnly(cells, t);
            (forall k :: 0 <= k < |seen| && seen[k].None? ==> user[k] == Zeros(PAGE_SIZE))
            <==> forall k :: 0 <= k < |cells| - t ==> user[k] == Zeros(PAGE_SIZE)
  {
    hide Trailing, Zeros;
    var t := Trailing(cells);
    var seen := LastOnly(cells, t);
    assert forall k :: 0 <= k < |seen| ==> (seen[k].None? <==> k < |cells| - t);
  }

  /**
   The single frame of `send_bpf_data_tcp`: the program is offset 0, length and end in one frame, and both servers
   dump it exactly.
   */
  lemma BpfExact(cfg: Config, info: Info, prog: seq<byte>, s: Server)
    requires info.mappedAddr == 0 && info.len == info.mappingLen == |prog| && info.isEnd == 1
    requires Accepts(cfg, info) && Idle(s)
    ensures Consume(cfg, s, EncodeFrame(Frame(info, prog))) == Progress(Answered(cfg, s, Dump(info, prog)), [])
  {
    hide Consume, EncodeInfo, OnFrame, Serve;
    var f := Frame(info, prog);
    EndFrame(cfg, info, s, Zeros(|prog|), false, f);
    assert Place(Zeros(|prog|), 0, prog) == prog;
    assert s.(root := None) == s;
    ServeOne(cfg, s, f);
    ConsumeFrames(cfg, s, [f], []);
    EncodeFramesSnoc([], f);
    assert EncodeFrames([f]) + [] == EncodeFrame(f) by {
      assert [] + [f] == [f];
    }
    NothingLeft(cfg, Answered(cfg, s, Dump(info, prog)));
  }

  lemma ServeOne(cfg: Config, s: Server, f: Frame)
    ensures Serve(cfg, s, [f]) == OnFrame(cfg, s, f)
  {
    hide OnFrame;
    ServeSnoc(cfg, s, [], f);
    assert [] + [f] == [f];
  }
}
