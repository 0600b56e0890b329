/**
 A single-threaded process under the W^X filter, its anonymous memory, and the hooks that snapshot it: in every
 reachable state no page is writable and executable, and it is exactly determined when every executable page is known as
 it is - to the sender, from what the most recent transfer carried, and to the server, from the most recent dump.

 A transfer is the page walk with its failures, the frames, the byte stream, the server and its reply; the server may
 be the one that keeps its buffer or the one as written.
 */
module WxSnapshot {
  import opened Basics
  import opened Bytes
  import opened Framing
  import opened PageWalk
  import opened Images
  import opened WalkBounds
  import opened WalkLosses
  import opened WalkOutcome
  import opened TcpServer
  import opened Reconstruction
  import opened Replies
  import opened Session

  const EINVAL: int := 22

  /** PROT_WRITE and PROT_EXEC in a protection mask. */
  predicate Writable(prot: nat) { prot / 2 % 2 == 1 }

  predicate Executable(prot: nat) { prot / 4 % 2 == 1 }

  /** SCMP_CMP_MASKED_EQ with mask and value PROT_WRITE | PROT_EXEC: the bits of 6 in `prot` equal 6. */
  predicate MaskedWx(prot: nat) { prot / 2 % 4 == 3 }

  /** The masked comparison denies exactly the requests for both rights. */
  lemma FilterDeniesWx(prot: nat)
    ensures MaskedWx(prot) <==> Writable(prot) && Executable(prot)
  {
    var q := prot / 2;
    assert q == 4 * (q / 4) + q % 4;
    assert q / 2 == 2 * (q / 4) + (q % 4) / 2;
    assert prot / 4 == q / 2;
  }

  /** A mapped page: its rights, its bytes once it has been written, and whether the zero page stands in for it. */
  datatype Page = Page(prot: nat, bytes: Option<PageBytes>, zeroPage: bool)

  type Space = map<nat, Page>

  predicate Touched(space: Space, p: nat) { p in space && space[p].bytes.Some? }

  /** What the process reads in page p. */
  function UserPage(space: Space, p: nat): PageBytes
  {
    if Touched(space, p) then space[p].bytes.value else Zeros(PAGE_SIZE)
  }

  /** There is a page-table entry: the page has been written, or read while it was untouched. */
  predicate Present(space: Space, p: nat) { p in space && (space[p].bytes.Some? || space[p].zeroPage) }

  /** The process's pages as page frames; a page that has only been read is the zero page. */
  function MachineOf(space: Space): Machine
  {
    Machine(set p | p in space && Present(space, p) && !Touched(space, p), set p | p in space && Present(space, p),
            (p: nat) => UserPage(space, p))
  }

  function RangeCells(space: Space, start: nat, n: nat): (s: seq<Option<Pfn>>)
    ensures |s| == n
  {
    seq(n, (i: nat) => if Touched(space, start + i) then Some(start + i) else None)
  }

  /**
   The process's memory, the connection, and what the sender could have noted down: what each transfer carried, placed
   in zeros.
   */
  datatype System = System(space: Space, link: Link, carried: seq<Dump>)

  /** How a hook call goes: the callbacks of its page walk, their failures, and what the connection does. */
  datatype WalkPlan = WalkPlan(events: seq<Event>, faults: seq<Fault>, tag: Info, choice: Choice)

  /** A request on the n pages from `start`. */
  datatype Range = Range(start: nat, n: nat)

  /** An mprotect action is one round of the loop over the areas of its range, for the n pages from `from`. */
  datatype Action =
    | Mmap(r: Range, prot: nat, plan: WalkPlan)
    | Mprotect(r: Range, from: nat, n: nat, prot: nat, plan: WalkPlan)
    | PkeyMprotect(r: Range, from: nat, n: nat, prot: nat, plan: WalkPlan)
    | Load(page: nat)
    | Store(page: nat, bytes: PageBytes)
    | Munmap(r: Range)

  /** The header `set_mapping_info` builds for a range. */
  function RangeInfo(r: Range, prot: nat, tag: Info): Info
    requires (r.start + r.n) * PAGE_SIZE < U64_LIMIT && prot < U64_LIMIT
  {
    tag.(initAddr := r.start * PAGE_SIZE, mappedAddr := 0, mappingLen := r.n * PAGE_SIZE, len := 0, prot := prot,
         isEnd := 0)
  }

  predicate GoodRange(cfg: Config, r: Range, prot: nat)
  {
    && 0 < r.n && (r.start + r.n) * PAGE_SIZE < U64_LIMIT && prot < U64_LIMIT
    && r.n * PAGE_SIZE <= cfg.limit
  }

  /** The walk sees the range as it is; any of its allocations may fail. */
  predicate GoodPlan(space: Space, r: Range, plan: WalkPlan)
  {
    Cells(MachineOf(space), plan.events) == RangeCells(space, r.start, r.n) && |plan.faults| == |plan.events| + 1
  }

  function CallOf(space: Space, r: Range, prot: nat, plan: WalkPlan): Call
    requires (r.start + r.n) * PAGE_SIZE < U64_LIMIT && prot < U64_LIMIT
  {
    Pages(MachineOf(space), RangeInfo(r, prot, plan.tag), plan.events, plan.faults)
  }

  /** The guards of the hook for the target process, with the socket connected and the memory anonymous. */
  predicate PassesGuards(r: Range, prot: nat) { r.start != 0 && (Executable(prot) || Writable(prot)) }

  /** The hook can run like this, and returns: a call that hangs has no next state. */
  ghost predicate HookReady(cfg: Config, s: System, r: Range, prot: nat, plan: WalkPlan)
  {
    && GoodRange(cfg, r, prot) && GoodPlan(s.space, r, plan)
    && (PassesGuards(r, prot) ==>
          var c := CallOf(s.space, r, prot, plan);
          Callable(cfg, s.link, c, plan.choice) && !CallHook(cfg, s.link, c, plan.choice).outcome.Waiting?)
  }

  datatype HookResult = HookResult(link: Link, carried: seq<Dump>, error: int)

  /** `send_pages_to_userspace_tcp`: the address check, the check of the rights, the transfer, and the reply. */
  ghost function Hook(cfg: Config, s: System, r: Range, prot: nat, plan: WalkPlan): HookResult
    requires HookReady(cfg, s, r, prot, plan)
  {
    if r.start == 0 then HookResult(s.link, s.carried, -EINVAL)
    else if !Executable(prot) && !Writable(prot) then HookResult(s.link, s.carried, SKIPPED)
    else
      var c := CallOf(s.space, r, prot, plan);
      var called := CallHook(cfg, s.link, c, plan.choice);
      var frames := Transfer(c.m, c.info, c.events, c.faults).frames;
      HookResult(called.link, s.carried + [Dump(c.info, Placed(frames, r.n * PAGE_SIZE))],
                 if called.outcome.Returned? then called.outcome.value else SKIPPED)
  }

  function PagesFrom(start: nat, n: nat): (s: set<nat>)
    ensures forall p :: p in s <==> start <= p < start + n
  {
    if n == 0 then {} else PagesFrom(start, n - 1) + {start + n - 1}
  }

  /** A mapping of untouched pages, in place of whatever was there. */
  function MapFresh(space: Space, r: Range, prot: nat): (s: Space)
    ensures forall p :: p in s <==> p in space || r.start <= p < r.start + r.n
    ensures forall p :: p in s ==> s[p] == if r.start <= p < r.start + r.n then Page(prot, None, false) else space[p]
  {
    space + map p | p in PagesFrom(r.start, r.n) :: Page(prot, None, false)
  }

  /** Changes the rights of the mapped pages from `lo` up to `hi`. */
  function Protect(space: Space, lo: nat, hi: nat, prot: nat): (s: Space)
    ensures s.Keys == space.Keys
    ensures forall p :: p in s ==> s[p] == if lo <= p < hi then space[p].(prot := prot) else space[p]
  {
    map p | p in space :: if lo <= p < hi then space[p].(prot := prot) else space[p]
  }

  predicate Mapped(space: Space, lo: nat, hi: nat) { forall p :: lo <= p < hi ==> p in space }

  /** The area of a round lies in the range, and is mapped. */
  predicate IsArea(space: Space, r: Range, from: nat, n: nat)
  {
    r.start <= from && from + n <= r.start + r.n && Mapped(space, from, from + n)
  }

  /** One round of the loop of `do_mprotect_pkey`: the hook first, then the change, which an error prevents. */
  ghost function ProtectArea(cfg: Config, s: System, r: Range, from: nat, n: nat, prot: nat, plan: WalkPlan): System
    requires HookReady(cfg, s, r, prot, plan)
  {
    if !IsArea(s.space, r, from, n) then s
    else
      var h := Hook(cfg, s, r, prot, plan);
      System(if h.error == 0 then Protect(s.space, from, from + n, prot) else s.space, h.link, h.carried)
  }

  /** What the kernel and the machine demand of an action before it can happen at all. */
  ghost predicate Enabled(cfg: Config, s: System, a: Action)
  {
    match a
    case Mmap(r, prot, plan) => MaskedWx(prot) || HookReady(cfg, s.(space := MapFresh(s.space, r, prot)), r, prot, plan)
    case Mprotect(r, _, _, prot, plan) => MaskedWx(prot) || HookReady(cfg, s, r, prot, plan)
    case PkeyMprotect(r, _, _, prot, plan) => MaskedWx(prot) || HookReady(cfg, s, r, prot, plan)
    case Load(p) => p in s.space
    case Store(p, _) => p in s.space && Writable(s.space[p].prot)
    case Munmap(_) => true
  }

  ghost function Step(cfg: Config, s: System, a: Action): System
    requires Enabled(cfg, s, a)
  {
    match a
    case Mmap(r, prot, plan) =>
      // The mapping exists before the hook runs, and stays whatever the hook returns.
      if MaskedWx(prot) then s
      else
        var mapped := s.(space := MapFresh(s.space, r, prot));
        var h := Hook(cfg, mapped, r, prot, plan);
        System(mapped.space, h.link, h.carried)
    case Mprotect(r, from, n, prot, plan) =>
      if MaskedWx(prot) then s else ProtectArea(cfg, s, r, from, n, prot, plan)
    case PkeyMprotect(r, from, n, prot, plan) =>
      if MaskedWx(prot) then s else ProtectArea(cfg, s, r, from, n, prot, plan)
    case Load(p) => s.(space := s.space[p := s.space[p].(zeroPage := s.space[p].zeroPage || s.space[p].bytes.None?)])
    case Store(p, bytes) => s.(space := s.space[p := s.space[p].(bytes := Some(bytes), zeroPage := false)])
    case Munmap(r) => s.(space := map p | p in s.space && !(r.start <= p < r.start + r.n) :: s.space[p])
  }

  // ------------------------------------------------------------------------------------------
  // The most recent dump of a page
  // ------------------------------------------------------------------------------------------

  predicate CoversPage(d: Dump, p: nat)
  {
    && d.info.initAddr <= p * PAGE_SIZE
    && (p + 1) * PAGE_SIZE <= d.info.initAddr + |d.bytes|
  }

  function PageOf(d: Dump, p: nat): PageBytes
    requires CoversPage(d, p)
  {
    d.bytes[p * PAGE_SIZE - d.info.initAddr..(p + 1) * PAGE_SIZE - d.info.initAddr]
  }

  /** What the most recent dump that covers page p says it holds. */
  function Latest(dumps: seq<Dump>, p: nat): Option<PageBytes>
  {
    if dumps == [] then None
    else
      var d := dumps[|dumps| - 1];
      if CoversPage(d, p) then Some(PageOf(d, p)) else Latest(dumps[..|dumps| - 1], p)
  }

  lemma LatestSnoc(dumps: seq<Dump>, d: Dump, p: nat)
    ensures Latest(dumps + [d], p) == if CoversPage(d, p) then Some(PageOf(d, p)) else Latest(dumps, p)
  {
    assert (dumps + [d])[..|dumps|] == dumps;
  }

  // ------------------------------------------------------------------------------------------
  // One hook
  // ------------------------------------------------------------------------------------------

  /** Who knows the memory: the sender from what its transfers carried, or the server from its dumps. */
  datatype Observer = Sender | Receiver

  function Log(o: Observer, link: Link, carried: seq<Dump>): seq<Dump>
  {
    if o.Sender? then carried else link.server.dumps
  }

  /** The hook adds to the observer's log. */
  predicate Logged(o: Observer, space: Space, r: Range, prot: nat, plan: WalkPlan)
    requires (r.start + r.n) * PAGE_SIZE < U64_LIMIT && prot < U64_LIMIT && |plan.faults| == |plan.events| + 1
  {
    PassesGuards(r, prot) && (o.Sender? || Ends(CallOf(space, r, prot, plan)))
  }

  /** The cells that the observer sees of the range, which follow from the page walk and its failures. */
  function Visible(o: Observer, cfg: Config, space: Space, r: Range, prot: nat, plan: WalkPlan): (s: seq<Option<Pfn>>)
    requires (r.start + r.n) * PAGE_SIZE < U64_LIMIT && prot < U64_LIMIT && GoodPlan(space, r, plan)
    ensures |s| == r.n
  {
    Seen(o.Sender? || cfg.keepUntilEnd, MachineOf(space), RangeInfo(r, prot, plan.tag), plan.events, plan.faults)
  }

  /** What a hook that passes the guards adds to a log. */
  lemma HookLogs(o: Observer, cfg: Config, s: System, r: Range, prot: nat, plan: WalkPlan) returns (d: Dump)
    requires HookReady(cfg, s, r, prot, plan) && PassesGuards(r, prot) && Idle(s.link.server)
    ensures var h, log := Hook(cfg, s, r, prot, plan), Log(o, s.link, s.carried);
            Log(o, h.link, h.carried) == if Logged(o, s.space, r, prot, plan) then log + [d] else log
    ensures Logged(o, s.space, r, prot, plan) ==>
              && d.info.initAddr == r.start * PAGE_SIZE
              && d.bytes == Image(MachineOf(s.space), Visible(o, cfg, s.space, r, prot, plan))
    ensures Idle(Hook(cfg, s, r, prot, plan).link.server)
  {
    hide Transfer, Consume, Image, Placed, RangeCells, CellsTo, Carried, MachineOf, EndSent, Stream, Possible;
    var c := CallOf(s.space, r, prot, plan);
    CallLinks(cfg, s.link, c, plan.choice);
    if o.Sender? {
      CarriedContent(c.m, c.info, c.events, c.faults);
      d := Dump(c.info, Placed(Transfer(c.m, c.info, c.events, c.faults).frames, r.n * PAGE_SIZE));
    } else if Ends(c) {
      DumpIsSeen(cfg, c.m, c.info, c.events, c.faults);
      DumpAddress(cfg, c);
      d := DumpFor(cfg, c);
    } else {
      d := Dump(c.info, []);
    }
  }

  /** What a call does to the server's dumps. */
  lemma CallLinks(cfg: Config, s: Link, c: Call, e: Choice)
    requires Callable(cfg, s, c, e) && Idle(s.server)
    ensures var link := CallHook(cfg, s, c, e).link;
            && Idle(link.server)
            && link.server.dumps == s.server.dumps + (if Ends(c) then [DumpFor(cfg, c)] else [])
  {
    hide Consume, OutOfMemory, Stream, Ends, Idle, EndRound, AfterRounds, Arrived, DumpFor;
    CallServed(cfg, s.server, c);
  }

  /** The end frame announces the range's address. */
  lemma DumpAddress(cfg: Config, c: Call)
    requires Proper(cfg, c) && Ends(c) && c.Pages?
    ensures DumpFor(cfg, c).info.initAddr == c.info.initAddr
  {
    hide Transfer, EndSent, CellsTo;
    FramesFit(c.m, c.info, c.events, c.faults);
  }

  lemma SeenInRange(log: seq<Dump>, d: Dump, m: Machine, seen: seq<Option<Pfn>>, r: Range, p: nat)
    requires d.info.initAddr == r.start * PAGE_SIZE && d.bytes == Image(m, seen) && |seen| == r.n
    ensures Latest(log + [d], p)
         == if r.start <= p < r.start + r.n then Some(CellBytes(m, seen[p - r.start])) else Latest(log, p)
  {
    hide Image, CellBytes, Latest;
    LatestSnoc(log, d, p);
    if r.start <= p < r.start + r.n {
      ImageAt(m, seen, p - r.start);
      assert p * PAGE_SIZE - d.info.initAddr == (p - r.start) * PAGE_SIZE;
    }
  }

  /** A cell shows the page as it is exactly when the page is seen, or reads as zero. */
  lemma CellShowsPage(space: Space, r: Range, seen: seq<Option<Pfn>>, p: nat)
    requires Below(seen, RangeCells(space, r.start, r.n)) && r.start <= p < r.start + r.n
    ensures CellBytes(MachineOf(space), seen[p - r.start]) == UserPage(space, p)
       <==> seen[p - r.start].Some? || UserPage(space, p) == Zeros(PAGE_SIZE)
  {
    hide Zeros;
    var k := p - r.start;
    assert seen[k].Some? ==> seen[k] == RangeCells(space, r.start, r.n)[k] == Some(p);
  }

  /** Whether page p is known as it is after the hook, in terms of what there is before it. */
  ghost predicate KnownAfter(o: Observer, cfg: Config, s: System, r: Range, prot: nat, plan: WalkPlan, p: nat)
    requires HookReady(cfg, s, r, prot, plan)
  {
    if Logged(o, s.space, r, prot, plan) && r.start <= p < r.start + r.n then
      Visible(o, cfg, s.space, r, prot, plan)[p - r.start].Some? || UserPage(s.space, p) == Zeros(PAGE_SIZE)
    else Latest(Log(o, s.link, s.carried), p) == Some(UserPage(s.space, p))
  }

  /**
   One hook, exactly, for either observer and either server and whatever fails: a page of the range is known as it is
   exactly when it is seen or reads as zero, and the other pages are known exactly when they were before.
   */
  lemma HookExact(o: Observer, cfg: Config, s: System, r: Range, prot: nat, plan: WalkPlan, p: nat)
    requires HookReady(cfg, s, r, prot, plan) && Idle(s.link.server)
    ensures var h := Hook(cfg, s, r, prot, plan);
            && Idle(h.link.server)
            && (Latest(Log(o, h.link, h.carried), p) == Some(UserPage(s.space, p))
                <==> KnownAfter(o, cfg, s, r, prot, plan, p))
  {
    hide Image, Latest, UserPage, MachineOf, RangeCells, CellsTo, Seen, Callable, CallHook, CellBytes;
    if PassesGuards(r, prot) {
      hide Visible, Hook, Log;
      var d := HookLogs(o, cfg, s, r, prot, plan);
      if Logged(o, s.space, r, prot, plan) {
        EntryExact(o, cfg, s, r, prot, plan, p, d);
      }
    }
  }

  /** The same for the entry that the hook adds. */
  lemma EntryExact(o: Observer, cfg: Config, s: System, r: Range, prot: nat, plan: WalkPlan, p: nat, d: Dump)
    requires HookReady(cfg, s, r, prot, plan) && Logged(o, s.space, r, prot, plan)
    requires d.info.initAddr == r.start * PAGE_SIZE
    requires d.bytes == Image(MachineOf(s.space), Visible(o, cfg, s.space, r, prot, plan))
    ensures Latest(Log(o, s.link, s.carried) + [d], p) == Some(UserPage(s.space, p))
       <==> KnownAfter(o, cfg, s, r, prot, plan, p)
  {
    hide Image, Latest, UserPage, MachineOf, RangeCells, CellsTo, Visible, Callable, CallHook, CellBytes, Log;
    var seen := Visible(o, cfg, s.space, r, prot, plan);
    VisibleBelow(o, cfg, s.space, r, prot, plan);
    SeenInRange(Log(o, s.link, s.carried), d, MachineOf(s.space), seen, r, p);
    if r.start <= p < r.start + r.n {
      CellShowsPage(s.space, r, seen, p);
    }
  }

  lemma VisibleBelow(o: Observer, cfg: Config, space: Space, r: Range, prot: nat, plan: WalkPlan)
    requires (r.start + r.n) * PAGE_SIZE < U64_LIMIT && prot < U64_LIMIT && GoodPlan(space, r, plan)
    ensures Below(Visible(o, cfg, space, r, prot, plan), RangeCells(space, r.start, r.n))
  {
    hide Seen, RangeCells, MachineOf, CellsTo, Below;
    SeenBelow(o.Sender? || cfg.keepUntilEnd, MachineOf(space), RangeInfo(r, prot, plan.tag), plan.events, plan.faults);
  }

  // ------------------------------------------------------------------------------------------
  // Steps
  // ------------------------------------------------------------------------------------------

  /** The server is idle, and no page is both writable and executable. */
  predicate WxSafe(s: System)
  {
    Idle(s.link.server) && forall p :: p in s.space ==> !(Writable(s.space[p].prot) && Executable(s.space[p].prot))
  }

  /** Every executable page is known as it is. */
  predicate Known(o: Observer, s: System)
  {
    forall p :: p in s.space && Executable(s.space[p].prot) ==>
      Latest(Log(o, s.link, s.carried), p) == Some(UserPage(s.space, p))
  }

  /** Whether a page is executable after a round. */
  ghost predicate ExecutableAfter(cfg: Config, s: System, r: Range, from: nat, n: nat, prot: nat, plan: WalkPlan,
                                  p: nat)
    requires HookReady(cfg, s, r, prot, plan) && p in s.space
  {
    Executable(if Hook(cfg, s, r, prot, plan).error == 0 && from <= p < from + n then prot else s.space[p].prot)
  }

  /** The pages of the range that a round leaves executable are known as they are. */
  ghost predicate AreaKnown(o: Observer, cfg: Config, s: System, r: Range, from: nat, n: nat, prot: nat, plan: WalkPlan)
    requires HookReady(cfg, s, r, prot, plan)
  {
    IsArea(s.space, r, from, n) ==>
      forall p :: p in s.space && r.start <= p < r.start + r.n && ExecutableAfter(cfg, s, r, from, n, prot, plan, p) ==>
        KnownAfter(o, cfg, s, r, prot, plan, p)
  }

  /** The condition under which an action keeps every executable page known as it is. */
  ghost predicate Keeps(o: Observer, cfg: Config, s: System, a: Action)
    requires Enabled(cfg, s, a)
  {
    match a
    case Mmap(r, prot, plan) =>
      MaskedWx(prot) || !Executable(prot)
      || forall p :: r.start <= p < r.start + r.n ==>
           KnownAfter(o, cfg, s.(space := MapFresh(s.space, r, prot)), r, prot, plan, p)
    case Mprotect(r, from, n, prot, plan) => MaskedWx(prot) || AreaKnown(o, cfg, s, r, from, n, prot, plan)
    case PkeyMprotect(r, from, n, prot, plan) => MaskedWx(prot) || AreaKnown(o, cfg, s, r, from, n, prot, plan)
    case Load(_) => true
    case Store(_, _) => true
    case Munmap(_) => true
  }

  lemma MmapExact(o: Observer, cfg: Config, s: System, r: Range, prot: nat, plan: WalkPlan)
    requires !MaskedWx(prot) && HookReady(cfg, s.(space := MapFresh(s.space, r, prot)), r, prot, plan)
    requires WxSafe(s) && Known(o, s)
    ensures Known(o, Step(cfg, s, Mmap(r, prot, plan))) <==> Keeps(o, cfg, s, Mmap(r, prot, plan))
  {
    hide Latest, Hook, HookReady, Log, KnownAfter;
    var mapped := s.(space := MapFresh(s.space, r, prot));
    var s' := Step(cfg, s, Mmap(r, prot, plan));
    forall p: nat
      ensures Latest(Log(o, s'.link, s'.carried), p) == Some(UserPage(mapped.space, p))
         <==> KnownAfter(o, cfg, mapped, r, prot, plan, p)
    {
      HookExact(o, cfg, mapped, r, prot, plan, p);
    }
    forall p: nat | !(r.start <= p < r.start + r.n)
      ensures KnownAfter(o, cfg, mapped, r, prot, plan, p)
         <==> Latest(Log(o, s.link, s.carried), p) == Some(UserPage(s.space, p))
    {
      KnownOutside(o, cfg, mapped, r, prot, plan, p);
    }
  }

  lemma KnownOutside(o: Observer, cfg: Config, s: System, r: Range, prot: nat, plan: WalkPlan, p: nat)
    requires HookReady(cfg, s, r, prot, plan) && !(r.start <= p < r.start + r.n)
    ensures KnownAfter(o, cfg, s, r, prot, plan, p)
       <==> Latest(Log(o, s.link, s.carried), p) == Some(UserPage(s.space, p))
  {
  }

  lemma AreaExact(o: Observer, cfg: Config, s: System, r: Range, from: nat, n: nat, prot: nat, plan: WalkPlan)
    requires HookReady(cfg, s, r, prot, plan) && WxSafe(s) && Known(o, s)
    ensures Known(o, ProtectArea(cfg, s, r, from, n, prot, plan)) <==> AreaKnown(o, cfg, s, r, from, n, prot, plan)
  {
    hide Latest, Hook, HookReady, Log, KnownAfter;
    var s' := ProtectArea(cfg, s, r, from, n, prot, plan);
    if IsArea(s.space, r, from, n) {
      forall p: nat
        ensures UserPage(s'.space, p) == UserPage(s.space, p)
        ensures Latest(Log(o, s'.link, s'.carried), p) == Some(UserPage(s.space, p))
           <==> KnownAfter(o, cfg, s, r, prot, plan, p)
      {
        HookExact(o, cfg, s, r, prot, plan, p);
      }
      forall p: nat | !(r.start <= p < r.start + r.n)
        ensures KnownAfter(o, cfg, s, r, prot, plan, p)
           <==> Latest(Log(o, s.link, s.carried), p) == Some(UserPage(s.space, p))
      {
        KnownOutside(o, cfg, s, r, prot, plan, p);
      }
      ExecutablePages(cfg, s, r, from, n, prot, plan);
    }
  }

  lemma ExecutablePages(cfg: Config, s: System, r: Range, from: nat, n: nat, prot: nat, plan: WalkPlan)
    requires HookReady(cfg, s, r, prot, plan) && IsArea(s.space, r, from, n)
    ensures var s' := ProtectArea(cfg, s, r, from, n, prot, plan);
            && s'.space.Keys == s.space.Keys
            && forall p :: p in s.space ==>
                 && (Executable(s'.space[p].prot) <==> ExecutableAfter(cfg, s, r, from, n, prot, plan, p))
                 && (!(r.start <= p < r.start + r.n) ==> s'.space[p].prot == s.space[p].prot)
  {
    hide Hook, HookReady;
  }

  lemma HookIdle(cfg: Config, s: System, r: Range, prot: nat, plan: WalkPlan)
    requires HookReady(cfg, s, r, prot, plan) && Idle(s.link.server)
    ensures Idle(Hook(cfg, s, r, prot, plan).link.server)
  {
    hide Latest, UserPage, KnownAfter;
    HookExact(Sender, cfg, s, r, prot, plan, 0);
  }

  /** Every step leaves the server idle and W^X intact. */
  lemma StepSafe(cfg: Config, s: System, a: Action)
    requires Enabled(cfg, s, a) && WxSafe(s)
    ensures WxSafe(Step(cfg, s, a))
  {
    hide Hook, HookReady, Idle;
    match a
    case Mmap(r, prot, plan) =>
      FilterDeniesWx(prot);
      if !MaskedWx(prot) {
        HookIdle(cfg, s.(space := MapFresh(s.space, r, prot)), r, prot, plan);
      }
    case Mprotect(r, from, n, prot, plan) =>
      FilterDeniesWx(prot);
      if !MaskedWx(prot) {
        HookIdle(cfg, s, r, prot, plan);
      }
    case PkeyMprotect(r, from, n, prot, plan) =>
      FilterDeniesWx(prot);
      if !MaskedWx(prot) {
        HookIdle(cfg, s, r, prot, plan);
      }
    case Load(p) =>
    case Store(p, bytes) =>
    case Munmap(r) =>
  }

  /** A step, exactly: every executable page stays known as it is if and only if `Keeps` says so. */
  lemma StepExact(o: Observer, cfg: Config, s: System, a: Action)
    requires Enabled(cfg, s, a) && WxSafe(s) && Known(o, s)
    ensures Known(o, Step(cfg, s, a)) <==> Keeps(o, cfg, s, a)
  {
    hide Hook, ProtectArea, Latest, HookReady, Log, KnownAfter, AreaKnown;
    match a
    case Mmap(r, prot, plan) =>
      if !MaskedWx(prot) {
        MmapExact(o, cfg, s, r, prot, plan);
      }
    case Mprotect(r, from, n, prot, plan) =>
      if !MaskedWx(prot) {
        AreaExact(o, cfg, s, r, from, n, prot, plan);
      }
    case PkeyMprotect(r, from, n, prot, plan) =>
      if !MaskedWx(prot) {
        AreaExact(o, cfg, s, r, from, n, prot, plan);
      }
    case Load(p) =>
    case Store(p, bytes) =>
    case Munmap(r) =>
  }

  // ------------------------------------------------------------------------------------------
  // Whole runs
  // ------------------------------------------------------------------------------------------

  /** The states a sequence of actions passes through, one more than there are actions. */
  ghost predicate IsRun(cfg: Config, states: seq<System>, actions: seq<Action>)
  {
    && |states| == |actions| + 1
    && forall i :: 0 <= i < |actions| ==>
         Enabled(cfg, states[i], actions[i]) && states[i + 1] == Step(cfg, states[i], actions[i])
  }

  /** W^X holds in every state of every run, whatever fails and whatever the server does. */
  lemma {:induction false} NeverWritableAndExecutable(cfg: Config, states: seq<System>, actions: seq<Action>, i: nat)
    requires IsRun(cfg, states, actions) && WxSafe(states[0]) && i < |states|
    ensures WxSafe(states[i])
  {
    hide Step, WxSafe;
    if i > 0 {
      NeverWritableAndExecutable(cfg, states, actions, i - 1);
      StepSafe(cfg, states[i - 1], actions[i - 1]);
    }
  }

  /**
   Whole runs, exactly, for either observer and either server and whatever fails: every executable page is known as it
   is in every state, if and only if every action satisfies its condition.
   */
  lemma RunExact(o: Observer, cfg: Config, states: seq<System>, actions: seq<Action>)
    requires IsRun(cfg, states, actions) && WxSafe(states[0]) && Known(o, states[0])
    ensures (forall i :: 0 <= i < |states| ==> Known(o, states[i]))
       <==> forall i :: 0 <= i < |actions| ==> Keeps(o, cfg, states[i], actions[i])
  {
    hide Step, WxSafe, Known, Keeps;
    if forall i :: 0 <= i < |states| ==> Known(o, states[i]) {
      forall i | 0 <= i < |actions|
        ensures Keeps(o, cfg, states[i], actions[i])
      {
        NeverWritableAndExecutable(cfg, states, actions, i);
        assert Known(o, states[i]) && Known(o, states[i + 1]);
        StepExact(o, cfg, states[i], actions[i]);
      }
    }
    if forall i :: 0 <= i < |actions| ==> Keeps(o, cfg, states[i], actions[i]) {
      forall i | 0 <= i < |states|
        ensures Known(o, states[i])
      {
        KnownAlong(o, cfg, states, actions, i);
      }
    }
  }

  lemma {:induction false} KnownAlong(o: Observer, cfg: Config, states: seq<System>, actions: seq<Action>, i: nat)
    requires IsRun(cfg, states, actions) && WxSafe(states[0]) && Known(o, states[0]) && i < |states|
    requires forall j :: 0 <= j < i ==> Keeps(o, cfg, states[j], actions[j])
    ensures Known(o, states[i])
  {
    hide Step, WxSafe, Known, Keeps;
    if i > 0 {
      KnownAlong(o, cfg, states, actions, i - 1);
      NeverWritableAndExecutable(cfg, states, actions, i - 1);
      assert Keeps(o, cfg, states[i - 1], actions[i - 1]);
      StepExact(o, cfg, states[i - 1], actions[i - 1]);
    }
  }
}
