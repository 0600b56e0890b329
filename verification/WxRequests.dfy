/**
 What each request of the process does, in its own terms: which requests are sent, what becomes of the pages, when the
 analyzer's verdict decides, and where the loop of mprotect over several areas ends. The model is in `WxSnapshot`.
 */
module WxRequests {
  import opened Bytes
  import opened PageWalk
  import opened Images
  import opened WalkBounds
  import opened TcpServer
  import opened Reconstruction
  import opened Session
  import opened WxSnapshot
  import opened WxConditions

  // ------------------------------------------------------------------------------------------
  // Which requests are sent
  // ------------------------------------------------------------------------------------------

  /**
   A hook sends its range exactly when the request is not for address 0 and asks for writing or for executing; otherwise
   nothing changes, and it returns -EINVAL or 0.
   */
  lemma HookSends(cfg: Config, s: System, r: Range, prot: nat, plan: WalkPlan)
    requires HookReady(cfg, s, r, prot, plan)
    ensures var h := Hook(cfg, s, r, prot, plan);
            if r.start != 0 && (prot / 2 % 2 == 1 || prot / 4 % 2 == 1) then
              && |h.carried| == |s.carried| + 1 && h.carried[..|s.carried|] == s.carried
              && var d := h.carried[|s.carried|];
                 && d.info.initAddr == r.start * 4096 && d.info.mappingLen == r.n * 4096 && d.info.prot == prot
                 && d.info.name == plan.tag.name && d.info.args == plan.tag.args && d.info.anonName == plan.tag.anonName
                 && |d.bytes| == r.n * 4096
                 && forall p :: r.start <= p < r.start + r.n ==> CoversPage(d, p)
            else h.link == s.link && h.carried == s.carried && h.error == if r.start == 0 then -22 else 0
  {
    hide Callable, CallHook, GoodPlan, MachineOf;
  }

  /** What a hook that sends returns: the value read from the server, or 0 for an incomplete reply. */
  lemma HookReturns(cfg: Config, s: System, r: Range, prot: nat, plan: WalkPlan)
    requires HookReady(cfg, s, r, prot, plan)
    requires r.start != 0 && (prot / 2 % 2 == 1 || prot / 4 % 2 == 1)
    ensures GoodRange(cfg, r, prot) && Callable(cfg, s.link, CallOf(s.space, r, prot, plan), plan.choice)
    ensures var h := Hook(cfg, s, r, prot, plan);
            var called := CallHook(cfg, s.link, CallOf(s.space, r, prot, plan), plan.choice);
            && h.link == called.link
            && (called.outcome == Returned(h.error) || (called.outcome == Skipped && h.error == 0))
  {
    hide Callable, CallHook, GoodPlan, MachineOf;
  }

  /** What the server dumps names the request. */
  lemma HookDumps(cfg: Config, s: System, r: Range, prot: nat, plan: WalkPlan)
    requires HookReady(cfg, s, r, prot, plan) && Idle(s.link.server)
    requires r.start != 0 && (prot / 2 % 2 == 1 || prot / 4 % 2 == 1)
    ensures GoodRange(cfg, r, prot) && Callable(cfg, s.link, CallOf(s.space, r, prot, plan), plan.choice)
    ensures var dumps, c := Hook(cfg, s, r, prot, plan).link.server.dumps, CallOf(s.space, r, prot, plan);
            if Ends(c) then
              && |dumps| == |s.link.server.dumps| + 1 && dumps[..|s.link.server.dumps|] == s.link.server.dumps
              && var d := dumps[|s.link.server.dumps|];
                 && d.info.initAddr == r.start * 4096 && d.info.mappingLen == r.n * 4096 && d.info.prot == prot
                 && d.info.name == plan.tag.name && d.info.args == plan.tag.args && d.info.anonName == plan.tag.anonName
                 && |d.bytes| == r.n * 4096
            else dumps == s.link.server.dumps
  {
    HookReturns(cfg, s, r, prot, plan);
    var c := CallOf(s.space, r, prot, plan);
    CallLinks(cfg, s.link, c, plan.choice);
    if Ends(c) {
      DumpNames(cfg, c);
    }
    hide Callable, CallHook, Hook, HookReady, Ends, DumpFor, MachineOf;
  }

  lemma DumpNames(cfg: Config, c: Call)
    requires Proper(cfg, c) && Ends(c) && c.Pages?
    ensures var d := DumpFor(cfg, c);
            && d.info == c.info.(mappedAddr := d.info.mappedAddr, len := d.info.len, isEnd := 1)
            && |d.bytes| == c.info.mappingLen
  {
    hide Transfer, EndSent, CellsTo, Image;
    FramesFit(c.m, c.info, c.events, c.faults);
    DumpIsSeen(cfg, c.m, c.info, c.events, c.faults);
  }

  // ------------------------------------------------------------------------------------------
  // The verdict decides
  // ------------------------------------------------------------------------------------------

  /** With no reply outstanding, a call that reads a whole reply returns the negated verdict on its own dump. */
  lemma OwnVerdict(cfg: Config, s: Link, c: Call, e: Choice)
    requires Callable(cfg, s, c, e) && Idle(s.server) && s.unread == [] && e.pieces == [4]
    requires Ends(c) && !OutOfMemory(c) && CallHook(cfg, s, c, e).outcome.Returned?
    ensures CallHook(cfg, s, c, e).outcome == Returned(NegatedInt(cfg.verdict(DumpFor(cfg, c))))
  {
    WholeReplyIs(cfg, s, c);
    OneCall(cfg, s, c, e);
    var called := CallHook(cfg, s, c, e);
    hide Callable, CallHook, Ends, DumpFor, OutOfMemory, Reply, Decode32, Encode32;
    WholeTaken(called.taken, called.link.unread, s.unread, Encode32(Answer(cfg, c)));
    RoundTrip32(Answer(cfg, c));
  }

  /**
   With no reply outstanding, a round whose end frame goes out and whose reply is read whole changes the rights of its
   area exactly when the verdict on its own dump is 0.
   */
  lemma VerdictDecides(cfg: Config, s: System, r: Range, from: nat, n: nat, prot: nat, plan: WalkPlan)
    requires HookReady(cfg, s, r, prot, plan) && IsArea(s.space, r, from, n) && Idle(s.link.server)
    requires r.start != 0 && (prot / 2 % 2 == 1 || prot / 4 % 2 == 1)
    requires GoodRange(cfg, r, prot) && Callable(cfg, s.link, CallOf(s.space, r, prot, plan), plan.choice)
    requires s.link.unread == [] && plan.choice.pieces == [4]
    requires var c := CallOf(s.space, r, prot, plan);
             Ends(c) && !OutOfMemory(c) && !CallHook(cfg, s.link, c, plan.choice).outcome.Skipped?
    ensures var verdict := cfg.verdict(DumpFor(cfg, CallOf(s.space, r, prot, plan)));
            && Hook(cfg, s, r, prot, plan).error == NegatedInt(verdict)
            && ProtectArea(cfg, s, r, from, n, prot, plan).space
               == if verdict == 0 then Protect(s.space, from, from + n, prot) else s.space
  {
    hide Callable, CallHook, Ends, DumpFor, MachineOf, OutOfMemory, IsArea, Hook, HookReady, Idle;
    HookReturns(cfg, s, r, prot, plan);
    OwnVerdict(cfg, s.link, CallOf(s.space, r, prot, plan), plan.choice);
  }

  // ------------------------------------------------------------------------------------------
  // What becomes of the pages
  // ------------------------------------------------------------------------------------------

  /** Whether the filter lets a request through. */
  predicate Passes(prot: nat) { !(prot / 2 % 2 == 1 && prot / 4 % 2 == 1) }

  predicate Same(s: Space, t: Space, p: nat)
  {
    (p in t <==> p in s) && (p in t ==> t[p] == s[p]) && UserPage(t, p) == UserPage(s, p)
  }

  lemma MmapPages(cfg: Config, s: System, r: Range, prot: nat, plan: WalkPlan, p: nat)
    requires Enabled(cfg, s, Mmap(r, prot, plan))
    ensures var t := Step(cfg, s, Mmap(r, prot, plan)).space;
            if Passes(prot) && r.start <= p < r.start + r.n then
              p in t && t[p].prot == prot && UserPage(t, p) == Zeros(PAGE_SIZE)
            else Same(s.space, t, p)
  {
    hide Hook, HookReady, Zeros;
    FilterDeniesWx(prot);
  }

  /** A round changes nothing but the rights of its area, and those only if its hook returns 0. */
  lemma RoundPages(cfg: Config, s: System, r: Range, from: nat, n: nat, prot: nat, plan: WalkPlan, p: nat)
    requires HookReady(cfg, s, r, prot, plan)
    ensures var t := ProtectArea(cfg, s, r, from, n, prot, plan).space;
            if r.start <= from && from + n <= r.start + r.n && (forall q :: from <= q < from + n ==> q in s.space)
               && from <= p < from + n && Hook(cfg, s, r, prot, plan).error == 0
            then p in s.space && p in t && t[p] == s.space[p].(prot := prot)
            else Same(s.space, t, p)
  {
    hide Hook, HookReady, Zeros;
  }

  /** The same for the requests, which the filter may deny. */
  lemma ProtectPages(cfg: Config, s: System, a: Action, p: nat)
    requires Enabled(cfg, s, a) && (a.Mprotect? || a.PkeyMprotect?)
    ensures Passes(a.prot) ==> HookReady(cfg, s, a.r, a.prot, a.plan)
    ensures var t := Step(cfg, s, a).space;
            if Passes(a.prot) && a.r.start <= a.from && a.from + a.n <= a.r.start + a.r.n
               && (forall q :: a.from <= q < a.from + a.n ==> q in s.space)
               && a.from <= p < a.from + a.n && Hook(cfg, s, a.r, a.prot, a.plan).error == 0
            then p in s.space && p in t && t[p] == s.space[p].(prot := a.prot)
            else Same(s.space, t, p)
  {
    hide Hook, HookReady, Zeros, ProtectArea, IsArea;
    FilterDeniesWx(a.prot);
    if Passes(a.prot) {
      RoundPages(cfg, s, a.r, a.from, a.n, a.prot, a.plan, p);
    }
  }

  /**
   Reading gives a page its table entry and changes nothing that can be read, writing changes the page written, and
   unmapping the range unmapped.
   */
  lemma AccessPages(cfg: Config, s: System, a: Action, p: nat)
    requires Enabled(cfg, s, a)
    ensures var t := Step(cfg, s, a).space;
            && (a.Load? ==>
                  (p in t <==> p in s.space) && UserPage(t, p) == UserPage(s.space, p)
                  && (p in t ==> t[p].prot == s.space[p].prot) && Touched(t, p) == Touched(s.space, p)
                  && (if p == a.page then Present(t, p) else Same(s.space, t, p)))
            && (a.Store? ==>
                  if p == a.page then
                    p in s.space && p in t && t[p].prot == s.space[p].prot && UserPage(t, p) == a.bytes
                  else Same(s.space, t, p))
            && (a.Munmap? ==> if a.r.start <= p < a.r.start + a.r.n then p !in t else Same(s.space, t, p))
  {
    hide Hook, HookReady, Zeros, ProtectArea;
  }

  /** The connection and the log are those that a hook leaves. */
  predicate Takes(t: System, h: HookResult) { t.link == h.link && t.carried == h.carried }

  lemma MmapLink(cfg: Config, s: System, r: Range, prot: nat, plan: WalkPlan)
    requires Enabled(cfg, s, Mmap(r, prot, plan))
    ensures var t := Step(cfg, s, Mmap(r, prot, plan));
            if Passes(prot) then
              Takes(t, Hook(cfg, s.(space := MapFresh(s.space, r, prot)), r, prot, plan)) && s.carried <= t.carried
            else t == s
  {
    hide Hook, HookReady, CoversPage;
    FilterDeniesWx(prot);
    if Passes(prot) {
      HookSends(cfg, s.(space := MapFresh(s.space, r, prot)), r, prot, plan);
    }
  }

  /** A round, which mprotect and pkey_mprotect share. */
  lemma RoundLink(cfg: Config, s: System, r: Range, from: nat, n: nat, prot: nat, plan: WalkPlan)
    requires HookReady(cfg, s, r, prot, plan)
    ensures var t := ProtectArea(cfg, s, r, from, n, prot, plan);
            if r.start <= from && from + n <= r.start + r.n && (forall q :: from <= q < from + n ==> q in s.space)
            then Takes(t, Hook(cfg, s, r, prot, plan)) && s.carried <= t.carried
            else t == s
  {
    hide Hook, HookReady, CoversPage;
    HookSends(cfg, s, r, prot, plan);
  }

  /** Whether an action of the process reaches the hook of a round. */
  predicate Reaches(s: System, a: Action)
  {
    (a.Mprotect? || a.PkeyMprotect?) && Passes(a.prot) && IsArea(s.space, a.r, a.from, a.n)
  }

  /** Only requests that the filter lets through, and rounds for mapped areas, reach the connection. */
  lemma StepLink(cfg: Config, s: System, a: Action)
    requires Enabled(cfg, s, a)
    ensures s.carried <= Step(cfg, s, a).carried
    ensures a.Mmap? && Passes(a.prot) ==>
              HookReady(cfg, s.(space := MapFresh(s.space, a.r, a.prot)), a.r, a.prot, a.plan)
              && Takes(Step(cfg, s, a), Hook(cfg, s.(space := MapFresh(s.space, a.r, a.prot)), a.r, a.prot, a.plan))
    ensures Reaches(s, a) ==>
              HookReady(cfg, s, a.r, a.prot, a.plan) && Takes(Step(cfg, s, a), Hook(cfg, s, a.r, a.prot, a.plan))
    ensures !(a.Mmap? && Passes(a.prot)) && !Reaches(s, a) ==>
              Step(cfg, s, a).link == s.link && Step(cfg, s, a).carried == s.carried
  {
    hide Hook, HookReady, ProtectArea, Takes;
    match a
    case Mmap(r, prot, plan) =>
      FilterDeniesWx(prot);
      MmapLink(cfg, s, r, prot, plan);
    case Mprotect(r, from, n, prot, plan) =>
      FilterDeniesWx(prot);
      if Passes(prot) {
        RoundLink(cfg, s, r, from, n, prot, plan);
      }
    case PkeyMprotect(r, from, n, prot, plan) =>
      FilterDeniesWx(prot);
      if Passes(prot) {
        RoundLink(cfg, s, r, from, n, prot, plan);
      }
    case _ =>
  }

  // ------------------------------------------------------------------------------------------
  // Nothing becomes accessible unseen
  // ------------------------------------------------------------------------------------------

  /** Page p can be written or executed in t, and could not be in s. */
  predicate Gains(s: Space, t: Space, p: nat)
  {
    p in t
    && ((t[p].prot / 2 % 2 == 1 && !(p in s && s[p].prot / 2 % 2 == 1))
        || (t[p].prot / 4 % 2 == 1 && !(p in s && s[p].prot / 4 % 2 == 1)))
  }

  /** The sender's log holds page p as it is, in an entry from `from` on. */
  predicate Logs(carried: seq<Dump>, from: nat, p: nat, bytes: PageBytes)
  {
    exists k :: from <= k < |carried| && CoversPage(carried[k], p) && PageOf(carried[k], p) == bytes
  }

  /** A hook without a failure puts every page of its range in the log, as it is. */
  lemma HookLogsPage(cfg: Config, s: System, r: Range, prot: nat, plan: WalkPlan, p: nat)
    requires HookReady(cfg, s, r, prot, plan) && Idle(s.link.server) && NoFailure(plan)
    requires r.start != 0 && (prot / 2 % 2 == 1 || prot / 4 % 2 == 1) && r.start <= p < r.start + r.n
    ensures Logs(Hook(cfg, s, r, prot, plan).carried, |s.carried|, p, UserPage(s.space, p))
  {
    HookSends(cfg, s, r, prot, plan);
    assert PassesGuards(r, prot);
    hide HookReady, Hook, CoversPage, Latest, KnownAfter, NoFailure, UserPage;
    HookExact(Sender, cfg, s, r, prot, plan, p);
    NoFailureKnown(Sender, cfg, s, r, prot, plan, p);
    var log := Hook(cfg, s, r, prot, plan).carried;
    assert log == s.carried + [log[|s.carried|]];
    LatestSnoc(s.carried, log[|s.carried|], p);
  }

  /** The range of a request, if it is one. */
  predicate AtPageZero(a: Action)
  {
    (a.Mmap? || a.Mprotect? || a.PkeyMprotect?) && a.r.start == 0
  }

  lemma StepLogsGain(cfg: Config, s: System, a: Action, p: nat)
    requires Enabled(cfg, s, a) && Idle(s.link.server) && !AtPageZero(a)
    requires forall plan :: PlanOf(a, plan) ==> NoFailure(plan)
    requires Gains(s.space, Step(cfg, s, a).space, p)
    ensures Logs(Step(cfg, s, a).carried, |s.carried|, p, UserPage(Step(cfg, s, a).space, p))
  {
    hide HookReady, Hook, NoFailure, Logs, UserPage, Step;
    StepLink(cfg, s, a);
    match a
    case Mmap(r, prot, plan) =>
      assert PlanOf(a, plan);
      FilterDeniesWx(prot);
      MmapPages(cfg, s, r, prot, plan, p);
      MappedPage(cfg, s, a, p);
      HookLogsPage(cfg, s.(space := MapFresh(s.space, r, prot)), r, prot, plan, p);
    case Mprotect(r, from, n, prot, plan) =>
      assert PlanOf(a, plan);
      ProtectPages(cfg, s, a, p);
      HookLogsPage(cfg, s, r, prot, plan, p);
      RightsKeepBytes(s.space, Step(cfg, s, a).space, p, prot);
    case PkeyMprotect(r, from, n, prot, plan) =>
      assert PlanOf(a, plan);
      ProtectPages(cfg, s, a, p);
      HookLogsPage(cfg, s, r, prot, plan, p);
      RightsKeepBytes(s.space, Step(cfg, s, a).space, p, prot);
    case _ => AccessPages(cfg, s, a, p);
  }

  lemma MappedPage(cfg: Config, s: System, a: Action, p: nat)
    requires a.Mmap? && Enabled(cfg, s, a) && Passes(a.prot) && a.r.start <= p < a.r.start + a.r.n
    ensures UserPage(MapFresh(s.space, a.r, a.prot), p) == UserPage(Step(cfg, s, a).space, p)
  {
    hide Hook, HookReady, UserPage;
    FilterDeniesWx(a.prot);
  }

  lemma RightsKeepBytes(s: Space, t: Space, p: nat, prot: nat)
    requires p in s && p in t && t[p] == s[p].(prot := prot)
    ensures UserPage(t, p) == UserPage(s, p)
  {
  }

  lemma {:induction false} CarriedGrows(cfg: Config, states: seq<System>, actions: seq<Action>, i: nat, j: nat)
    requires IsRun(cfg, states, actions) && i <= j < |states|
    ensures states[i].carried <= states[j].carried
  {
    hide Step, Enabled;
    if i < j {
      CarriedGrows(cfg, states, actions, i, j - 1);
      StepLink(cfg, states[j - 1], actions[j - 1]);
    }
  }

  lemma LogsMore(a: seq<Dump>, b: seq<Dump>, from: nat, p: nat, bytes: PageBytes)
    requires a <= b && Logs(a, from, p, bytes)
    ensures Logs(b, from, p, bytes)
  {
    hide CoversPage;
    var k :| from <= k < |a| && CoversPage(a[k], p) && PageOf(a[k], p) == bytes;
    assert b[k] == a[k];
  }

  /**
   Over whole runs: a page that an action makes writable or executable is in the sender's log as it was then, in that
   state and in every later one, unless the action is for page 0 or one of its allocations fails.
   */
  lemma GainsAreLogged(cfg: Config, states: seq<System>, actions: seq<Action>, i: nat, j: nat, p: nat)
    requires IsRun(cfg, states, actions) && WxSafe(states[0]) && i < |actions| && i < j < |states|
    requires !AtPageZero(actions[i]) && forall plan :: PlanOf(actions[i], plan) ==> NoFailure(plan)
    requires Gains(states[i].space, states[i + 1].space, p)
    ensures Logs(states[j].carried, |states[i].carried|, p, UserPage(states[i + 1].space, p))
  {
    hide Step, Enabled, Gains, Logs, UserPage, NoFailure, PlanOf, AtPageZero, Idle;
    NeverWritableAndExecutable(cfg, states, actions, i);
    StepLogsGain(cfg, states[i], actions[i], p);
    CarriedGrows(cfg, states, actions, i + 1, j);
    LogsMore(states[i + 1].carried, states[j].carried, |states[i].carried|, p, UserPage(states[i + 1].space, p));
  }

  // ------------------------------------------------------------------------------------------
  // The loop of mprotect
  // ------------------------------------------------------------------------------------------

  datatype Area = Area(n: nat, plan: WalkPlan)

  /** The loop of `do_mprotect_pkey` over the areas of the range: an error, or a hole, ends it. */
  ghost function ProtectAreas(cfg: Config, s: System, r: Range, from: nat, areas: seq<Area>, prot: nat): System
    decreases |areas|
  {
    if areas == [] || !HookReady(cfg, s, r, prot, areas[0].plan) || !IsArea(s.space, r, from, areas[0].n) then s
    else
      var s' := ProtectArea(cfg, s, r, from, areas[0].n, prot, areas[0].plan);
      if Hook(cfg, s, r, prot, areas[0].plan).error != 0 then s'
      else ProtectAreas(cfg, s', r, from + areas[0].n, areas[1..], prot)
  }

  /** The pages of the first i areas. */
  function Extent(areas: seq<Area>, i: nat): nat
    requires i <= |areas|
  {
    if i == 0 then 0 else areas[0].n + Extent(areas[1..], i - 1)
  }

  /** Round i of the loop: its area is mapped, and its hook is called with the whole range. */
  ghost predicate IsRound(cfg: Config, s: System, a: Action, r: Range, from: nat, areas: seq<Area>, prot: nat, i: nat)
  {
    && i < |areas| && a == Mprotect(r, from + Extent(areas, i), areas[i].n, prot, areas[i].plan)
    && HookReady(cfg, s, r, prot, areas[i].plan) && IsArea(s.space, r, from + Extent(areas, i), areas[i].n)
  }

  /** The hook of round i returns 0. */
  ghost predicate Permits(cfg: Config, s: System, r: Range, areas: seq<Area>, prot: nat, i: nat)
  {
    i < |areas| && HookReady(cfg, s, r, prot, areas[i].plan) && Hook(cfg, s, r, prot, areas[i].plan).error == 0
  }

  /** The hook of round i returns an error. */
  ghost predicate Refuses(cfg: Config, s: System, r: Range, areas: seq<Area>, prot: nat, i: nat)
  {
    i < |areas| && HookReady(cfg, s, r, prot, areas[i].plan) && Hook(cfg, s, r, prot, areas[i].plan).error != 0
  }

  /** There is no round i: all areas are done, this one is not mapped, or its hook does not return. */
  ghost predicate NoRound(cfg: Config, s: System, r: Range, from: nat, areas: seq<Area>, prot: nat, i: nat)
  {
    i < |areas| ==>
      !HookReady(cfg, s, r, prot, areas[i].plan) || !IsArea(s.space, r, from + Extent(areas, i), areas[i].n)
  }

  /** The rounds of a loop: the first `done` returned 0, and what follows is one that did not, or a reason to end. */
  ghost predicate IsLoop(cfg: Config, states: seq<System>, actions: seq<Action>, r: Range, from: nat, areas: seq<Area>,
                         prot: nat, done: nat)
  {
    var n := |actions|;
    && IsRun(cfg, states, actions) && n <= |areas| && done <= n <= done + 1
    && (forall i :: 0 <= i < n ==> IsRound(cfg, states[i], actions[i], r, from, areas, prot, i))
    && (forall i :: 0 <= i < done ==> Permits(cfg, states[i], r, areas, prot, i))
    && (if done < n then Refuses(cfg, states[done], r, areas, prot, done)
        else NoRound(cfg, states[n], r, from, areas, prot, n))
  }

  lemma Shift(cfg: Config, s: System, a: Action, r: Range, from: nat, areas: seq<Area>, prot: nat, i: nat)
    requires areas != []
    ensures IsRound(cfg, s, a, r, from + areas[0].n, areas[1..], prot, i) ==>
              IsRound(cfg, s, a, r, from, areas, prot, i + 1)
    ensures Permits(cfg, s, r, areas[1..], prot, i) ==> Permits(cfg, s, r, areas, prot, i + 1)
    ensures Refuses(cfg, s, r, areas[1..], prot, i) ==> Refuses(cfg, s, r, areas, prot, i + 1)
    ensures NoRound(cfg, s, r, from + areas[0].n, areas[1..], prot, i) ==>
              NoRound(cfg, s, r, from, areas, prot, i + 1)
  {
    hide HookReady, IsArea, Hook;
  }

  lemma OneRound(cfg: Config, s: System, r: Range, from: nat, areas: seq<Area>, prot: nat)
    requires areas != [] && !MaskedWx(prot)
    requires HookReady(cfg, s, r, prot, areas[0].plan) && IsArea(s.space, r, from, areas[0].n)
    ensures var a := Mprotect(r, from, areas[0].n, prot, areas[0].plan);
            && IsRound(cfg, s, a, r, from, areas, prot, 0) && Enabled(cfg, s, a)
            && Step(cfg, s, a) == ProtectArea(cfg, s, r, from, areas[0].n, prot, areas[0].plan)
  {
    hide HookReady, IsArea, ProtectArea;
  }

  lemma ConsRun(cfg: Config, s: System, a: Action, states: seq<System>, actions: seq<Action>)
    requires Enabled(cfg, s, a) && IsRun(cfg, states, actions) && states[0] == Step(cfg, s, a)
    ensures IsRun(cfg, [s] + states, [a] + actions)
  {
    hide Enabled, Step;
  }

  lemma ConsLoop(cfg: Config, s: System, a: Action, states: seq<System>, actions: seq<Action>, r: Range, from: nat,
                 areas: seq<Area>, prot: nat, done: nat)
    requires areas != [] && IsLoop(cfg, states, actions, r, from + areas[0].n, areas[1..], prot, done)
    requires IsRound(cfg, s, a, r, from, areas, prot, 0) && Permits(cfg, s, r, areas, prot, 0)
    requires Enabled(cfg, s, a) && states[0] == Step(cfg, s, a)
    ensures IsLoop(cfg, [s] + states, [a] + actions, r, from, areas, prot, done + 1)
  {
    hide Step, Enabled, IsRound, Permits, Refuses, NoRound;
    ConsRun(cfg, s, a, states, actions);
    forall i | 0 <= i < |actions|
      ensures IsRound(cfg, states[i], actions[i], r, from, areas, prot, i + 1)
    {
      Shift(cfg, states[i], actions[i], r, from, areas, prot, i);
    }
    forall i | 0 <= i < done
      ensures Permits(cfg, states[i], r, areas, prot, i + 1)
    {
      Shift(cfg, states[i], a, r, from, areas, prot, i);
    }
    Shift(cfg, states[done], a, r, from, areas, prot, done);
  }

  lemma NoRounds(cfg: Config, s: System, r: Range, from: nat, areas: seq<Area>, prot: nat)
    requires areas == [] || !HookReady(cfg, s, r, prot, areas[0].plan) || !IsArea(s.space, r, from, areas[0].n)
    ensures IsLoop(cfg, [s], [], r, from, areas, prot, 0)
  {
    hide HookReady, IsArea, Hook;
  }

  lemma FailedRound(cfg: Config, s: System, a: Action, r: Range, from: nat, areas: seq<Area>, prot: nat)
    requires areas != [] && IsRound(cfg, s, a, r, from, areas, prot, 0) && Enabled(cfg, s, a)
    requires Refuses(cfg, s, r, areas, prot, 0)
    ensures IsLoop(cfg, [s, Step(cfg, s, a)], [a], r, from, areas, prot, 0)
  {
    hide Refuses, NoRound, IsRound, Step, Enabled;
  }

  /** The loop is a run of rounds, and ends where it should. */
  lemma {:induction false} LoopIsRun(cfg: Config, s: System, r: Range, from: nat, areas: seq<Area>, prot: nat)
      returns (states: seq<System>, actions: seq<Action>, done: nat)
    requires !MaskedWx(prot)
    ensures IsLoop(cfg, states, actions, r, from, areas, prot, done) && states[0] == s
    ensures |states| == |actions| + 1 && states[|actions|] == ProtectAreas(cfg, s, r, from, areas, prot)
    decreases |areas|
  {
    hide HookReady, IsArea, Hook, ProtectArea, Step, Enabled, IsRound, Extent, MaskedWx;
    if areas == [] || !HookReady(cfg, s, r, prot, areas[0].plan) || !IsArea(s.space, r, from, areas[0].n) {
      NoRounds(cfg, s, r, from, areas, prot);
      states, actions, done := [s], [], 0;
    } else {
      var s' := ProtectArea(cfg, s, r, from, areas[0].n, prot, areas[0].plan);
      var a := Mprotect(r, from, areas[0].n, prot, areas[0].plan);
      OneRound(cfg, s, r, from, areas, prot);
      if Hook(cfg, s, r, prot, areas[0].plan).error != 0 {
        FailedRound(cfg, s, a, r, from, areas, prot);
        states, actions, done := [s, s'], [a], 0;
        hide IsLoop;
      } else {
        var rest, more, d := LoopIsRun(cfg, s', r, from + areas[0].n, areas[1..], prot);
        hide IsLoop;
        ConsLoop(cfg, s, a, rest, more, r, from, areas, prot, d);
        states, actions, done := [s] + rest, [a] + more, d + 1;
      }
    }
  }

  /** One entry for each round, if the requests are sent at all. */
  function Entries(r: Range, prot: nat, rounds: nat): nat
  {
    if r.start != 0 && (prot / 2 % 2 == 1 || prot / 4 % 2 == 1) then rounds else 0
  }

  lemma RoundEffect(cfg: Config, s: System, a: Action, r: Range, from: nat, areas: seq<Area>, prot: nat, i: nat, p: nat)
    requires IsRound(cfg, s, a, r, from, areas, prot, i) && !MaskedWx(prot) && Enabled(cfg, s, a)
    ensures |Step(cfg, s, a).carried| == |s.carried| + Entries(r, prot, 1)
    ensures var lo, t := from + Extent(areas, i), Step(cfg, s, a).space;
            if Hook(cfg, s, r, prot, areas[i].plan).error == 0 && lo <= p < lo + areas[i].n then
              p in s.space && p in t && t[p] == s.space[p].(prot := prot)
            else (p in t <==> p in s.space) && (p in t ==> t[p] == s.space[p])
  {
    hide HookReady, Hook, CoversPage, UserPage, Step;
    FilterDeniesWx(prot);
    ProtectPages(cfg, s, a, p);
    StepLink(cfg, s, a);
    HookSends(cfg, s, r, prot, areas[i].plan);
  }

  lemma {:induction false} ExtentSnoc(areas: seq<Area>, i: nat)
    requires i < |areas|
    ensures Extent(areas, i + 1) == Extent(areas, i) + areas[i].n
  {
    if i > 0 {
      ExtentSnoc(areas[1..], i - 1);
    }
  }

  /** After i rounds. */
  lemma {:induction false} LoopSoFar(cfg: Config, states: seq<System>, actions: seq<Action>, r: Range, from: nat,
                                     areas: seq<Area>, prot: nat, done: nat, i: nat, p: nat)
    requires IsLoop(cfg, states, actions, r, from, areas, prot, done) && !MaskedWx(prot) && i <= |actions|
    ensures |states[i].carried| == |states[0].carried| + Entries(r, prot, i)
    ensures var s, t, done' := states[0].space, states[i].space, if i <= done then i else done;
            && (p in t <==> p in s)
            && (p in t ==> t[p] == if from <= p < from + Extent(areas, done') then s[p].(prot := prot) else s[p])
  {
    hide IsRound, Hook, Step, Enabled, HookReady, IsArea, Extent;
    if i == 0 {
      NoExtent(areas);
    } else {
      LoopSoFar(cfg, states, actions, r, from, areas, prot, done, i - 1, p);
      assert IsRound(cfg, states[i - 1], actions[i - 1], r, from, areas, prot, i - 1);
      RoundEffect(cfg, states[i - 1], actions[i - 1], r, from, areas, prot, i - 1, p);
      ExtentSnoc(areas, i - 1);
    }
  }

  lemma NoExtent(areas: seq<Area>)
    ensures Extent(areas, 0) == 0
  {
  }

  /**
   A whole mprotect over several areas: rounds whose hooks return 0, up to the first one whose hook returns an error, to
   the first hole, or to the end. The rights change exactly on the areas before the failing round, and the sender's log
   has one more entry for each round.
   */
  lemma ProtectAreasExact(cfg: Config, s: System, r: Range, from: nat, areas: seq<Area>, prot: nat, p: nat)
      returns (states: seq<System>, actions: seq<Action>, done: nat)
    requires !MaskedWx(prot)
    ensures IsLoop(cfg, states, actions, r, from, areas, prot, done) && states[0] == s
    ensures |states| == |actions| + 1 && states[|actions|] == ProtectAreas(cfg, s, r, from, areas, prot)
    ensures var t := ProtectAreas(cfg, s, r, from, areas, prot);
            && |t.carried| == |s.carried| + Entries(r, prot, |actions|)
            && (p in t.space <==> p in s.space)
            && (p in t.space ==>
                  t.space[p]
                  == if from <= p < from + Extent(areas, done) then s.space[p].(prot := prot) else s.space[p])
  {
    hide ProtectAreas;
    states, actions, done := LoopIsRun(cfg, s, r, from, areas, prot);
    LoopSoFar(cfg, states, actions, r, from, areas, prot, done, |actions|, p);
  }
}
