/**
 What the condition under which an action keeps every executable page known comes to: without failures, for the server
 that keeps its buffer and for the server as written, and after failures. The model is in `WxSnapshot`.
 */
module WxConditions {
  import opened Basics
  import opened Bytes
  import opened Framing
  import opened PageWalk
  import opened WalkBounds
  import opened WalkContent
  import opened WalkLosses
  import opened WalkRuns
  import opened WalkOutcome
  import opened TcpServer
  import opened Reconstruction
  import opened Session
  import opened WxSnapshot

  // ------------------------------------------------------------------------------------------
  // What the condition comes to
  // ------------------------------------------------------------------------------------------

  /** No allocation of the call fails. */
  predicate NoFailure(plan: WalkPlan) { NothingLost(plan.faults) && AlwaysGrows(plan.faults) }

  /** The observer sees all that is carried. */
  predicate SeesAll(o: Observer, cfg: Config) { o.Sender? || cfg.keepUntilEnd }

  /** Then nothing is missing without a failure, and the hook leaves the whole range known as it is. */
  lemma NoFailureKnown(o: Observer, cfg: Config, s: System, r: Range, prot: nat, plan: WalkPlan, p: nat)
    requires HookReady(cfg, s, r, prot, plan) && PassesGuards(r, prot) && NoFailure(plan) && SeesAll(o, cfg)
    requires r.start <= p < r.start + r.n
    ensures KnownAfter(o, cfg, s, r, prot, plan, p)
  {
    hide Latest, UserPage, CellsTo, Carried, MachineOf, Callable, CallHook, Seen, EndSent;
    var c := CallOf(s.space, r, prot, plan);
    assert Describes(c.info, |Cells(c.m, c.events)|);
    EndSentWhenNothingLost(c.m, c.info, c.events, c.faults);
    KeptShowsAll(c.m, c.info, c.events, c.faults);
    UntouchedIsZero(s.space, r, p);
  }

  lemma UntouchedIsZero(space: Space, r: Range, p: nat)
    requires r.start <= p < r.start + r.n
    ensures RangeCells(space, r.start, r.n)[p - r.start].Some? || UserPage(space, p) == Zeros(PAGE_SIZE)
  {
  }

  /** A fresh mapping reads as zero: it is known once it is logged, whichever server and whatever fails. */
  lemma FreshKnown(o: Observer, cfg: Config, s: System, r: Range, prot: nat, plan: WalkPlan, p: nat)
    requires HookReady(cfg, s.(space := MapFresh(s.space, r, prot)), r, prot, plan)
    requires Logged(o, MapFresh(s.space, r, prot), r, prot, plan) && r.start <= p < r.start + r.n
    ensures KnownAfter(o, cfg, s.(space := MapFresh(s.space, r, prot)), r, prot, plan, p)
  {
    hide Latest, Callable, CallHook, Seen, Logged;
  }

  /** The plan of an action, if it has one. */
  predicate PlanOf(a: Action, plan: WalkPlan)
  {
    match a
    case Mmap(_, _, q) => plan == q
    case Mprotect(_, _, _, _, q) => plan == q
    case PkeyMprotect(_, _, _, _, q) => plan == q
    case _ => false
  }

  /** The one request the hook refuses to look at although the mapping exists by then: page 0, executable. */
  predicate MapsPageZero(a: Action) { a.Mmap? && a.r.start == 0 && Executable(a.prot) }

  lemma AreaKnownWithoutFailure(o: Observer, cfg: Config, s: System, r: Range, from: nat, n: nat, prot: nat,
                                plan: WalkPlan)
    requires HookReady(cfg, s, r, prot, plan) && Known(o, s) && NoFailure(plan) && SeesAll(o, cfg)
    ensures AreaKnown(o, cfg, s, r, from, n, prot, plan)
  {
    hide Latest, UserPage, HookReady, Log;
    forall p | IsArea(s.space, r, from, n) && p in s.space && r.start <= p < r.start + r.n
               && ExecutableAfter(cfg, s, r, from, n, prot, plan, p)
      ensures KnownAfter(o, cfg, s, r, prot, plan, p)
    {
      if PassesGuards(r, prot) {
        NoFailureKnown(o, cfg, s, r, prot, plan, p);
      } else {
        NotHooked(cfg, s, r, from, n, prot, plan, p);
        NotLogged(o, cfg, s, r, prot, plan, p);
      }
    }
  }

  lemma NotHooked(cfg: Config, s: System, r: Range, from: nat, n: nat, prot: nat, plan: WalkPlan, p: nat)
    requires HookReady(cfg, s, r, prot, plan) && !PassesGuards(r, prot) && p in s.space
    requires ExecutableAfter(cfg, s, r, from, n, prot, plan, p)
    ensures Executable(s.space[p].prot)
  {
  }

  lemma NotLogged(o: Observer, cfg: Config, s: System, r: Range, prot: nat, plan: WalkPlan, p: nat)
    requires HookReady(cfg, s, r, prot, plan) && !PassesGuards(r, prot)
    ensures KnownAfter(o, cfg, s, r, prot, plan, p)
       <==> Latest(Log(o, s.link, s.carried), p) == Some(UserPage(s.space, p))
  {
  }

  lemma KeepsWithoutFailure(o: Observer, cfg: Config, s: System, a: Action)
    requires Enabled(cfg, s, a) && Known(o, s) && SeesAll(o, cfg) && !MapsPageZero(a)
    requires forall plan :: PlanOf(a, plan) ==> NoFailure(plan)
    ensures Keeps(o, cfg, s, a)
  {
    hide KnownAfter, Known, AreaKnown, HookReady, NoFailure;
    match a
    case Mmap(r, prot, plan) =>
      assert PlanOf(a, plan);
      if !MaskedWx(prot) && Executable(prot) {
        forall p | r.start <= p < r.start + r.n
          ensures KnownAfter(o, cfg, s.(space := MapFresh(s.space, r, prot)), r, prot, plan, p)
        {
          NoFailureKnown(o, cfg, s.(space := MapFresh(s.space, r, prot)), r, prot, plan, p);
        }
      }
    case Mprotect(r, from, n, prot, plan) =>
      assert PlanOf(a, plan);
      if !MaskedWx(prot) {
        AreaKnownWithoutFailure(o, cfg, s, r, from, n, prot, plan);
      }
    case PkeyMprotect(r, from, n, prot, plan) =>
      assert PlanOf(a, plan);
      if !MaskedWx(prot) {
        AreaKnownWithoutFailure(o, cfg, s, r, from, n, prot, plan);
      }
    case Load(p) =>
    case Store(p, bytes) =>
    case Munmap(r) =>
  }

  /**
   Snapshot soundness: when no allocation fails and page 0 is not mapped, every executable page equals, in every state
   of every run, what the most recent transfer covering it carried - with any server - and, with a server that keeps
   its buffer, the most recent dump.
   */
  lemma SnapshotSoundness(o: Observer, cfg: Config, states: seq<System>, actions: seq<Action>, i: nat)
    requires IsRun(cfg, states, actions) && WxSafe(states[0]) && Known(o, states[0]) && i < |states|
    requires SeesAll(o, cfg)
    requires forall j :: 0 <= j < |actions| ==> !MapsPageZero(actions[j])
    requires forall j, plan :: 0 <= j < |actions| && PlanOf(actions[j], plan) ==> NoFailure(plan)
    ensures WxSafe(states[i]) && Known(o, states[i])
  {
    NeverWritableAndExecutable(cfg, states, actions, i);
    SoundAlong(o, cfg, states, actions, i);
  }

  lemma {:induction false} SoundAlong(o: Observer, cfg: Config, states: seq<System>, actions: seq<Action>, i: nat)
    requires IsRun(cfg, states, actions) && WxSafe(states[0]) && Known(o, states[0]) && i < |states|
    requires SeesAll(o, cfg)
    requires forall j :: 0 <= j < |actions| ==> !MapsPageZero(actions[j])
    requires forall j, plan :: 0 <= j < |actions| && PlanOf(actions[j], plan) ==> NoFailure(plan)
    ensures Known(o, states[i])
  {
    hide Step, WxSafe, Known, Keeps, NoFailure, PlanOf, MapsPageZero;
    if i > 0 {
      SoundAlong(o, cfg, states, actions, i - 1);
      NeverWritableAndExecutable(cfg, states, actions, i - 1);
      KeepsWithoutFailure(o, cfg, states[i - 1], actions[i - 1]);
      StepExact(o, cfg, states[i - 1], actions[i - 1]);
    }
  }

  predicate DumpedAsZeros(log: seq<Dump>, n: nat)
  {
    forall p: nat :: p < n ==> Latest(log, p) == Some(Zeros(PAGE_SIZE))
  }

  /** An executable mapping at page 0 is harmless exactly when its pages are known to be zeros already. */
  lemma MapPageZeroExact(o: Observer, cfg: Config, s: System, a: Action)
    requires Enabled(cfg, s, a) && WxSafe(s) && Known(o, s) && MapsPageZero(a) && !MaskedWx(a.prot)
    ensures Known(o, Step(cfg, s, a)) <==> DumpedAsZeros(Log(o, s.link, s.carried), a.r.n)
  {
    hide Latest, HookReady, Log, Known;
    StepExact(o, cfg, s, a);
    var mapped := s.(space := MapFresh(s.space, a.r, a.prot));
    forall p: nat | p < a.r.n
      ensures KnownAfter(o, cfg, mapped, a.r, a.prot, a.plan, p)
         <==> Latest(Log(o, s.link, s.carried), p) == Some(Zeros(PAGE_SIZE))
    {
      NotLogged(o, cfg, mapped, a.r, a.prot, a.plan, p);
      assert UserPage(mapped.space, p) == Zeros(PAGE_SIZE);
    }
    hide KnownAfter;
  }

  // ------------------------------------------------------------------------------------------
  // The server as written, and failures
  // ------------------------------------------------------------------------------------------

  /**
   Page p of the range is in the payload of the end frame: in the run of touched pages that reaches the end of the
   range, or, if growing fails at callback k, it is the page of k and no hole comes right behind it.
   */
  ghost predicate InLastFrame(space: Space, r: Range, prot: nat, plan: WalkPlan, p: nat)
    requires (r.start + r.n) * PAGE_SIZE < U64_LIMIT && prot < U64_LIMIT && GoodPlan(space, r, plan)
    requires r.start <= p < r.start + r.n
  {
    var m, info := MachineOf(space), RangeInfo(r, prot, plan.tag);
    && (!Transfer(m, info, plan.events, plan.faults).memoryError ==>
          r.start + r.n - Trailing(RangeCells(space, r.start, r.n)) <= p)
    && forall k: nat :: k < |plan.events| && GrowthFailsAt(m, info, plan.events, plan.faults, k) ==>
         PageFlush(plan.events, k) == |plan.events| && p - r.start == |CellsTo(m, plan.events, k)|
  }

  lemma BrokenLastAt(m: Machine, events: seq<Event>, k: nat, j: nat)
    requires SendsAt(m, events, k) && j < |BrokenLast(m, events, k)|
    ensures BrokenLast(m, events, k)[j].Some? <==> PageFlush(events, k) == |events| && j == |CellsTo(m, events, k)|
  {
    hide CellsTo;
  }

  lemma LastOnlyAt(cells: seq<Option<Pfn>>, k: nat)
    requires k < |cells|
    ensures LastOnly(cells, Trailing(cells))[k].Some? <==> |cells| - Trailing(cells) <= k
  {
  }

  lemma LastSeenAt(m: Machine, info: Info, events: seq<Event>, faults: seq<Fault>, j: nat)
    requires |faults| == |events| + 1 && Describes(info, |Cells(m, events)|) && j < |Cells(m, events)|
    requires Positive(events) && EndSent(m, info, events, faults)
    ensures Seen(false, m, info, events, faults)[j].Some? <==>
              && (!Transfer(m, info, events, faults).memoryError ==>
                    |Cells(m, events)| - Trailing(Cells(m, events)) <= j)
              && forall k: nat :: k < |events| && GrowthFailsAt(m, info, events, faults, k) ==>
                   PageFlush(events, k) == |events| && j == |CellsTo(m, events, k)|
  {
    hide Transfer, GrowthFailsAt, Seen, CellsTo, BrokenLast, Trailing, LastOnly, Describes, EndSent, SendsAt, Heeded,
      Padded, PageFlush;
    SeenIsClosed(false, m, info, events, faults);
    GrowthFailure(m, info, events, faults);
    if !Transfer(m, info, events, faults).memoryError {
      LastOnlyAt(Cells(m, events), j);
    }
    forall k: nat | k < |events| && GrowthFailsAt(m, info, events, faults, k)
      ensures Seen(false, m, info, events, faults)[j].Some?
         <==> PageFlush(events, k) == |events| && j == |CellsTo(m, events, k)|
    {
      BrokenLastAt(m, events, k, j);
    }
  }

  /** Whether page p is known to the server as written after a hook: in the end frame or zero, or known already. */
  ghost predicate KnownAsWritten(s: System, r: Range, prot: nat, plan: WalkPlan, p: nat)
    requires (r.start + r.n) * PAGE_SIZE < U64_LIMIT && prot < U64_LIMIT && GoodPlan(s.space, r, plan)
    requires r.start <= p < r.start + r.n
  {
    if Logged(Receiver, s.space, r, prot, plan) then
      InLastFrame(s.space, r, prot, plan, p) || UserPage(s.space, p) == Zeros(PAGE_SIZE)
    else Latest(s.link.server.dumps, p) == Some(UserPage(s.space, p))
  }

  lemma AsWrittenKnown(cfg: Config, s: System, r: Range, prot: nat, plan: WalkPlan, p: nat)
    requires HookReady(cfg, s, r, prot, plan) && !cfg.keepUntilEnd && Positive(plan.events)
    requires r.start <= p < r.start + r.n
    ensures KnownAfter(Receiver, cfg, s, r, prot, plan, p) <==> KnownAsWritten(s, r, prot, plan, p)
  {
    hide Latest, UserPage, CellsTo, MachineOf, RangeCells, Callable, CallHook, Seen, EndSent, Trailing, Transfer,
      GrowthFailsAt, PageFlush, Positive;
    if Logged(Receiver, s.space, r, prot, plan) {
      var c := CallOf(s.space, r, prot, plan);
      assert Describes(c.info, |Cells(c.m, c.events)|);
      LastSeenAt(c.m, c.info, c.events, c.faults, p - r.start);
    }
  }

  /**
   With the server as written, whatever fails, a hook leaves the latest dump of a page of its range correct exactly when
   the end frame goes out and carries the page, or the page reads as zero; or when it does not go out, and the latest
   dump was correct before.
   */
  lemma AsWrittenPageExact(cfg: Config, s: System, r: Range, prot: nat, plan: WalkPlan, p: nat)
    requires HookReady(cfg, s, r, prot, plan) && Idle(s.link.server)
    requires !cfg.keepUntilEnd && Positive(plan.events) && r.start <= p < r.start + r.n
    ensures Latest(Hook(cfg, s, r, prot, plan).link.server.dumps, p) == Some(UserPage(s.space, p))
       <==> KnownAsWritten(s, r, prot, plan, p)
  {
    hide Latest, KnownAfter, KnownAsWritten, HookReady, Hook, UserPage, Positive;
    AsWrittenKnown(cfg, s, r, prot, plan, p);
    HookExact(Receiver, cfg, s, r, prot, plan, p);
  }

  /** The condition for a round with the server as written, in terms of the memory, the walk and its failures. */
  ghost predicate AreaAsWritten(cfg: Config, s: System, r: Range, from: nat, n: nat, prot: nat, plan: WalkPlan)
    requires HookReady(cfg, s, r, prot, plan)
  {
    IsArea(s.space, r, from, n) ==>
      forall p :: p in s.space && r.start <= p < r.start + r.n && ExecutableAfter(cfg, s, r, from, n, prot, plan, p) ==>
        KnownAsWritten(s, r, prot, plan, p)
  }

  /** The condition for an action: a fresh mapping is dumped, or known to be zeros; a round is as above. */
  ghost predicate KeepsAsWritten(cfg: Config, s: System, a: Action)
    requires Enabled(cfg, s, a)
  {
    match a
    case Mmap(r, prot, plan) =>
      MaskedWx(prot) || !Executable(prot)
      || Logged(Receiver, MapFresh(s.space, r, prot), r, prot, plan)
      || forall p :: r.start <= p < r.start + r.n ==> Latest(s.link.server.dumps, p) == Some(Zeros(PAGE_SIZE))
    case Mprotect(r, from, n, prot, plan) => MaskedWx(prot) || AreaAsWritten(cfg, s, r, from, n, prot, plan)
    case PkeyMprotect(r, from, n, prot, plan) => MaskedWx(prot) || AreaAsWritten(cfg, s, r, from, n, prot, plan)
    case Load(_) => true
    case Store(_, _) => true
    case Munmap(_) => true
  }

  lemma AreaAsWrittenExact(cfg: Config, s: System, r: Range, from: nat, n: nat, prot: nat, plan: WalkPlan)
    requires HookReady(cfg, s, r, prot, plan) && !cfg.keepUntilEnd && Positive(plan.events)
    ensures AreaKnown(Receiver, cfg, s, r, from, n, prot, plan) <==> AreaAsWritten(cfg, s, r, from, n, prot, plan)
  {
    hide Latest, HookReady, KnownAfter, ExecutableAfter, KnownAsWritten, Positive;
    RangeFits(cfg, s, r, prot, plan);
    forall p | r.start <= p < r.start + r.n
      ensures KnownAfter(Receiver, cfg, s, r, prot, plan, p) <==> KnownAsWritten(s, r, prot, plan, p)
    {
      AsWrittenKnown(cfg, s, r, prot, plan, p);
    }
  }

  /** A fresh page that the hook does not dump is known exactly when it is known to be zeros already. */
  lemma FreshUnlogged(cfg: Config, s: System, r: Range, prot: nat, plan: WalkPlan, p: nat)
    requires HookReady(cfg, s.(space := MapFresh(s.space, r, prot)), r, prot, plan)
    requires !Logged(Receiver, MapFresh(s.space, r, prot), r, prot, plan) && r.start <= p < r.start + r.n
    ensures KnownAfter(Receiver, cfg, s.(space := MapFresh(s.space, r, prot)), r, prot, plan, p)
       <==> Latest(s.link.server.dumps, p) == Some(Zeros(PAGE_SIZE))
  {
    hide Latest, Callable, CallHook, Logged;
  }

  lemma MapAsWritten(cfg: Config, s: System, r: Range, prot: nat, plan: WalkPlan)
    requires Enabled(cfg, s, Mmap(r, prot, plan)) && !MaskedWx(prot)
    ensures Keeps(Receiver, cfg, s, Mmap(r, prot, plan)) <==> KeepsAsWritten(cfg, s, Mmap(r, prot, plan))
  {
    hide KnownAfter, HookReady, Latest, Logged;
    var mapped := s.(space := MapFresh(s.space, r, prot));
    RangeFits(cfg, mapped, r, prot, plan);
    if Logged(Receiver, mapped.space, r, prot, plan) {
      forall p | r.start <= p < r.start + r.n
        ensures KnownAfter(Receiver, cfg, mapped, r, prot, plan, p)
      {
        FreshKnown(Receiver, cfg, s, r, prot, plan, p);
      }
    } else {
      forall p | r.start <= p < r.start + r.n
        ensures KnownAfter(Receiver, cfg, mapped, r, prot, plan, p)
           <==> Latest(s.link.server.dumps, p) == Some(Zeros(PAGE_SIZE))
      {
        FreshUnlogged(cfg, s, r, prot, plan, p);
      }
    }
  }

  lemma RangeFits(cfg: Config, s: System, r: Range, prot: nat, plan: WalkPlan)
    requires HookReady(cfg, s, r, prot, plan)
    ensures (r.start + r.n) * PAGE_SIZE < U64_LIMIT && prot < U64_LIMIT && |plan.faults| == |plan.events| + 1
    ensures GoodPlan(s.space, r, plan)
  {
  }

  lemma AsWrittenStep(cfg: Config, s: System, a: Action)
    requires Enabled(cfg, s, a) && !cfg.keepUntilEnd
    requires forall plan :: PlanOf(a, plan) ==> Positive(plan.events)
    ensures Keeps(Receiver, cfg, s, a) <==> KeepsAsWritten(cfg, s, a)
  {
    hide KnownAfter, AreaKnown, AreaAsWritten, HookReady, Positive, Logged, Latest;
    match a
    case Mmap(r, prot, plan) =>
      if !MaskedWx(prot) {
        MapAsWritten(cfg, s, r, prot, plan);
      }
    case Mprotect(r, from, n, prot, plan) =>
      assert PlanOf(a, plan);
      if !MaskedWx(prot) {
        AreaAsWrittenExact(cfg, s, r, from, n, prot, plan);
      }
    case PkeyMprotect(r, from, n, prot, plan) =>
      assert PlanOf(a, plan);
      if !MaskedWx(prot) {
        AreaAsWrittenExact(cfg, s, r, from, n, prot, plan);
      }
    case Load(p) =>
    case Store(p, bytes) =>
    case Munmap(r) =>
  }

  /**
   The server as written, over whole runs and whatever fails: every executable page equals its latest dump in every
   state if and only if every action satisfies the condition for the server as written.
   */
  lemma AsWrittenRunExact(cfg: Config, states: seq<System>, actions: seq<Action>)
    requires IsRun(cfg, states, actions) && WxSafe(states[0]) && Known(Receiver, states[0]) && !cfg.keepUntilEnd
    requires forall j, plan :: 0 <= j < |actions| && PlanOf(actions[j], plan) ==> Positive(plan.events)
    ensures (forall i :: 0 <= i < |states| ==> Known(Receiver, states[i]))
       <==> forall i :: 0 <= i < |actions| ==> KeepsAsWritten(cfg, states[i], actions[i])
  {
    hide Step, WxSafe, Known, Keeps, KeepsAsWritten, PlanOf, Positive;
    RunExact(Receiver, cfg, states, actions);
    forall i | 0 <= i < |actions|
      ensures Keeps(Receiver, cfg, states[i], actions[i]) <==> KeepsAsWritten(cfg, states[i], actions[i])
    {
      AsWrittenStep(cfg, states[i], actions[i]);
    }
  }

  /** The reply of an accepting analyzer, read whole or not at all, is the permission. */
  lemma PermittedByZero(cfg: Config, s: System, r: Range, prot: nat, plan: WalkPlan)
    requires HookReady(cfg, s, r, prot, plan) && PassesGuards(r, prot) && Idle(s.link.server) && s.link.unread == []
    requires plan.choice.pieces == [4] && NoFailure(plan) && forall d :: cfg.verdict(d) == 0
    ensures Hook(cfg, s, r, prot, plan).error == 0
  {
    hide CellsTo, RangeCells, MachineOf, EndSent, Stream, Consume, Possible, Transfer, OutOfMemory;
    var c := CallOf(s.space, r, prot, plan);
    EndSentWhenNothingLost(c.m, c.info, c.events, c.faults);
    GrowingKeepsAll(c.m, c.info, c.events, c.faults);
    assert !OutOfMemory(c) by {
      NotOutOfMemory(c);
    }
    WholeReplyIs(cfg, s.link, c);
    OneCall(cfg, s.link, c, plan.choice);
    var called := CallHook(cfg, s.link, c, plan.choice);
    RoundTrip32(0);
    if called.outcome.Returned? {
      WholeTaken(called.taken, called.link.unread, s.link.unread, Encode32(0));
    }
  }

  lemma NotOutOfMemory(c: Call)
    requires c.Pages? && |c.faults| == |c.events| + 1 && !Transfer(c.m, c.info, c.events, c.faults).memoryError
    ensures !OutOfMemory(c)
  {
  }

  lemma WholeTaken(taken: seq<byte>, rest: seq<byte>, before: seq<byte>, reply: seq<byte>)
    requires taken + rest == before + reply && before == [] && |taken| == |reply|
    ensures taken == reply
  {
    assert taken == (taken + rest)[..|taken|];
  }

  /** A page that a round makes executable without its being known is an executable page that is not known. */
  lemma AsWrittenLoses(cfg: Config, s: System, r: Range, from: nat, n: nat, prot: nat, plan: WalkPlan, p: nat)
    requires HookReady(cfg, s, r, prot, plan) && WxSafe(s) && Known(Receiver, s)
    requires !cfg.keepUntilEnd && Positive(plan.events)
    requires IsArea(s.space, r, from, n) && from <= p < from + n && p in s.space
    requires !KnownAsWritten(s, r, prot, plan, p) && Executable(prot) && Hook(cfg, s, r, prot, plan).error == 0
    ensures !Known(Receiver, ProtectArea(cfg, s, r, from, n, prot, plan))
  {
    hide HookReady, Hook, ProtectArea, AreaKnown, Known, WxSafe, Positive, KnownAsWritten;
    AreaExact(Receiver, cfg, s, r, from, n, prot, plan);
    AreaAsWrittenExact(cfg, s, r, from, n, prot, plan);
    assert ExecutableAfter(cfg, s, r, from, n, prot, plan, p);
  }

  /** Without a failure only the run that reaches the end of the range is in the end frame. */
  lemma NotInLastFrame(cfg: Config, s: System, r: Range, prot: nat, plan: WalkPlan, p: nat)
    requires HookReady(cfg, s, r, prot, plan) && NoFailure(plan) && PassesGuards(r, prot)
    requires r.start <= p < r.start + r.n - Trailing(RangeCells(s.space, r.start, r.n))
    requires UserPage(s.space, p) != Zeros(PAGE_SIZE)
    ensures !KnownAsWritten(s, r, prot, plan, p)
  {
    hide Callable, CallHook, CellsTo, RangeCells, MachineOf, EndSent, Transfer, Trailing, UserPage, Zeros, Heeded,
      GrowthFailsAt, Latest;
    var c := CallOf(s.space, r, prot, plan);
    assert Describes(c.info, |Cells(c.m, c.events)|);
    EndSentWhenNothingLost(c.m, c.info, c.events, c.faults);
    GrowingKeepsAll(c.m, c.info, c.events, c.faults);
  }

  /** Two writable pages of which only the first has been touched. */
  function TwoPages(): Space { map[1 := Page(2, Some(seq(PAGE_SIZE, _ => 1)), false), 2 := Page(2, None, false)] }

  lemma TwoPagesFacts()
    ensures IsArea(TwoPages(), Range(1, 2), 1, 2) && 1 in TwoPages()
    ensures Trailing(RangeCells(TwoPages(), 1, 2)) == 0 && UserPage(TwoPages(), 1) != Zeros(PAGE_SIZE)
    ensures forall p :: p in TwoPages() ==> !Executable(TwoPages()[p].prot)
  {
    assert UserPage(TwoPages(), 1)[0] == 1;
    assert RangeCells(TwoPages(), 1, 2)[1].None?;
  }

  /**
   So there is a state all of whose executable pages are known, and one mprotect round without any failure that leaves
   an executable page whose latest dump is wrong.
   */
  lemma AsWrittenLosesPage(cfg: Config, tag: Info) returns (s: System, a: Action)
    requires !cfg.keepUntilEnd && 2 * PAGE_SIZE <= cfg.limit && forall d :: cfg.verdict(d) == 0
    ensures Enabled(cfg, s, a) && WxSafe(s) && Known(Receiver, s) && !Known(Receiver, Step(cfg, s, a))
  {
    hide TwoPages, Latest, Hook, HookReady, IsArea, NoFailure, ProtectArea, KnownAsWritten, RangeCells, UserPage;
    TwoPagesFacts();
    s := System(TwoPages(), Link(Server(None, [], [], Running), []), []);
    var r := Range(1, 2);
    var plan := PlanExists(cfg, s, r, 4, tag);
    a := Mprotect(r, 1, 2, 4, plan);
    PermittedByZero(cfg, s, r, 4, plan);
    NotInLastFrame(cfg, s, r, 4, plan, 1);
    AsWrittenLoses(cfg, s, r, 1, 2, 4, plan, 1);
  }

  /**
   After a failure to grow the page array the round changes no right: the executable pages are those of before, and each
   page of the range among them stays known exactly when the broken transfer shows it or it reads as zero.
   */
  lemma GrowthFailureExact(o: Observer, cfg: Config, s: System, r: Range, from: nat, n: nat, prot: nat, plan: WalkPlan)
    requires HookReady(cfg, s, r, prot, plan) && PassesGuards(r, prot) && IsArea(s.space, r, from, n)
    requires WxSafe(s) && Known(o, s) && OutOfMemory(CallOf(s.space, r, prot, plan))
    ensures ProtectArea(cfg, s, r, from, n, prot, plan).space == s.space
    ensures Known(o, ProtectArea(cfg, s, r, from, n, prot, plan)) <==>
              (Logged(o, s.space, r, prot, plan) ==>
                 forall p :: p in s.space && r.start <= p < r.start + r.n && Executable(s.space[p].prot) ==>
                   || Visible(o, cfg, s.space, r, prot, plan)[p - r.start].Some?
                   || UserPage(s.space, p) == Zeros(PAGE_SIZE))
  {
    hide Latest, UserPage, RangeCells, MachineOf, CellsTo, Seen, Consume, Possible, OutOfMemory, Stream;
    assert Hook(cfg, s, r, prot, plan).error == -ENOMEM;
    hide Hook, Callable, CallHook;
    hide ProtectArea;
    SameRights(cfg, s, r, from, n, prot, plan);
    AreaExact(o, cfg, s, r, from, n, prot, plan);
  }

  lemma SameRights(cfg: Config, s: System, r: Range, from: nat, n: nat, prot: nat, plan: WalkPlan)
    requires HookReady(cfg, s, r, prot, plan) && Hook(cfg, s, r, prot, plan).error != 0
    ensures ProtectArea(cfg, s, r, from, n, prot, plan).space == s.space
  {
  }

  /** What failures leave visible of a range, to the sender and to either server. */
  lemma VisibleIsClosed(o: Observer, cfg: Config, space: Space, r: Range, prot: nat, plan: WalkPlan)
    requires GoodRange(cfg, r, prot) && GoodPlan(space, r, plan)
    requires SeesAll(o, cfg) || (Positive(plan.events) && Ends(CallOf(space, r, prot, plan)))
    ensures var m, info, cells := MachineOf(space), RangeInfo(r, prot, plan.tag), RangeCells(space, r.start, r.n);
            var end := |plan.events|;
            && (!Transfer(m, info, plan.events, plan.faults).memoryError ==>
                  Visible(o, cfg, space, r, prot, plan)
                  == if SeesAll(o, cfg) then Delivered(m, plan.events, plan.faults, end, end)
                     else LastOnly(cells, Trailing(cells)))
            && forall k: nat :: k < end && GrowthFailsAt(m, info, plan.events, plan.faults, k) ==>
                 && SendsAt(m, plan.events, k)
                 && Visible(o, cfg, space, r, prot, plan)
                    == if SeesAll(o, cfg) then Broken(m, plan.events, plan.faults, k) else BrokenLast(m, plan.events, k)
  {
    hide CellsTo, MachineOf, RangeCells, Delivered, Transfer, GrowthFailsAt, EndSent, Seen, Broken, BrokenLast,
      LastOnly, Trailing, SendsAt, Positive;
    var m, info := MachineOf(space), RangeInfo(r, prot, plan.tag);
    assert Describes(info, |Cells(m, plan.events)|);
    SeenIsClosed(SeesAll(o, cfg), m, info, plan.events, plan.faults);
  }

  // ------------------------------------------------------------------------------------------
  // That all this can happen
  // ------------------------------------------------------------------------------------------

  /** Every range can be walked: page by page, each entry present when the page has been read or written. */
  lemma WalkExists(space: Space, r: Range, tag: Info, choice: Choice) returns (plan: WalkPlan)
    ensures GoodPlan(space, r, plan) && NoFailure(plan) && Positive(plan.events)
    ensures plan.tag == tag && plan.choice == choice
  {
    var events := seq(r.n, (i: nat) => Entry(Pte(Present(space, r.start + i), r.start + i)));
    plan := WalkPlan(events, seq(r.n + 1, _ => Fault(true, true, true)), tag, choice);
    EntryCells(space, r, events, r.n);
  }

  lemma EntryCell(space: Space, p: nat)
    ensures CellsOf(MachineOf(space), Entry(Pte(Present(space, p), p))) == [if Touched(space, p) then Some(p) else None]
  {
  }

  lemma {:induction false} EntryCells(space: Space, r: Range, events: seq<Event>, i: nat)
    requires |events| == r.n && i <= r.n
    requires forall j :: 0 <= j < r.n ==> events[j] == Entry(Pte(Present(space, r.start + j), r.start + j))
    ensures CellsTo(MachineOf(space), events, i) == RangeCells(space, r.start, i)
  {
    hide MachineOf, CellsOf, Touched, Present;
    if i > 0 {
      EntryCells(space, r, events, i - 1);
      EntryCell(space, r.start + i - 1);
      assert RangeCells(space, r.start, i)
          == RangeCells(space, r.start, i - 1)
             + [if Touched(space, r.start + i - 1) then Some(r.start + i - 1) else None];
    }
  }

  /** From an idle server with nothing unread, a hook can always run without a failure, and return. */
  lemma PlanExists(cfg: Config, s: System, r: Range, prot: nat, tag: Info) returns (plan: WalkPlan)
    requires GoodRange(cfg, r, prot) && Idle(s.link.server) && s.link.unread == []
    ensures HookReady(cfg, s, r, prot, plan) && NoFailure(plan) && Positive(plan.events) && plan.choice.pieces == [4]
  {
    hide MachineOf, RangeCells, CellsTo, EndSent, Callable, CallHook, Idle;
    var walk := WalkExists(s.space, r, tag, Choice([4], 0, []));
    var c := CallOf(s.space, r, prot, walk);
    ProperWithoutFailure(cfg, s.space, r, prot, walk);
    var e := SomeChoice(cfg, s.link, c);
    plan := walk.(choice := e);
    assert CallOf(s.space, r, prot, plan) == c;
  }

  lemma ProperWithoutFailure(cfg: Config, space: Space, r: Range, prot: nat, plan: WalkPlan)
    requires GoodRange(cfg, r, prot) && GoodPlan(space, r, plan) && NoFailure(plan)
    ensures Proper(cfg, CallOf(space, r, prot, plan)) && Ends(CallOf(space, r, prot, plan))
  {
    hide MachineOf, RangeCells, CellsTo, EndSent;
    var c := CallOf(space, r, prot, plan);
    EndSentWhenNothingLost(c.m, c.info, c.events, c.faults);
  }
}
