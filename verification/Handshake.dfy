/**
 The netlink-mode handshake: a hook, the kernel thread it starts in the analyzer's address space, and the
 analyzer, as an interleaving transition system over the shared record and three global completions.

 One hook is in flight at a time; the completions are globals, and the code does not support more.
 */
module Handshake {
  import opened Basics
  import opened Bytes

  /** Whose hook it is: mmap's, mprotect's (which remaps pages first) or bpf's (which copies a program in). */
  datatype Kind = MmapHook | MprotectHook | BpfHook

  /** Where the hook stands, named after what it does next. */
  datatype HookPc =
    | Idle | InitMapped | Spawn | WaitMapped | CheckAddress | Remap | Notify | WaitReply | ReinitReady
    | CompleteUnmap | SetStop | Join | FreeRecord | Return

  /** Where the kernel thread stands. */
  datatype ThreadPc =
    | NotStarted | MapRange | CopyIn | InitUnmap | SignalMapped | Branch | WaitUnmap | Unmap | Unuse | Spin | Gone

  /** Where the analyzer stands, and for which request. */
  datatype AnalyzerPc = Listening | Reading(id: nat) | SetResponse(id: nat) | CompleteReady

  datatype State = State(
    kind: Kind,
    request: nat,
    hook: HookPc,
    thread: ThreadPc,
    analyzer: AnalyzerPc,
    inbox: seq<nat>,
    mappedDone: nat,
    unmapReady: nat,
    ready: nat,
    shouldStop: bool,
    recordLive: bool,
    address: bool,
    mapped: bool,
    notified: bool,
    lost: bool,
    response: u32,
    returned: seq<int>)

  /** A step of one actor; `ok` is the outcome where the step can fail. */
  datatype Action = Begin(kind: Kind) | HookStep(ok: bool) | ThreadStep(ok: bool) | AnalyzerStep

  const START :=
    State(MmapHook, 0, Idle, NotStarted, Listening, [], 0, 0, 0, false, false, false, false, false, false, 0, [])

  // How far each actor is from the end of its part of a request.

  function HookRank(pc: HookPc): nat
  {
    match pc
    case Idle => 0
    case Return => 1
    case FreeRecord => 2
    case Join => 3
    case SetStop => 4
    case CompleteUnmap => 5
    case ReinitReady => 6
    case WaitReply => 7
    case Notify => 8
    case Remap => 9
    case CheckAddress => 10
    case WaitMapped => 11
    case Spawn => 12
    case InitMapped => 13
  }

  function ThreadRank(pc: ThreadPc): nat
  {
    match pc
    case Gone => 0
    case Spin => 1
    case Unuse => 2
    case Unmap => 3
    case WaitUnmap => 4
    case Branch => 5
    case SignalMapped => 6
    case InitUnmap => 7
    case CopyIn => 8
    case MapRange => 9
    case NotStarted => 10
  }

  function AnalyzerRank(pc: AnalyzerPc): nat
  {
    match pc
    case Listening => 0
    case CompleteReady => 1
    case SetResponse(_) => 2
    case Reading(_) => 3
  }

  /** A new hook call: the record is allocated and filled in. */
  function BeginRequest(s: State, kind: Kind): Option<State>
  {
    if s.hook != Idle then None
    else
      Some(s.(kind := kind, request := s.request + 1, hook := InitMapped, thread := NotStarted, shouldStop := false,
              recordLive := true, address := false, notified := false, lost := false))
  }

  function HookMove(s: State, ok: bool): Option<State>
  {
    match s.hook
    case Idle => None
    case InitMapped => Some(s.(mappedDone := 0, hook := Spawn))
    case Spawn => Some(if ok then s.(thread := MapRange, hook := WaitMapped) else s.(hook := FreeRecord))
    case WaitMapped =>
      if s.mappedDone == 0 then None else Some(s.(mappedDone := s.mappedDone - 1, hook := CheckAddress))
    case CheckAddress =>
      Some(s.(hook := if !s.address then SetStop else if s.kind == MprotectHook then Remap else Notify))
    case Remap => Some(s.(hook := if ok then Notify else CompleteUnmap))
    case Notify =>
      Some(s.(hook := WaitReply, notified := true, lost := !ok, inbox := if ok then s.inbox + [s.request] else s.inbox))
    case WaitReply => if s.ready == 0 then None else Some(s.(ready := s.ready - 1, hook := ReinitReady))
    case ReinitReady => Some(s.(ready := 0, hook := CompleteUnmap))
    case CompleteUnmap => Some(s.(unmapReady := s.unmapReady + 1, hook := SetStop))
    case SetStop => Some(s.(shouldStop := true, hook := Join))
    case Join => if s.thread == Gone then Some(s.(hook := FreeRecord)) else None
    case FreeRecord => Some(s.(recordLive := false, hook := Return))
    case Return => Some(s.(hook := Idle, returned := s.returned + [if s.notified then NegatedInt(s.response) else 0]))
  }

  function ThreadMove(s: State, ok: bool): Option<State>
  {
    match s.thread
    case NotStarted => None
    case MapRange =>
      Some(s.(address := ok, mapped := ok, thread := if s.kind == BpfHook && ok then CopyIn else InitUnmap))
    case CopyIn => Some(s.(address := ok, mapped := ok, thread := InitUnmap))
    case InitUnmap => Some(s.(unmapReady := 0, thread := SignalMapped))
    case SignalMapped => Some(s.(mappedDone := s.mappedDone + 1, thread := Branch))
    case Branch => Some(s.(thread := if s.address then WaitUnmap else Spin))
    case WaitUnmap => if s.unmapReady == 0 then None else Some(s.(unmapReady := s.unmapReady - 1, thread := Unmap))
    case Unmap => Some(s.(mapped := false, thread := Unuse))
    case Unuse => Some(s.(thread := Spin))
    case Spin => if s.shouldStop then Some(s.(thread := Gone)) else None
    case Gone => None
  }

  /** The analyzer takes a notification, reads the mapping, and answers; `lsm_receive_reply` stores and signals. */
  function AnalyzerMove(s: State, verdict: nat -> u32): (next: Option<State>)
    ensures next.Some? ==> next.value.hook == s.hook && next.value.thread == s.thread
    ensures next.Some? ==>
              AnalyzerRank(next.value.analyzer) + 4 * |next.value.inbox| < AnalyzerRank(s.analyzer) + 4 * |s.inbox|
  {
    match s.analyzer
    case Listening => if s.inbox == [] then None else Some(s.(inbox := s.inbox[1..], analyzer := Reading(s.inbox[0])))
    case Reading(id) => Some(s.(analyzer := SetResponse(id)))
    case SetResponse(id) => Some(s.(response := verdict(id), analyzer := CompleteReady))
    case CompleteReady => Some(s.(ready := s.ready + 1, analyzer := Listening))
  }

  function Move(s: State, a: Action, verdict: nat -> u32): Option<State>
  {
    match a
    case Begin(kind) => BeginRequest(s, kind)
    case HookStep(ok) => HookMove(s, ok)
    case ThreadStep(ok) => ThreadMove(s, ok)
    case AnalyzerStep => AnalyzerMove(s, verdict)
  }

  // ------------------------------------------------------------------------------------------
  // The invariant
  // ------------------------------------------------------------------------------------------

  predicate Quiet(s: State) { s.analyzer == Listening && s.inbox == [] && s.ready == 0 }

  /** The thread has announced its mapping, and has not been released. */
  predicate Parked(s: State)
  {
    && s.unmapReady == 0 && !s.shouldStop
    && (s.thread == Branch || s.thread == if s.address then WaitUnmap else Spin)
    && s.mapped == s.address
  }

  /** The thread before its announcement. */
  predicate Mapping(s: State)
  {
    && s.mappedDone == 0 && !s.shouldStop
    && (s.thread == MapRange || (s.thread == CopyIn && s.mapped && s.address)
        || s.thread == InitUnmap || (s.thread == SignalMapped && s.unmapReady == 0))
    && (s.thread != MapRange ==> s.mapped == s.address)
    && (s.thread == MapRange ==> !s.mapped)
  }

  /** The thread on its way out: woken exactly once if it had a mapping, and by nothing but its stop flag if not. */
  predicate Leaving(s: State)
  {
    if !s.address then
      s.unmapReady == 0 && !s.mapped && (s.thread == Branch || s.thread == Spin || (s.thread == Gone && s.shouldStop))
    else
      || (s.unmapReady == 1 && s.mapped && (s.thread == Branch || s.thread == WaitUnmap))
      || (s.unmapReady == 0 && s.mapped && s.thread == Unmap)
      || (s.unmapReady == 0 && !s.mapped
          && (s.thread == Unuse || s.thread == Spin || (s.thread == Gone && s.shouldStop)))
  }

  /** Exactly one of: notification under way, analyzer at work, reply signalled - or the notification was lost. */
  predicate AwaitingReply(s: State, verdict: nat -> u32)
  {
    if s.lost then Quiet(s)
    else
      || (s.inbox == [s.request] && s.analyzer == Listening && s.ready == 0)
      || (s.inbox == [] && s.ready == 0 && (s.analyzer == Reading(s.request) || s.analyzer == SetResponse(s.request)))
      || (s.inbox == [] && s.ready == 0 && s.analyzer == CompleteReady && s.response == verdict(s.request))
      || (s.inbox == [] && s.ready == 1 && s.analyzer == Listening && s.response == verdict(s.request))
  }

  /** A reply, if there is one, is the one to this request. */
  predicate Replied(s: State, verdict: nat -> u32)
  {
    Quiet(s) && (s.notified ==> s.response == verdict(s.request) && !s.lost)
  }

  ghost predicate Inv(s: State, verdict: nat -> u32)
  {
    match s.hook
    case Idle => Quiet(s) && !s.mapped && !s.recordLive && (s.thread == NotStarted || s.thread == Gone)
    case InitMapped => Quiet(s) && !s.mapped && s.recordLive && s.thread == NotStarted && !s.notified && !s.shouldStop
    case Spawn =>
      && Quiet(s) && !s.mapped && s.recordLive && s.thread == NotStarted && !s.notified && !s.shouldStop
      && s.mappedDone == 0
    case WaitMapped => Quiet(s) && s.recordLive && !s.notified && (Mapping(s) || (s.mappedDone == 1 && Parked(s)))
    case CheckAddress => Quiet(s) && s.recordLive && !s.notified && Parked(s)
    case Remap => Quiet(s) && s.recordLive && !s.notified && Parked(s) && s.address
    case Notify => Quiet(s) && s.recordLive && !s.notified && Parked(s) && s.address
    case WaitReply => s.recordLive && s.notified && Parked(s) && s.address && AwaitingReply(s, verdict)
    case ReinitReady => s.recordLive && s.notified && Parked(s) && s.address && Replied(s, verdict)
    case CompleteUnmap => s.recordLive && Parked(s) && s.address && Replied(s, verdict)
    case SetStop => s.recordLive && !s.shouldStop && Leaving(s) && Replied(s, verdict)
    case Join => s.recordLive && s.shouldStop && Leaving(s) && Replied(s, verdict)
    case FreeRecord => s.recordLive && !s.mapped && Replied(s, verdict) && (s.thread == Gone || s.thread == NotStarted)
    case Return => !s.recordLive && !s.mapped && Replied(s, verdict) && (s.thread == Gone || s.thread == NotStarted)
  }

  /** The hook's steps up to the notification. */
  lemma AskingKeepsInv(s: State, ok: bool, verdict: nat -> u32)
    requires Inv(s, verdict) && HookMove(s, ok).Some?
    requires s.hook.InitMapped? || s.hook.Spawn? || s.hook.WaitMapped? || s.hook.CheckAddress? || s.hook.Remap?
    ensures Inv(HookMove(s, ok).value, verdict)
  {
  }

  /** The notification, and the hook's steps up to the thread's release. */
  lemma WaitingKeepsInv(s: State, ok: bool, verdict: nat -> u32)
    requires Inv(s, verdict) && HookMove(s, ok).Some?
    requires s.hook.Notify? || s.hook.WaitReply? || s.hook.ReinitReady? || s.hook.CompleteUnmap?
    ensures Inv(HookMove(s, ok).value, verdict)
  {
  }

  /** The hook's steps from the stop request to its return. */
  lemma LeavingKeepsInv(s: State, ok: bool, verdict: nat -> u32)
    requires Inv(s, verdict) && HookMove(s, ok).Some?
    requires s.hook.SetStop? || s.hook.Join? || s.hook.FreeRecord? || s.hook.Return?
    ensures Inv(HookMove(s, ok).value, verdict)
  {
  }

  lemma HookKeepsInv(s: State, ok: bool, verdict: nat -> u32)
    requires Inv(s, verdict) && HookMove(s, ok).Some?
    ensures Inv(HookMove(s, ok).value, verdict)
  {
    hide Inv;
    if s.hook.InitMapped? || s.hook.Spawn? || s.hook.WaitMapped? || s.hook.CheckAddress? || s.hook.Remap? {
      AskingKeepsInv(s, ok, verdict);
    } else if s.hook.Notify? || s.hook.WaitReply? || s.hook.ReinitReady? || s.hook.CompleteUnmap? {
      WaitingKeepsInv(s, ok, verdict);
    } else {
      assert !s.hook.Idle?;
      hide HookMove;
      LeavingKeepsInv(s, ok, verdict);
    }
  }

  lemma MappingThreadMoves(s: State, ok: bool)
    requires (Mapping(s) || (s.mappedDone == 1 && Parked(s))) && ThreadMove(s, ok).Some?
    ensures var s' := ThreadMove(s, ok).value; Mapping(s') || (s'.mappedDone == 1 && Parked(s'))
  {
  }

  lemma ParkedThreadMoves(s: State, ok: bool)
    requires Parked(s) && ThreadMove(s, ok).Some?
    ensures ThreadMove(s, ok).value == s.(thread := if s.address then WaitUnmap else Spin)
    ensures Parked(ThreadMove(s, ok).value)
  {
  }

  lemma LeavingThreadMoves(s: State, ok: bool)
    requires Leaving(s) && ThreadMove(s, ok).Some?
    ensures Leaving(ThreadMove(s, ok).value)
  {
  }

  lemma ThreadKeepsInv(s: State, ok: bool, verdict: nat -> u32)
    requires Inv(s, verdict) && ThreadMove(s, ok).Some?
    ensures Inv(ThreadMove(s, ok).value, verdict)
  {
    match s.hook
    case WaitMapped => MappingThreadMoves(s, ok); hide Mapping, Parked;
    case CheckAddress => ParkedThreadMoves(s, ok); hide Parked, ThreadMove;
    case Remap => ParkedThreadMoves(s, ok); hide Parked, ThreadMove;
    case Notify => ParkedThreadMoves(s, ok); hide Parked, ThreadMove;
    case WaitReply => ParkedThreadMoves(s, ok); hide Parked, ThreadMove;
    case ReinitReady => ParkedThreadMoves(s, ok); hide Parked, ThreadMove;
    case CompleteUnmap => ParkedThreadMoves(s, ok); hide Parked, ThreadMove;
    case SetStop => LeavingThreadMoves(s, ok); hide Leaving;
    case Join => LeavingThreadMoves(s, ok); hide Leaving;
    case _ =>
  }

  lemma AnalyzerKeepsInv(s: State, verdict: nat -> u32)
    requires Inv(s, verdict) && AnalyzerMove(s, verdict).Some?
    ensures Inv(AnalyzerMove(s, verdict).value, verdict)
  {
  }

  lemma MoveKeepsInv(s: State, a: Action, verdict: nat -> u32)
    requires Inv(s, verdict) && Move(s, a, verdict).Some?
    ensures Inv(Move(s, a, verdict).value, verdict)
  {
    match a
    case Begin(kind) =>
    case HookStep(ok) => HookKeepsInv(s, ok, verdict);
    case ThreadStep(ok) => ThreadKeepsInv(s, ok, verdict);
    case AnalyzerStep => AnalyzerKeepsInv(s, verdict);
  }

  /** An interleaving: each state follows from the one before by one actor's step. */
  ghost predicate IsRun(states: seq<State>, actions: seq<Action>, verdict: nat -> u32)
  {
    && |states| == |actions| + 1 && states[0] == START
    && forall i :: 0 <= i < |actions| ==> Move(states[i], actions[i], verdict) == Some(states[i + 1])
  }

  lemma {:induction false} RunKeepsInv(states: seq<State>, actions: seq<Action>, verdict: nat -> u32, i: nat)
    requires IsRun(states, actions, verdict) && i < |states|
    ensures Inv(states[i], verdict)
  {
    if i > 0 {
      RunKeepsInv(states, actions, verdict, i - 1);
      assert Move(states[i - 1], actions[i - 1], verdict) == Some(states[i - 1 + 1]);
      MoveKeepsInv(states[i - 1], actions[i - 1], verdict);
    }
  }

  // ------------------------------------------------------------------------------------------
  // Safety
  // ------------------------------------------------------------------------------------------

  /** The thread's next step reads or writes the shared record. */
  predicate TouchesRecord(pc: ThreadPc)
  {
    pc == MapRange || pc == CopyIn || pc == InitUnmap || pc == SignalMapped || pc == Branch || pc == WaitUnmap
    || pc == Unmap || pc == Unuse
  }

  /** A request has been notified and not answered yet. */
  predicate Pending(s: State) { s.inbox != [] || s.analyzer.Reading? || s.analyzer.SetResponse? }

  /**
   In every state of every interleaving: the mapping exists while a notification is unanswered; the record is
   allocated while the thread can touch it; the thread initialises `analyzer_munmap_ready` only before the hook
   gets to complete it, and a completed one is still there for the thread to consume.
   */
  lemma HandshakeSafe(states: seq<State>, actions: seq<Action>, verdict: nat -> u32, i: nat)
    requires IsRun(states, actions, verdict) && i < |states|
    ensures var s := states[i];
            && (Pending(s) ==> s.mapped)
            && (TouchesRecord(s.thread) ==> s.recordLive)
            && (s.thread == InitUnmap ==> s.hook == WaitMapped)
            && (s.hook == SetStop || s.hook == Join ==>
                  (s.address && (s.thread == Branch || s.thread == WaitUnmap) ==> s.unmapReady == 1))
            && (s.hook == FreeRecord ==> !TouchesRecord(s.thread) && !s.mapped)
  {
    RunKeepsInv(states, actions, verdict, i);
  }

  /** The value a hook returns is 0 if it never asked, and otherwise the negation of the answer to its own request. */
  lemma ReturnsOwnVerdict(states: seq<State>, actions: seq<Action>, verdict: nat -> u32, i: nat)
    requires IsRun(states, actions, verdict) && i < |actions| && states[i].hook == Return && actions[i].HookStep?
    ensures states[i + 1].returned
         == states[i].returned + [if states[i].notified then NegatedInt(verdict(states[i].request)) else 0]
  {
    RunKeepsInv(states, actions, verdict, i);
    assert Move(states[i], actions[i], verdict) == Some(states[i + 1]);
  }

  // ------------------------------------------------------------------------------------------
  // Progress
  // ------------------------------------------------------------------------------------------

  /** How many steps a request can still take, at most. */
  function Rank(s: State): nat
  {
    5 * HookRank(s.hook) + ThreadRank(s.thread) + AnalyzerRank(s.analyzer) + 4 * |s.inbox|
  }

  lemma HookStepCounts(s: State, ok: bool, verdict: nat -> u32)
    requires Inv(s, verdict) && HookMove(s, ok).Some?
    ensures Rank(HookMove(s, ok).value) < Rank(s)
  {
    var s' := HookMove(s, ok).value;
    assert ThreadRank(s'.thread) <= ThreadRank(s.thread);
    assert |s'.inbox| <= |s.inbox| + if s.hook == Notify then 1 else 0;
  }

  /** The thread comes closer to its end, and nothing else that the rank depends on changes. */
  predicate ThreadAdvances(s: State, s': State)
  {
    s'.hook == s.hook && s'.analyzer == s.analyzer && s'.inbox == s.inbox
    && ThreadRank(s'.thread) < ThreadRank(s.thread)
  }

  lemma ThreadMapsOn(s: State, ok: bool)
    requires s.thread == MapRange || s.thread == CopyIn || s.thread == InitUnmap
    requires ThreadMove(s, ok).Some?
    ensures ThreadAdvances(s, ThreadMove(s, ok).value)
  {
  }

  lemma ThreadParks(s: State, ok: bool)
    requires s.thread == SignalMapped || s.thread == Branch || s.thread == WaitUnmap
    requires ThreadMove(s, ok).Some?
    ensures ThreadAdvances(s, ThreadMove(s, ok).value)
  {
  }

  lemma ThreadLeaves(s: State, ok: bool)
    requires s.thread == Unmap || s.thread == Unuse || s.thread == Spin
    requires ThreadMove(s, ok).Some?
    ensures ThreadAdvances(s, ThreadMove(s, ok).value)
  {
  }

  lemma ThreadStepAdvances(s: State, ok: bool)
    requires ThreadMove(s, ok).Some?
    ensures ThreadAdvances(s, ThreadMove(s, ok).value)
  {
    hide ThreadRank;
    if s.thread == MapRange || s.thread == CopyIn || s.thread == InitUnmap {
      ThreadMapsOn(s, ok); hide *;
    } else if s.thread == SignalMapped || s.thread == Branch || s.thread == WaitUnmap {
      ThreadParks(s, ok); hide *;
    } else {
      assert s.thread != NotStarted && s.thread != Gone;
      ThreadLeaves(s, ok); hide *;
    }
  }

  lemma ThreadStepCounts(s: State, ok: bool)
    requires ThreadMove(s, ok).Some?
    ensures Rank(ThreadMove(s, ok).value) < Rank(s)
  {
    ThreadStepAdvances(s, ok);
    hide ThreadMove, HookRank, ThreadRank, AnalyzerRank;
  }

  lemma AnalyzerStepCounts(s: State, verdict: nat -> u32)
    requires AnalyzerMove(s, verdict).Some?
    ensures Rank(AnalyzerMove(s, verdict).value) < Rank(s)
  {
    hide AnalyzerMove, HookRank, ThreadRank, AnalyzerRank;
  }

  /** Whichever actor moves, the request comes closer to its end; so it ends under every schedule. */
  lemma EveryStepCounts(s: State, a: Action, verdict: nat -> u32)
    requires Inv(s, verdict) && Move(s, a, verdict).Some? && !a.Begin?
    ensures Rank(Move(s, a, verdict).value) < Rank(s)
  {
    hide Inv, Rank;
    match a
    case HookStep(ok) => HookStepCounts(s, ok, verdict);
    case ThreadStep(ok) => ThreadStepCounts(s, ok);
    case AnalyzerStep => AnalyzerStepCounts(s, verdict);
  }

  ghost predicate Stuck(s: State, verdict: nat -> u32)
  {
    forall a: Action :: Move(s, a, verdict).None?
  }

  /** Between two requests, however the actors are scheduled, there are at most as many steps as the rank says. */
  lemma {:induction false} RequestsAreShort(states: seq<State>, actions: seq<Action>, verdict: nat -> u32, i: nat,
                                            j: nat)
    requires IsRun(states, actions, verdict) && i <= j < |states|
    requires forall k :: i <= k < j ==> !actions[k].Begin?
    ensures Rank(states[j]) + (j - i) <= Rank(states[i])
  {
    hide Rank, Move, Inv;
    if i < j {
      RequestsAreShort(states, actions, verdict, i, j - 1);
      RunKeepsInv(states, actions, verdict, j - 1);
      assert Move(states[j - 1], actions[j - 1], verdict) == Some(states[j - 1 + 1]);
      EveryStepCounts(states[j - 1], actions[j - 1], verdict);
    }
  }

  /** No interleaving gets stuck, except where the notification was lost: then the hook waits for ever. */
  lemma StuckExactlyWhenLost(states: seq<State>, actions: seq<Action>, verdict: nat -> u32, i: nat)
    requires IsRun(states, actions, verdict) && i < |states|
    ensures var s := states[i];
            Stuck(s, verdict) <==> s.hook == WaitReply && s.lost && s.thread == WaitUnmap
  {
    var s := states[i];
    RunKeepsInv(states, actions, verdict, i);
    if s.hook == WaitReply && s.lost && s.thread == WaitUnmap {
      forall a: Action
        ensures Move(s, a, verdict).None?
      {
      }
    } else {
      var a := Enabled(s);
      assert Move(s, a, verdict).Some?;
    }
  }

  /** An actor that can move. */
  function Enabled(s: State): Action
  {
    if s.hook == Idle then Begin(MmapHook)
    else if HookMove(s, true).Some? then HookStep(true)
    else if ThreadMove(s, true).Some? then ThreadStep(true)
    else AnalyzerStep
  }

  // ------------------------------------------------------------------------------------------
  // When a hook asks
  // ------------------------------------------------------------------------------------------

  /**
   What the actions since a request began have done: whether the range was mapped, the program copied and the pages
   remapped, and how often the hook has notified the analyzer.
   */
  datatype History = History(mapped: bool, copied: bool, remapped: bool, notices: nat)

  function Noted(h: History, s: State, a: Action): History
  {
    match a
    case ThreadStep(ok) =>
      if s.thread == MapRange then h.(mapped := ok) else if s.thread == CopyIn then h.(copied := ok) else h
    case HookStep(ok) =>
      if s.hook == Remap then h.(remapped := ok) else if s.hook == Notify then h.(notices := h.notices + 1) else h
    case Begin(_) => History(false, false, false, 0)
    case AnalyzerStep => h
  }

  /** The history of the request that is under way after i actions. */
  ghost function HistoryOf(states: seq<State>, actions: seq<Action>, i: nat): History
    requires |states| == |actions| + 1 && i <= |actions|
  {
    if i == 0 then History(false, false, false, 0)
    else Noted(HistoryOf(states, actions, i - 1), states[i - 1], actions[i - 1])
  }

  /** Whose request it is: that of the last hook to begin. */
  function KindOf(actions: seq<Action>, i: nat): Kind
    requires i <= |actions|
  {
    if i == 0 then MmapHook else if actions[i - 1].Begin? then actions[i - 1].kind else KindOf(actions, i - 1)
  }

  function RequestsBegun(actions: seq<Action>, i: nat): nat
    requires i <= |actions|
  {
    if i == 0 then 0 else RequestsBegun(actions, i - 1) + if actions[i - 1].Begin? then 1 else 0
  }

  /** The thread has got a mapping, and what belongs in it is there. */
  predicate HasMapping(kind: Kind, h: History) { h.mapped && (kind == BpfHook ==> h.copied) }

  /** The hook has reason to ask: there is a mapping, with the pages remapped into it if it is mprotect's. */
  predicate HasReason(kind: Kind, h: History) { HasMapping(kind, h) && (kind == MprotectHook ==> h.remapped) }

  /** How the history goes with the state. */
  predicate Tells(s: State, h: History)
  {
    && h.notices == (if s.notified then 1 else 0)
    && (match s.thread
        case NotStarted => !h.mapped && !h.copied
        case MapRange => !h.mapped && !h.copied
        case CopyIn => h.mapped && !h.copied && s.kind == BpfHook && s.address
        case _ => s.address == HasMapping(s.kind, h))
    && (match s.hook
        case Idle => true
        case InitMapped => !s.notified && !h.remapped && s.thread == NotStarted && !s.address
        case Spawn => !s.notified && !h.remapped && s.thread == NotStarted && !s.address
        case WaitMapped => !s.notified && !h.remapped
        case CheckAddress => !s.notified && !h.remapped
        case Remap => !s.notified && !h.remapped && s.kind == MprotectHook
        case Notify => !s.notified && HasReason(s.kind, h)
        case WaitReply => s.notified && HasReason(s.kind, h)
        case ReinitReady => s.notified && HasReason(s.kind, h)
        case _ => s.notified == HasReason(s.kind, h))
  }

  lemma AskingTells(s: State, ok: bool, h: History, verdict: nat -> u32)
    requires Inv(s, verdict) && Tells(s, h) && HookMove(s, ok).Some?
    requires s.hook.InitMapped? || s.hook.Spawn? || s.hook.WaitMapped? || s.hook.CheckAddress? || s.hook.Remap?
    ensures Tells(HookMove(s, ok).value, Noted(h, s, HookStep(ok)))
  {
  }

  lemma WaitingTells(s: State, ok: bool, h: History, verdict: nat -> u32)
    requires Inv(s, verdict) && Tells(s, h) && HookMove(s, ok).Some?
    requires s.hook.Notify? || s.hook.WaitReply? || s.hook.ReinitReady? || s.hook.CompleteUnmap?
    ensures Tells(HookMove(s, ok).value, Noted(h, s, HookStep(ok)))
  {
  }

  lemma LeavingTells(s: State, ok: bool, h: History, verdict: nat -> u32)
    requires Inv(s, verdict) && Tells(s, h) && HookMove(s, ok).Some?
    requires s.hook.SetStop? || s.hook.Join? || s.hook.FreeRecord? || s.hook.Return?
    ensures Tells(HookMove(s, ok).value, Noted(h, s, HookStep(ok)))
  {
  }

  lemma HookTells(s: State, ok: bool, h: History, verdict: nat -> u32)
    requires Inv(s, verdict) && Tells(s, h) && HookMove(s, ok).Some?
    ensures Tells(HookMove(s, ok).value, Noted(h, s, HookStep(ok)))
  {
    hide Inv, Tells, Noted;
    if s.hook.InitMapped? || s.hook.Spawn? || s.hook.WaitMapped? || s.hook.CheckAddress? || s.hook.Remap? {
      AskingTells(s, ok, h, verdict);
    } else if s.hook.Notify? || s.hook.WaitReply? || s.hook.ReinitReady? || s.hook.CompleteUnmap? {
      WaitingTells(s, ok, h, verdict);
    } else {
      assert !s.hook.Idle?;
      hide HookMove;
      LeavingTells(s, ok, h, verdict);
    }
  }

  lemma MappingTells(s: State, ok: bool, h: History, verdict: nat -> u32)
    requires Inv(s, verdict) && Tells(s, h) && ThreadMove(s, ok).Some?
    requires s.thread == MapRange || s.thread == CopyIn
    ensures Tells(ThreadMove(s, ok).value, Noted(h, s, ThreadStep(ok)))
  {
  }

  /** From there on a step of the thread changes neither the history nor what it is about. */
  lemma LaterThreadTells(s: State, ok: bool, h: History)
    requires Tells(s, h) && ThreadMove(s, ok).Some? && s.thread != MapRange && s.thread != CopyIn
    requires var s' := ThreadMove(s, ok).value;
             && s'.hook == s.hook && s'.kind == s.kind && s'.notified == s.notified && s'.address == s.address
             && s'.thread != NotStarted && s'.thread != MapRange && s'.thread != CopyIn && s.thread != NotStarted
    ensures Tells(ThreadMove(s, ok).value, Noted(h, s, ThreadStep(ok)))
  {
    hide ThreadMove;
  }

  lemma EarlyThreadKeeps(s: State, ok: bool)
    requires ThreadMove(s, ok).Some?
    requires s.thread == InitUnmap || s.thread == SignalMapped || s.thread == Branch
    ensures var s' := ThreadMove(s, ok).value;
            && s'.hook == s.hook && s'.kind == s.kind && s'.notified == s.notified && s'.address == s.address
            && s'.thread != NotStarted && s'.thread != MapRange && s'.thread != CopyIn
  {
  }

  lemma LateThreadKeeps(s: State, ok: bool)
    requires ThreadMove(s, ok).Some?
    requires s.thread == WaitUnmap || s.thread == Unmap || s.thread == Unuse || s.thread == Spin
    ensures var s' := ThreadMove(s, ok).value;
            && s'.hook == s.hook && s'.kind == s.kind && s'.notified == s.notified && s'.address == s.address
            && s'.thread != NotStarted && s'.thread != MapRange && s'.thread != CopyIn
  {
  }

  lemma ThreadTells(s: State, ok: bool, h: History, verdict: nat -> u32)
    requires Inv(s, verdict) && Tells(s, h) && ThreadMove(s, ok).Some?
    ensures Tells(ThreadMove(s, ok).value, Noted(h, s, ThreadStep(ok)))
  {
    hide Inv, Tells, Noted;
    if s.thread == MapRange || s.thread == CopyIn {
      MappingTells(s, ok, h, verdict);
    } else if s.thread == InitUnmap || s.thread == SignalMapped || s.thread == Branch {
      EarlyThreadKeeps(s, ok);
      LaterThreadTells(s, ok, h);
    } else {
      assert s.thread != NotStarted && s.thread != Gone;
      hide ThreadMove;
      LateThreadKeeps(s, ok);
      LaterThreadTells(s, ok, h);
    }
  }

  lemma BeginTells(s: State, kind: Kind, h: History)
    requires BeginRequest(s, kind).Some?
    ensures Tells(BeginRequest(s, kind).value, Noted(h, s, Begin(kind)))
  {
  }

  lemma AnalyzerTells(s: State, h: History, verdict: nat -> u32)
    requires Tells(s, h) && AnalyzerMove(s, verdict).Some?
    ensures Tells(AnalyzerMove(s, verdict).value, Noted(h, s, AnalyzerStep))
  {
    AnalyzerMovesAlone(s, verdict);
    hide AnalyzerMove;
  }

  lemma AnalyzerMovesAlone(s: State, verdict: nat -> u32)
    requires AnalyzerMove(s, verdict).Some?
    ensures var s' := AnalyzerMove(s, verdict).value;
            && s'.hook == s.hook && s'.thread == s.thread && s'.kind == s.kind && s'.request == s.request
            && s'.notified == s.notified && s'.address == s.address
  {
  }

  lemma MoveTells(s: State, a: Action, h: History, verdict: nat -> u32)
    requires Inv(s, verdict) && Tells(s, h) && Move(s, a, verdict).Some?
    ensures Tells(Move(s, a, verdict).value, Noted(h, s, a))
  {
    hide Inv, Tells, Noted;
    match a
    case Begin(kind) => BeginTells(s, kind, h);
    case HookStep(ok) => HookTells(s, ok, h, verdict);
    case ThreadStep(ok) => ThreadTells(s, ok, h, verdict);
    case AnalyzerStep => AnalyzerTells(s, h, verdict);
  }

  lemma {:induction false} RunTells(states: seq<State>, actions: seq<Action>, verdict: nat -> u32, i: nat)
    requires IsRun(states, actions, verdict) && i < |states|
    ensures Tells(states[i], HistoryOf(states, actions, i))
  {
    hide Move, Inv, Noted;
    if i > 0 {
      RunTells(states, actions, verdict, i - 1);
      RunKeepsInv(states, actions, verdict, i - 1);
      assert Move(states[i - 1], actions[i - 1], verdict) == Some(states[i - 1 + 1]);
      MoveTells(states[i - 1], actions[i - 1], HistoryOf(states, actions, i - 1), verdict);
    }
  }

  /** Requests are numbered as they begin, and belong to the hook that began them. */
  lemma MoveNumbers(s: State, a: Action, verdict: nat -> u32)
    requires Move(s, a, verdict).Some?
    ensures var s' := Move(s, a, verdict).value;
            if a.Begin? then s'.request == s.request + 1 && s'.kind == a.kind
            else s'.request == s.request && s'.kind == s.kind
  {
    hide HookMove, ThreadMove, AnalyzerMove;
    match a
    case Begin(kind) =>
    case HookStep(ok) => HookNumbers(s, ok);
    case ThreadStep(ok) => ThreadNumbers(s, ok);
    case AnalyzerStep => AnalyzerMovesAlone(s, verdict);
  }

  lemma EarlyHookNumbers(s: State, ok: bool)
    requires HookMove(s, ok).Some?
    requires s.hook.InitMapped? || s.hook.Spawn? || s.hook.WaitMapped? || s.hook.CheckAddress? || s.hook.Remap?
    ensures HookMove(s, ok).value.request == s.request && HookMove(s, ok).value.kind == s.kind
  {
  }

  lemma LateHookNumbers(s: State, ok: bool)
    requires HookMove(s, ok).Some?
    requires s.hook.Notify? || s.hook.WaitReply? || s.hook.ReinitReady? || s.hook.CompleteUnmap?
             || s.hook.SetStop? || s.hook.Join? || s.hook.FreeRecord? || s.hook.Return?
    ensures HookMove(s, ok).value.request == s.request && HookMove(s, ok).value.kind == s.kind
  {
  }

  lemma HookNumbers(s: State, ok: bool)
    requires HookMove(s, ok).Some?
    ensures HookMove(s, ok).value.request == s.request && HookMove(s, ok).value.kind == s.kind
  {
    if s.hook.InitMapped? || s.hook.Spawn? || s.hook.WaitMapped? || s.hook.CheckAddress? || s.hook.Remap? {
      EarlyHookNumbers(s, ok);
      hide HookMove;
    } else {
      assert !s.hook.Idle?;
      LateHookNumbers(s, ok);
      hide HookMove;
    }
  }

  lemma ThreadNumbers(s: State, ok: bool)
    requires ThreadMove(s, ok).Some?
    ensures ThreadMove(s, ok).value.request == s.request && ThreadMove(s, ok).value.kind == s.kind
  {
  }

  lemma {:induction false} RunNumbers(states: seq<State>, actions: seq<Action>, verdict: nat -> u32, i: nat)
    requires IsRun(states, actions, verdict) && i < |states|
    ensures states[i].request == RequestsBegun(actions, i) && states[i].kind == KindOf(actions, i)
  {
    hide Move;
    if i > 0 {
      RunNumbers(states, actions, verdict, i - 1);
      assert Move(states[i - 1], actions[i - 1], verdict) == Some(states[i - 1 + 1]);
      MoveNumbers(states[i - 1], actions[i - 1], verdict);
    }
  }

  /**
   When a hook asks, and what it returns, from the actions alone: it has notified the analyzer exactly once if the range
   was mapped, the program copied when it is bpf's, and the pages remapped when it is mprotect's, and not at all
   otherwise; and it returns the negated verdict on the request of that number, or 0.
   */
  lemma AsksExactly(states: seq<State>, actions: seq<Action>, verdict: nat -> u32, i: nat)
    requires IsRun(states, actions, verdict) && i < |actions| && states[i].hook == Return && actions[i].HookStep?
    ensures var h, kind := HistoryOf(states, actions, i), KindOf(actions, i);
            var asked := h.mapped && (kind == BpfHook ==> h.copied) && (kind == MprotectHook ==> h.remapped);
            && h.notices == (if asked then 1 else 0)
            && states[i + 1].returned
               == states[i].returned + [if asked then NegatedInt(verdict(RequestsBegun(actions, i))) else 0]
  {
    hide Inv, Move;
    RunTells(states, actions, verdict, i);
    RunNumbers(states, actions, verdict, i);
    ReturnsOwnVerdict(states, actions, verdict, i);
  }
}
