/**
 Sequences of hook calls over one connection: which bytes of the server's replies each call reads, and so whose
 verdict it returns.

 The server is the specification on the byte stream. What the environment chooses for a call is how the server's send
 loop delivers its reply, how much of what is under way has arrived before the call looks, and what arrives between the
 rounds of the receive loop - or interrupts them.
 */
module Session {
  import opened Basics
  import opened Bytes
  import opened Framing
  import opened PageWalk
  import opened WalkBounds
  import opened WalkPages
  import opened TcpServer
  import opened ServerLoop
  import opened Reconstruction
  import opened Replies

  /** A call of the mmap or mprotect hook that gets as far as the walk, or of the bpf hook for a jited program. */
  datatype Call =
    | Pages(m: Machine, info: Info, events: seq<Event>, faults: seq<Fault>)
    | Bpf(info: Info, program: seq<byte>)

  /** `Skipped` is the return of 0 for an incomplete reply; `Waiting`: the receive loop has not ended. */
  datatype Outcome = Returned(value: int) | Skipped | Waiting

  /** The server, and what it has sent that the kernel has not read. */
  datatype Link = Link(server: Server, unread: seq<byte>)

  datatype Choice = Choice(pieces: seq<nat>, queued: nat, rounds: seq<Round>)

  datatype Called = Called(link: Link, outcome: Outcome, taken: seq<byte>)

  /**
   The call describes its mapping as the hooks do, and the server can take it in. A server that keeps its buffer is
   only given transfers whose end frame goes out.
   */
  predicate Proper(cfg: Config, c: Call)
  {
    Accepts(cfg, c.info)
    && match c
       case Pages(m, info, events, faults) =>
         && |faults| == |events| + 1 && Describes(info, |Cells(m, events)|)
         && (cfg.keepUntilEnd ==> EndSent(m, info, events, faults))
       case Bpf(info, program) =>
         info.mappedAddr == 0 && info.len == info.mappingLen == |program| && info.isEnd == 1
  }

  /** The call's end frame goes out. */
  predicate Ends(c: Call)
    requires c.Pages? ==> |c.faults| == |c.events| + 1
  {
    c.Pages? ==> EndSent(c.m, c.info, c.events, c.faults)
  }

  /** The page array could not be grown. */
  predicate OutOfMemory(c: Call)
    requires c.Pages? ==> |c.faults| == |c.events| + 1
  {
    c.Pages? && Transfer(c.m, c.info, c.events, c.faults).memoryError
  }

  /** What the call sends. */
  function Stream(c: Call): seq<byte>
    requires c.Pages? ==> |c.faults| == |c.events| + 1
  {
    match c
    case Pages(m, info, events, faults) => EncodeFrames(Transfer(m, info, events, faults).frames)
    case Bpf(info, program) => EncodeFrame(Frame(info, program))
  }

  /** What the server dumps for it. */
  function DumpFor(cfg: Config, c: Call): Dump
    requires Proper(cfg, c) && Ends(c)
  {
    match c
    case Pages(m, info, events, faults) =>
      FramesFit(m, info, events, faults);
      DumpOf(cfg, Transfer(m, info, events, faults), info.mappingLen)
    case Bpf(info, program) => Dump(info, program)
  }

  /** The server's answer to the call's end frame. */
  function Answer(cfg: Config, c: Call): u32
    requires Proper(cfg, c) && Ends(c)
  {
    cfg.verdict(DumpFor(cfg, c))
  }

  /** A call whose end frame goes out adds one reply, the verdict on its own dump; the others add none. */
  lemma CallServed(cfg: Config, s: Server, c: Call)
    requires Proper(cfg, c) && Idle(s)
    ensures Consume(cfg, s, Stream(c)) == Progress(if Ends(c) then Answered(cfg, s, DumpFor(cfg, c)) else s, [])
    ensures Consume(cfg, s, Stream(c)).server.replies == s.replies + if Ends(c) then [Answer(cfg, c)] else []
    ensures Idle(Consume(cfg, s, Stream(c)).server)
  {
    hide Consume, Transfer, EncodeFrame, EncodeFrames, DumpOf, EndSent, Describes;
    match c
    case Pages(m, info, events, faults) =>
      if Ends(c) {
        TransferServed(cfg, m, info, events, faults, s);
      } else {
        LostEndForgotten(cfg, m, info, events, faults, s);
      }
    case Bpf(info, program) => BpfExact(cfg, info, program, s);
  }

  // ------------------------------------------------------------------------------------------
  // One call
  // ------------------------------------------------------------------------------------------

  /** The reply to the call, as the server's send loop delivers it. */
  function Reply(cfg: Config, s: Link, c: Call, pieces: seq<nat>): seq<byte>
    requires (c.Pages? ==> |c.faults| == |c.events| + 1) && Complete(pieces, 4)
  {
    var replies := Consume(cfg, s.server, Stream(c)).server.replies;
    if |replies| > |s.server.replies| then Restarted(Encode32(replies[|replies| - 1]), pieces) else []
  }

  /** Bytes arrive in order, and a read that is not interrupted waits until there is something to read. */
  predicate Possible(under: seq<byte>, e: Choice)
  {
    && e.queued <= |under|
    && Arrived(under[..e.queued], e.rounds, |e.rounds|) <= under
    && (e.rounds != [] && !e.rounds[0].interrupted ==> under[..e.queued] + e.rounds[0].before != [])
  }

  /** What the receive loop makes of the bytes under way: the end of the hook, from the call for four bytes on. */
  function ReadReply(server: Server, under: seq<byte>, e: Choice): (r: Called)
    requires Possible(under, e)
    ensures r.taken + r.link.unread == under && |r.taken| <= 4
    ensures r.outcome.Returned? <==> |r.taken| == 4
    ensures r.outcome.Returned? ==> r.outcome.value == NegatedInt(Decode32(r.taken))
  {
    var start := Reading([], under[..e.queued], 4);
    var k := EndRound(start, e.rounds, |e.rounds|);
    EndRoundEnds(start, e.rounds, |e.rounds|);
    if k == 0 then Called(Link(server, under), Waiting, [])
    else
      ReturnsWhatArrived(under[..e.queued], 4, e.rounds, k);
      ArrivedGrows(under[..e.queued], e.rounds, k, |e.rounds|);
      var got := AfterRounds(start, e.rounds, k).got;
      Called(Link(server, under[|got|..]), if |got| < 4 then Skipped else Returned(NegatedInt(Decode32(got))), got)
  }

  /** An interrupted read before anything has arrived: the hook returns 0, and its reply stays unread. */
  lemma InterruptedReadSkips(server: Server, under: seq<byte>, pieces: seq<nat>)
    ensures var e := Choice(pieces, 0, [Round([], true, [])]);
            Possible(under, e) && ReadReply(server, under, e) == Called(Link(server, under), Skipped, [])
  {
    var e := Choice(pieces, 0, [Round([], true, [])]);
    assert Arrived([], e.rounds, 1) == Arrived([], e.rounds, 0) + [] + [] == [];
    var r := Reading([], [], 4);
    assert AfterRounds(r, e.rounds, 1) == ReadRound(r, e.rounds[0]) == r;
    assert EndsAfter(r, e.rounds, 1);
    OneEnd(r, e.rounds, 1);
  }

  /** One hook call. After a growth failure the reply is not read at all. */
  function CallHook(cfg: Config, s: Link, c: Call, e: Choice): Called
    requires (c.Pages? ==> |c.faults| == |c.events| + 1) && Complete(e.pieces, 4)
    requires Possible(s.unread + Reply(cfg, s, c, e.pieces), e)
  {
    var server, under := Consume(cfg, s.server, Stream(c)).server, s.unread + Reply(cfg, s, c, e.pieces);
    if OutOfMemory(c) then Called(Link(server, under), Returned(-ENOMEM), []) else ReadReply(server, under, e)
  }

  /** The outcome of the end of a hook is what the receive loop, as the kernel runs it, returns. */
  method EndHook(server: Server, under: seq<byte>, e: Choice, sock: ReplySocket) returns (ended: bool, ret: int)
    requires Possible(under, e) && sock.queue == under[..e.queued]
    modifies sock
    ensures var r := ReadReply(server, under, e);
            && ended == !r.outcome.Waiting?
            && (r.outcome.Returned? ==> ret == r.outcome.value)
            && (r.outcome.Skipped? ==> ret == 0)
  {
    hide AfterRounds, EndRound, Arrived;
    var buf := new byte[4](_ => 0);
    ended, ret := sock.AwaitVerdict(buf, e.rounds);
  }

  /** A call that can be made on a link, with what the environment chooses for it. */
  ghost predicate Callable(cfg: Config, s: Link, c: Call, e: Choice)
  {
    Proper(cfg, c) && Complete(e.pieces, 4) && Possible(s.unread + Reply(cfg, s, c, e.pieces), e)
  }

  /**
   After a growth failure - which happens exactly at the first page that finds the array full and gets no memory - the
   call returns -ENOMEM and reads nothing; otherwise it ends as the receive loop does.
   */
  lemma GrowthFailureReturns(cfg: Config, s: Link, c: Call, e: Choice)
    requires Callable(cfg, s, c, e)
    ensures var r, under := CallHook(cfg, s, c, e), s.unread + Reply(cfg, s, c, e.pieces);
            if c.Pages? && exists k: nat :: k < |c.events| && FullAt(c.m, c.events, k) && !c.faults[k].growOk then
              r.outcome == Returned(-12) && r.taken == [] && r.link.unread == under
            else r == ReadReply(Consume(cfg, s.server, Stream(c)).server, under, e)
  {
    hide Consume, Transfer, ReadReply, Reply, Possible, FullAt, Stream;
    if c.Pages? {
      GrowthFailsExactly(c.m, c.info, c.events, c.faults);
    }
  }

  // ------------------------------------------------------------------------------------------
  // Runs of calls
  // ------------------------------------------------------------------------------------------

  /** Calls one after the other, each of which has returned. */
  ghost predicate IsSession(cfg: Config, links: seq<Link>, calls: seq<Call>, es: seq<Choice>)
  {
    && |links| == |calls| + 1 && |es| == |calls|
    && Idle(links[0].server) && links[0].server.replies == [] && links[0].unread == []
    && forall i :: 0 <= i < |calls| ==>
         && Callable(cfg, links[i], calls[i], es[i])
         && CallHook(cfg, links[i], calls[i], es[i]).link == links[i + 1]
         && !CallHook(cfg, links[i], calls[i], es[i]).outcome.Waiting?
  }

  /**
   What a session has counted: growth failures, incomplete reads and lost end frames, the bytes that incomplete reads
   have taken, and the bytes that the server's send loop has delivered beyond four for a reply.
   */
  datatype Tally = Tally(failures: nat, skips: nat, lost: nat, short: nat, extra: nat)

  /** How one call changes the tally. */
  function Counted(t: Tally, c: Call, e: Choice, called: Called): Tally
    requires (c.Pages? ==> |c.faults| == |c.events| + 1) && Complete(e.pieces, 4)
  {
    Tally(t.failures + (if OutOfMemory(c) then 1 else 0),
          t.skips + (if called.outcome.Skipped? then 1 else 0),
          t.lost + (if Ends(c) then 0 else 1),
          t.short + (if called.outcome.Skipped? then |called.taken| else 0),
          t.extra + (if Ends(c) then Total(e.pieces) - 4 else 0))
  }

  ghost function TallyOf(cfg: Config, links: seq<Link>, calls: seq<Call>, es: seq<Choice>, i: nat): Tally
    requires IsSession(cfg, links, calls, es) && i <= |calls|
  {
    if i == 0 then Tally(0, 0, 0, 0, 0)
    else
      Counted(TallyOf(cfg, links, calls, es, i - 1), calls[i - 1], es[i - 1],
              CallHook(cfg, links[i - 1], calls[i - 1], es[i - 1]))
  }

  lemma ReplyIs(cfg: Config, s: Link, c: Call, pieces: seq<nat>)
    requires Proper(cfg, c) && Idle(s.server) && Complete(pieces, 4)
    ensures Reply(cfg, s, c, pieces) == if Ends(c) then Restarted(Encode32(Answer(cfg, c)), pieces) else []
    ensures |Reply(cfg, s, c, pieces)| == if Ends(c) then Total(pieces) else 0
  {
    CallServed(cfg, s.server, c);
    hide Consume, Proper, Ends, Answer, Stream, Complete;
    if Ends(c) {
      PiecesFit(pieces, 4);
      RestartedLength(Encode32(Answer(cfg, c)), pieces);
    }
  }

  lemma PiecesFit(pieces: seq<nat>, size: nat)
    requires Complete(pieces, size)
    ensures forall i :: 0 <= i < |pieces| ==> 0 < pieces[i] <= size
  {
  }

  lemma OneCall(cfg: Config, s: Link, c: Call, e: Choice)
    requires Callable(cfg, s, c, e) && Idle(s.server)
    ensures var r := CallHook(cfg, s, c, e);
            && Idle(r.link.server)
            && r.link.server.replies == s.server.replies + (if Ends(c) then [Answer(cfg, c)] else [])
            && r.taken + r.link.unread == s.unread + Reply(cfg, s, c, e.pieces)
            && (OutOfMemory(c) ==> r.taken == [] && r.outcome == Returned(-ENOMEM))
            && (!OutOfMemory(c) && !r.outcome.Skipped? && !r.outcome.Waiting? ==>
                  |r.taken| == 4 && r.outcome == Returned(NegatedInt(Decode32(r.taken))))
  {
    hide Consume, OutOfMemory, Stream, Answer, Ends, Idle;
    CallServed(cfg, s.server, c);
  }

  /**
   The law of the unread bytes: growth failures and incomplete reads each leave a reply, lost end frames bring none,
   incomplete reads have taken some bytes all the same, and the server may have sent some twice.
   */
  lemma {:induction false} Lag(cfg: Config, links: seq<Link>, calls: seq<Call>, es: seq<Choice>, i: nat)
    requires IsSession(cfg, links, calls, es) && i <= |calls|
    ensures Idle(links[i].server)
    ensures var t := TallyOf(cfg, links, calls, es, i);
            && |links[i].unread| == 4 * (t.failures + t.skips - t.lost) + t.extra - t.short
            && |links[i].server.replies| == i - t.lost
  {
    hide CallHook, OutOfMemory, Answer, Ends, Idle, Reply, Restarted, Complete;
    if i > 0 {
      Lag(cfg, links, calls, es, i - 1);
      var s, c, e := links[i - 1], calls[i - 1], es[i - 1];
      assert Callable(cfg, s, c, e);
      assert CallHook(cfg, links[i - 1], calls[i - 1], es[i - 1]).link == links[i - 1 + 1];
      OneCall(cfg, s, c, e);
      ReplyIs(cfg, s, c, e.pieces);
      Lengths(CallHook(cfg, s, c, e).taken, links[i].unread, s.unread, Reply(cfg, s, c, e.pieces));
    }
  }

  lemma Lengths(a: seq<byte>, b: seq<byte>, c: seq<byte>, d: seq<byte>)
    requires a + b == c + d
    ensures |a| + |b| == |c| + |d|
  {
  }

  // ------------------------------------------------------------------------------------------
  // Whose verdict a call returns
  // ------------------------------------------------------------------------------------------

  /** Everything the server has sent in reply to the first i calls. */
  ghost function Replied(cfg: Config, links: seq<Link>, calls: seq<Call>, es: seq<Choice>, i: nat): seq<byte>
    requires IsSession(cfg, links, calls, es) && i <= |calls|
  {
    if i == 0 then []
    else Replied(cfg, links, calls, es, i - 1) + Reply(cfg, links[i - 1], calls[i - 1], es[i - 1].pieces)
  }

  /** Everything the first i calls have read. */
  ghost function Taken(cfg: Config, links: seq<Link>, calls: seq<Call>, es: seq<Choice>, i: nat): seq<byte>
    requires IsSession(cfg, links, calls, es) && i <= |calls|
  {
    if i == 0 then []
    else
      Taken(cfg, links, calls, es, i - 1) + CallHook(cfg, links[i - 1], calls[i - 1], es[i - 1]).taken
  }

  /** The calls read the server's replies in order: nothing is skipped, and nothing is read twice. */
  lemma {:induction false} TakenInOrder(cfg: Config, links: seq<Link>, calls: seq<Call>, es: seq<Choice>, i: nat)
    requires IsSession(cfg, links, calls, es) && i <= |calls|
    ensures Taken(cfg, links, calls, es, i) + links[i].unread == Replied(cfg, links, calls, es, i)
    ensures var t := TallyOf(cfg, links, calls, es, i);
            |Taken(cfg, links, calls, es, i)| == 4 * (i - t.failures - t.skips) + t.short
  {
    hide CallHook, OutOfMemory, Answer, Ends, Idle, Reply, Restarted, Complete, Possible, Total, Decode32;
    if i > 0 {
      TakenInOrder(cfg, links, calls, es, i - 1);
      Lag(cfg, links, calls, es, i - 1);
      var s, c, e := links[i - 1], calls[i - 1], es[i - 1];
      assert Callable(cfg, s, c, e);
      assert CallHook(cfg, links[i - 1], calls[i - 1], es[i - 1]).link == links[i - 1 + 1];
      OneCall(cfg, s, c, e);
      Moved(Taken(cfg, links, calls, es, i - 1), s.unread, Reply(cfg, s, c, e.pieces), CallHook(cfg, s, c, e).taken,
            links[i].unread);
    }
  }

  lemma Moved(before: seq<byte>, unread: seq<byte>, reply: seq<byte>, taken: seq<byte>, rest: seq<byte>)
    requires taken + rest == unread + reply
    ensures (before + taken) + rest == (before + unread) + reply
  {
    Reassociate(before, taken, rest);
    Reassociate(before, unread, reply);
  }

  /**
   What a call returns: -ENOMEM after a growth failure, 0 for an incomplete reply, and otherwise the negation of the
   four bytes of the server's replies that follow what the calls before it have read.
   */
  lemma ReturnsNextBytes(cfg: Config, links: seq<Link>, calls: seq<Call>, es: seq<Choice>, i: nat)
    requires IsSession(cfg, links, calls, es) && i < |calls|
    ensures var r := CallHook(cfg, links[i], calls[i], es[i]);
            var from := |Taken(cfg, links, calls, es, i)|;
            if OutOfMemory(calls[i]) then r.outcome == Returned(-12)
            else if r.outcome.Skipped? then |r.taken| < 4
            else
              && from + 4 <= |Replied(cfg, links, calls, es, i + 1)|
              && r.outcome == Returned(NegatedInt(Decode32(Replied(cfg, links, calls, es, i + 1)[from..from + 4])))
  {
    hide CallHook, OutOfMemory, Answer, Ends, Idle, Reply, Restarted, Complete;
    Lag(cfg, links, calls, es, i);
    assert Callable(cfg, links[i], calls[i], es[i]);
    OneCall(cfg, links[i], calls[i], es[i]);
    SkippedIsShort(cfg, links[i], calls[i], es[i]);
    TakenInOrder(cfg, links, calls, es, i + 1);
    var r := CallHook(cfg, links[i], calls[i], es[i]);
    InMiddle(Taken(cfg, links, calls, es, i), r.taken, links[i + 1].unread);
  }

  lemma SkippedIsShort(cfg: Config, s: Link, c: Call, e: Choice)
    requires Callable(cfg, s, c, e)
    ensures CallHook(cfg, s, c, e).outcome.Skipped? ==> |CallHook(cfg, s, c, e).taken| < 4
  {
    hide Consume, OutOfMemory, Stream, EndRound, AfterRounds, Arrived;
  }

  lemma InMiddle(a: seq<byte>, b: seq<byte>, c: seq<byte>)
    ensures (a + b + c)[|a|..|a| + |b|] == b && |a + b + c| == |a| + |b| + |c|
  {
  }

  /** The server's first sends take the replies whole, and no call has read a part of one. */
  ghost predicate Whole(cfg: Config, links: seq<Link>, calls: seq<Call>, es: seq<Choice>)
    requires IsSession(cfg, links, calls, es)
  {
    && (forall i :: 0 <= i < |calls| ==> es[i].pieces == [4])
    && forall i :: 0 <= i < |calls| && CallHook(cfg, links[i], calls[i], es[i]).outcome.Skipped? ==>
         CallHook(cfg, links[i], calls[i], es[i]).taken == []
  }

  lemma WholeReplyIs(cfg: Config, s: Link, c: Call)
    requires Proper(cfg, c) && Idle(s.server)
    ensures Complete([4], 4)
    ensures Reply(cfg, s, c, [4]) == if Ends(c) then Encode32(Answer(cfg, c)) else []
  {
    OnePiece();
    ReplyIs(cfg, s, c, [4]);
    if Ends(c) {
      FirstIsAll(Encode32(Answer(cfg, c)), [4]);
    }
  }

  lemma OneWholeCall(cfg: Config, s: Link, c: Call, e: Choice)
    requires Callable(cfg, s, c, e) && Idle(s.server) && e.pieces == [4]
    ensures EncodeReplies(CallHook(cfg, s, c, e).link.server.replies)
         == EncodeReplies(s.server.replies) + Reply(cfg, s, c, [4])
    ensures Total(e.pieces) == 4
  {
    OneCall(cfg, s, c, e);
    WholeReplyIs(cfg, s, c);
    OnePiece();
    hide CallHook, OutOfMemory, Answer, Ends, Reply, Restarted, Complete, Idle, Proper, Possible;
    if Ends(c) {
      EncodeRepliesSnoc(s.server.replies, Answer(cfg, c));
    } else {
      assert s.server.replies + [] == s.server.replies;
    }
  }

  lemma {:induction false} WholeSession(cfg: Config, links: seq<Link>, calls: seq<Call>, es: seq<Choice>, i: nat)
    requires IsSession(cfg, links, calls, es) && Whole(cfg, links, calls, es) && i <= |calls|
    ensures Replied(cfg, links, calls, es, i) == EncodeReplies(links[i].server.replies)
    ensures TallyOf(cfg, links, calls, es, i).short == TallyOf(cfg, links, calls, es, i).extra == 0
  {
    hide CallHook, OutOfMemory, Answer, Ends, Reply, Complete, Idle, Possible, Total;
    if i > 0 {
      WholeSession(cfg, links, calls, es, i - 1);
      Lag(cfg, links, calls, es, i - 1);
      assert Callable(cfg, links[i - 1], calls[i - 1], es[i - 1]);
      assert CallHook(cfg, links[i - 1], calls[i - 1], es[i - 1]).link == links[i - 1 + 1];
      OneWholeCall(cfg, links[i - 1], calls[i - 1], es[i - 1]);
    }
  }

  lemma OnePiece()
    ensures Total([4]) == 4 && Complete([4], 4)
  {
    assert [4][..0] == [];
  }

  lemma {:induction false} EncodeRepliesAt(rs: seq<u32>, k: nat)
    requires k < |rs|
    ensures |EncodeReplies(rs)| == 4 * |rs| && EncodeReplies(rs)[4 * k..4 * k + 4] == Encode32(rs[k])
  {
    var n := |rs| - 1;
    EncodeRepliesLength(rs[..n]);
    if k < n {
      EncodeRepliesAt(rs[..n], k);
    }
  }

  lemma {:induction false} EncodeRepliesLength(rs: seq<u32>)
    ensures |EncodeReplies(rs)| == 4 * |rs|
  {
    if rs != [] {
      EncodeRepliesLength(rs[..|rs| - 1]);
    }
  }

  lemma DecodeRepliesAt(rs: seq<u32>, k: nat)
    requires k < |rs|
    ensures 4 * k + 4 <= |EncodeReplies(rs)| && Decode32(EncodeReplies(rs)[4 * k..4 * k + 4]) == rs[k]
  {
    EncodeRepliesLength(rs);
    EncodeRepliesAt(rs, k);
    RoundTrip32(rs[k]);
  }

  /**
   With replies sent and read whole, a call that reads one gets the reply whose number is the number of calls before
   it less their growth failures and interrupted reads. That is the reply to its own end frame exactly when these were
   as many as the end frames lost.
   */
  lemma ReturnsLaggingAnswer(cfg: Config, links: seq<Link>, calls: seq<Call>, es: seq<Choice>, i: nat)
    requires IsSession(cfg, links, calls, es) && Whole(cfg, links, calls, es) && i < |calls|
    requires !OutOfMemory(calls[i]) && !CallHook(cfg, links[i], calls[i], es[i]).outcome.Skipped?
    ensures var t := TallyOf(cfg, links, calls, es, i);
            var n, replies := i - t.failures - t.skips, links[i + 1].server.replies;
            && 0 <= n < |replies|
            && CallHook(cfg, links[i], calls[i], es[i]).outcome == Returned(NegatedInt(replies[n]))
            && (n == |links[i].server.replies| <==> t.failures + t.skips == t.lost)
            && (Ends(calls[i]) && t.failures + t.skips == t.lost ==> replies[n] == Answer(cfg, calls[i]))
  {
    hide CallHook, OutOfMemory, Answer, Ends, Reply, Restarted, Complete, Idle, EncodeReplies, Decode32, Replied, Taken,
      TallyOf;
    ReturnsNextBytes(cfg, links, calls, es, i);
    TakenInOrder(cfg, links, calls, es, i);
    WholeSession(cfg, links, calls, es, i);
    WholeSession(cfg, links, calls, es, i + 1);
    Lag(cfg, links, calls, es, i);
    assert Callable(cfg, links[i], calls[i], es[i]);
    OneCall(cfg, links[i], calls[i], es[i]);
    var t := TallyOf(cfg, links, calls, es, i);
    var n, replies := i - t.failures - t.skips, links[i + 1].server.replies;
    EncodeRepliesLength(replies);
    DecodeRepliesAt(replies, n);
  }

  /** Reply matching: while nothing has failed, been interrupted or been lost, every call returns its own answer. */
  lemma ReplyMatching(cfg: Config, links: seq<Link>, calls: seq<Call>, es: seq<Choice>, i: nat)
    requires IsSession(cfg, links, calls, es) && Whole(cfg, links, calls, es) && i < |calls|
    requires forall j :: 0 <= j <= i ==>
               && !OutOfMemory(calls[j]) && Ends(calls[j])
               && !CallHook(cfg, links[j], calls[j], es[j]).outcome.Skipped?
    ensures Ends(calls[i]) && Proper(cfg, calls[i])
    ensures CallHook(cfg, links[i], calls[i], es[i]).outcome == Returned(NegatedInt(Answer(cfg, calls[i])))
    ensures links[i + 1].unread == []
  {
    hide CallHook, OutOfMemory, Answer, Ends, Reply, Restarted, Complete, Idle;
    NothingCounted(cfg, links, calls, es, i);
    NothingCounted(cfg, links, calls, es, i + 1);
    assert Callable(cfg, links[i], calls[i], es[i]);
    ReturnsLaggingAnswer(cfg, links, calls, es, i);
    WholeSession(cfg, links, calls, es, i + 1);
    Lag(cfg, links, calls, es, i + 1);
  }

  lemma {:induction false} NothingCounted(cfg: Config, links: seq<Link>, calls: seq<Call>, es: seq<Choice>, i: nat)
    requires IsSession(cfg, links, calls, es) && i <= |calls|
    requires forall j :: 0 <= j < i ==>
               && !OutOfMemory(calls[j]) && Ends(calls[j])
               && !CallHook(cfg, links[j], calls[j], es[j]).outcome.Skipped?
    ensures var t := TallyOf(cfg, links, calls, es, i); t.failures == t.skips == t.lost == 0
  {
    hide CallHook, OutOfMemory, Ends;
    if i > 0 {
      NothingCounted(cfg, links, calls, es, i - 1);
      assert Callable(cfg, links[i - 1], calls[i - 1], es[i - 1]);
    }
  }

  lemma ReadsQueued(server: Server, first: seq<byte>, rest: seq<byte>)
    requires |first| == 4
    ensures var e := Choice([4], 4, [Round([], false, [])]);
            && Possible(first + rest, e)
            && ReadReply(server, first + rest, e)
               == Called(Link(server, rest), Returned(NegatedInt(Decode32(first))), first)
  {
    hide Decode32;
    var under, e := first + rest, Choice([4], 4, [Round([], false, [])]);
    assert under[..4] == first && under[4..] == rest;
    assert Arrived(first, e.rounds, 1) == Arrived(first, e.rounds, 0) + [] + [] == first;
    var r := Reading([], first, 4);
    assert first + [] == first && first[..4] == first && first[4..] + [] == [];
    assert AfterRounds(r, e.rounds, 0) == r;
    assert AfterRounds(r, e.rounds, 1) == ReadRound(r, e.rounds[0]) == Reading([] + first, [], 0);
    assert [] + first == first;
    assert EndsAfter(r, e.rounds, 1);
    OneEnd(r, e.rounds, 1);
  }

  /** A call on an empty link whose read is interrupted before anything has arrived. */
  lemma FirstInterrupted(cfg: Config, s: Link, c: Call) returns (e: Choice, after: Link)
    requires Proper(cfg, c) && Ends(c) && !OutOfMemory(c) && Idle(s.server) && s.unread == []
    ensures Callable(cfg, s, c, e) && e.pieces == [4]
    ensures CallHook(cfg, s, c, e) == Called(after, Skipped, [])
    ensures Idle(after.server) && after.unread == Encode32(Answer(cfg, c))
  {
    hide OutOfMemory, Answer, Consume, Stream, Reply, Possible, ReadReply, Idle, Ends;
    e := Choice([4], 0, [Round([], true, [])]);
    CallServed(cfg, s.server, c);
    WholeReplyIs(cfg, s, c);
    var reply := Encode32(Answer(cfg, c));
    assert s.unread + reply == reply;
    InterruptedReadSkips(Consume(cfg, s.server, Stream(c)).server, reply, [4]);
    after := CallHook(cfg, s, c, e).link;
  }

  /** A call that sees just the four bytes left by the calls before it. */
  lemma ReadsLeftOver(cfg: Config, s: Link, c: Call) returns (e: Choice, after: Link)
    requires Proper(cfg, c) && Ends(c) && !OutOfMemory(c) && Idle(s.server) && |s.unread| == 4
    ensures Callable(cfg, s, c, e) && e.pieces == [4]
    ensures CallHook(cfg, s, c, e).link == after
    ensures CallHook(cfg, s, c, e).outcome == Returned(NegatedInt(Decode32(s.unread)))
  {
    hide OutOfMemory, Answer, Consume, Stream, Reply, Possible, ReadReply, Idle, Ends, Decode32;
    e := Choice([4], 4, [Round([], false, [])]);
    WholeReplyIs(cfg, s, c);
    ReadsQueued(Consume(cfg, s.server, Stream(c)).server, s.unread, Reply(cfg, s, c, [4]));
    after := CallHook(cfg, s, c, e).link;
  }

  /**
   Two calls, each of which is answered: if the first one's read is interrupted before its reply has arrived, it returns
   0, and the second one can return the verdict on the first.
   */
  lemma StaleVerdict(cfg: Config, a: Call, b: Call) returns (links: seq<Link>, es: seq<Choice>)
    requires Proper(cfg, a) && Ends(a) && !OutOfMemory(a) && Proper(cfg, b) && Ends(b) && !OutOfMemory(b)
    ensures IsSession(cfg, links, [a, b], es) && Whole(cfg, links, [a, b], es)
    ensures CallHook(cfg, links[0], a, es[0]).outcome == Skipped
    ensures CallHook(cfg, links[1], b, es[1]).outcome == Returned(NegatedInt(Answer(cfg, a)))
  {
    var start := Link(Server(None, [], [], Running), []);
    FreshIsIdle();
    hide Ends, OutOfMemory, Answer, Possible, Reply, Complete, CallHook, Idle, Decode32, Proper, IsSession, Whole,
      Callable;
    var first, after := FirstInterrupted(cfg, start, a);
    var second, last := ReadsLeftOver(cfg, after, b);
    RoundTrip32(Answer(cfg, a));
    links, es := [start, after, last], [first, second];
    BothCalls(cfg, start, after, last, a, b, first, second);
  }

  lemma FreshIsIdle()
    ensures Idle(Server(None, [], [], Running))
  {
  }

  lemma BothCalls(cfg: Config, start: Link, after: Link, last: Link, a: Call, b: Call, first: Choice, second: Choice)
    requires first.pieces == [4] && second.pieces == [4]
    requires Idle(start.server) && start.server.replies == [] && start.unread == []
    requires Callable(cfg, start, a, first) && Callable(cfg, after, b, second)
    requires CallHook(cfg, start, a, first) == Called(after, Skipped, [])
    requires CallHook(cfg, after, b, second).link == last && CallHook(cfg, after, b, second).outcome.Returned?
    ensures var links, es := [start, after, last], [first, second];
            IsSession(cfg, links, [a, b], es) && Whole(cfg, links, [a, b], es)
  {
    hide CallHook, Idle, Possible, Reply, Complete, Proper;
  }

  // ------------------------------------------------------------------------------------------
  // Calls that never return
  // ------------------------------------------------------------------------------------------

  predicate Uninterrupted(rounds: seq<Round>) { forall i :: 0 <= i < |rounds| ==> !rounds[i].interrupted }

  /** The receive loop can get where it does not end any more, whatever arrives, unless it is interrupted. */
  ghost predicate NeverEnds(server: Server, under: seq<byte>)
  {
    exists e: Choice ::
      Possible(under, e)
      && forall more: seq<Round> ::
           Uninterrupted(more) && Possible(under, e.(rounds := e.rounds + more)) ==>
             ReadReply(server, under, e.(rounds := e.rounds + more)).outcome.Waiting?
  }

  lemma NothingComes(server: Server, e: Choice)
    requires Possible([], e) && Uninterrupted(e.rounds)
    ensures ReadReply(server, [], e).outcome.Waiting?
  {
    if e.rounds != [] {
      assert Arrived([], e.rounds, 1) == [] + e.rounds[0].before + e.rounds[0].after;
      ArrivedGrows([], e.rounds, 1, |e.rounds|);
      assert false;
    }
  }

  lemma TooMuchComes(server: Server, under: seq<byte>, e: Choice)
    requires Possible(under, e) && e.queued > 4
    ensures ReadReply(server, under, e).outcome.Waiting?
  {
    hide AfterRounds, EndRound;
    var queue := under[..e.queued];
    EndRoundEnds(Reading([], queue, 4), e.rounds, |e.rounds|);
    var k := EndRound(Reading([], queue, 4), e.rounds, |e.rounds|);
    if k > 0 {
      TooMuchIsForEver(queue, 4, e.rounds, 0, k);
    }
  }

  /** What is still to come, in one round. */
  function RestComes(under: seq<byte>, e: Choice): (r: Round)
    requires Possible(under, e)
  {
    Round(under[|Arrived(under[..e.queued], e.rounds, |e.rounds|)|..], false, [])
  }

  lemma EnoughComes(server: Server, under: seq<byte>, e: Choice)
    requires Possible(under, e) && 0 < |under| <= 4
    ensures var e' := e.(rounds := e.rounds + [RestComes(under, e)]);
            Possible(under, e') && !ReadReply(server, under, e').outcome.Waiting?
    ensures Uninterrupted([RestComes(under, e)])
  {
    hide AfterRounds, EndRound;
    var queue, last := under[..e.queued], RestComes(under, e);
    var rounds, n := e.rounds + [last], |e.rounds|;
    MoreArrived(queue, e.rounds, [last], n);
    assert Arrived(queue, rounds, n + 1) == Arrived(queue, e.rounds, n) + last.before + last.after == under;
    assert n == 0 ==> Arrived(queue, e.rounds, 0) == queue;
    QuietEmpties(queue, 4, rounds, n + 1);
    EndRoundEnds(Reading([], queue, 4), rounds, n + 1);
  }

  /** Without interruptions the receive loop is sure to end exactly when one to four bytes are under way. */
  lemma HangsExactly(server: Server, under: seq<byte>)
    ensures NeverEnds(server, under) <==> |under| == 0 || |under| > 4
  {
    hide Possible, ReadReply;
    if |under| == 0 || |under| > 4 {
      var e := Choice([], |under|, []);
      NothingYet(under);
      forall more: seq<Round> | Uninterrupted(more) && Possible(under, e.(rounds := e.rounds + more))
        ensures ReadReply(server, under, e.(rounds := e.rounds + more)).outcome.Waiting?
      {
        assert [] + more == more;
        if |under| == 0 {
          assert under == [];
          NothingComes(server, e.(rounds := more));
        } else {
          TooMuchComes(server, under, e.(rounds := more));
        }
      }
    } else if NeverEnds(server, under) {
      var e: Choice :| Possible(under, e)
        && forall more: seq<Round> ::
             Uninterrupted(more) && Possible(under, e.(rounds := e.rounds + more)) ==>
               ReadReply(server, under, e.(rounds := e.rounds + more)).outcome.Waiting?;
      EnoughComes(server, under, e);
    }
  }

  /** With nothing unread, a call whose end frame goes out can return. */
  lemma SomeChoice(cfg: Config, s: Link, c: Call) returns (e: Choice)
    requires Proper(cfg, c) && Ends(c) && Idle(s.server) && s.unread == []
    ensures Callable(cfg, s, c, e) && !CallHook(cfg, s, c, e).outcome.Waiting? && e.pieces == [4]
  {
    hide Ends, Idle, Stream, Consume, ReadReply, Possible, OutOfMemory, RestComes;
    WholeReplyIs(cfg, s, c);
    var under := s.unread + Reply(cfg, s, c, [4]);
    var first := Choice([4], 0, []);
    NothingArrived(under);
    EnoughComes(Consume(cfg, s.server, Stream(c)).server, under, first);
    e := first.(rounds := first.rounds + [RestComes(under, first)]);
  }

  lemma NothingArrived(under: seq<byte>)
    ensures Possible(under, Choice([4], 0, []))
  {
  }

  lemma NothingYet(under: seq<byte>)
    ensures Possible(under, Choice([], |under|, []))
  {
    assert under[..|under|] == under;
  }

  /** A call can get where it does not come back from: its page array has been grown, and its receive loop can. */
  ghost predicate CanHang(cfg: Config, s: Link, c: Call, pieces: seq<nat>)
    requires (c.Pages? ==> |c.faults| == |c.events| + 1) && Complete(pieces, 4)
  {
    !OutOfMemory(c) && NeverEnds(Consume(cfg, s.server, Stream(c)).server, s.unread + Reply(cfg, s, c, pieces))
  }

  /**
   The next call after a session, with replies sent and read whole: it can hang exactly when its page array can be
   grown and, counting its own, not exactly one reply is under way.
   */
  lemma HangsExactlyInCounts(cfg: Config, links: seq<Link>, calls: seq<Call>, es: seq<Choice>, c: Call)
    requires IsSession(cfg, links, calls, es) && Whole(cfg, links, calls, es) && Proper(cfg, c)
    ensures Complete([4], 4)
    ensures var s, t := links[|calls|], TallyOf(cfg, links, calls, es, |calls|);
            CanHang(cfg, s, c, [4])
            <==> !OutOfMemory(c) && t.failures + t.skips + (if Ends(c) then 1 else 0) != t.lost + 1
  {
    hide CallHook, OutOfMemory, Answer, Ends, Reply, Restarted, Complete, Idle, NeverEnds, Consume, Stream;
    var s := links[|calls|];
    Lag(cfg, links, calls, es, |calls|);
    WholeSession(cfg, links, calls, es, |calls|);
    OnePiece();
    ReplyIs(cfg, s, c, [4]);
    HangsExactly(Consume(cfg, s.server, Stream(c)).server, s.unread + Reply(cfg, s, c, [4]));
  }
}
