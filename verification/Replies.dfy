/**
 The kernel's receive loop and the reply it reads.

 `_tcp_recv` goes on reading as long as the socket's queue is not empty, whether or not it still wants bytes: so
 when it returns depends on what has arrived by the times it looks, which is the environment's choice.
 */
module Replies {
  import opened Bytes

  /** One round of the loop: what arrives before the read returns, and between the read and the look at the queue. */
  datatype Round = Round(before: seq<byte>, interrupted: bool, after: seq<byte>)

  /** The first `tcp_send_status`. */
  const SKIPPED: int := 0

  datatype Reading = Reading(got: seq<byte>, queue: seq<byte>, wanted: nat)

  /** A read takes what is there, up to what is wanted; an interrupted one takes nothing. */
  function ReadRound(r: Reading, e: Round): Reading
  {
    var there := r.queue + e.before;
    var n := if e.interrupted then 0 else if |there| <= r.wanted then |there| else r.wanted;
    Reading(r.got + there[..n], there[n..] + e.after, r.wanted - n)
  }

  /** The state after the first k rounds, if the loop is still running then. */
  function AfterRounds(r: Reading, rounds: seq<Round>, k: nat): Reading
    requires k <= |rounds|
  {
    if k == 0 then r else ReadRound(AfterRounds(r, rounds, k - 1), rounds[k - 1])
  }

  /** The loop ends after round k: the queue is empty then, and was not after any round before. */
  predicate EndsAfter(r: Reading, rounds: seq<Round>, k: nat)
    requires k <= |rounds|
  {
    k > 0 && AfterRounds(r, rounds, k).queue == []
    && forall j :: 0 < j < k ==> AfterRounds(r, rounds, j).queue != []
  }

  /** Everything that has arrived by the look at the end of round k. */
  function Arrived(queue: seq<byte>, rounds: seq<Round>, k: nat): seq<byte>
    requires k <= |rounds|
  {
    if k == 0 then queue else Arrived(queue, rounds, k - 1) + rounds[k - 1].before + rounds[k - 1].after
  }

  lemma MoveAcross(got: seq<byte>, queue: seq<byte>, before: seq<byte>, after: seq<byte>, n: nat)
    requires n <= |queue + before|
    ensures (got + (queue + before)[..n]) + ((queue + before)[n..] + after) == (got + queue) + before + after
  {
  }

  /** Nothing is lost, repeated or reordered on the way from the queue to the buffer. */
  lemma {:induction false} ReadingKeepsStream(queue: seq<byte>, wanted: nat, rounds: seq<Round>, k: nat)
    requires k <= |rounds|
    ensures var r := AfterRounds(Reading([], queue, wanted), rounds, k);
            r.got + r.queue == Arrived(queue, rounds, k) && |r.got| + r.wanted == wanted
  {
    if k > 0 {
      ReadingKeepsStream(queue, wanted, rounds, k - 1);
      var r := AfterRounds(Reading([], queue, wanted), rounds, k - 1);
      var e := rounds[k - 1];
      var there := r.queue + e.before;
      var n := if e.interrupted then 0 else if |there| <= r.wanted then |there| else r.wanted;
      MoveAcross(r.got, r.queue, e.before, e.after, n);
    }
  }

  lemma {:induction false} ArrivedGrows(queue: seq<byte>, rounds: seq<Round>, j: nat, k: nat)
    requires j <= k <= |rounds|
    ensures Arrived(queue, rounds, j) <= Arrived(queue, rounds, k)
  {
    if j < k {
      ArrivedGrows(queue, rounds, j, k - 1);
    }
  }

  /** A call that returns has taken everything that had arrived, and that was no more than it wanted. */
  lemma ReturnsWhatArrived(queue: seq<byte>, wanted: nat, rounds: seq<Round>, k: nat)
    requires k <= |rounds| && EndsAfter(Reading([], queue, wanted), rounds, k)
    ensures AfterRounds(Reading([], queue, wanted), rounds, k).got == Arrived(queue, rounds, k)
    ensures |Arrived(queue, rounds, k)| <= wanted
  {
    hide AfterRounds;
    ReadingKeepsStream(queue, wanted, rounds, k);
    var r := AfterRounds(Reading([], queue, wanted), rounds, k);
    assert r.got + r.queue == r.got;
  }

  /** Once more has arrived than the call wants, it does not return any more. */
  lemma TooMuchIsForEver(queue: seq<byte>, wanted: nat, rounds: seq<Round>, j: nat, k: nat)
    requires j <= k <= |rounds| && |Arrived(queue, rounds, j)| > wanted
    ensures !EndsAfter(Reading([], queue, wanted), rounds, k)
  {
    hide AfterRounds, Arrived, EndsAfter;
    ArrivedGrows(queue, rounds, j, k);
    if EndsAfter(Reading([], queue, wanted), rounds, k) {
      ReturnsWhatArrived(queue, wanted, rounds, k);
      assert false;
    }
  }

  // ------------------------------------------------------------------------------------------
  // When a call returns
  // ------------------------------------------------------------------------------------------

  /**
   Nothing is left behind by round j: nothing arrives behind its read; and an interrupted read, which takes nothing,
   finds nothing either - which can only be the first one, because the queue is not empty when a later one begins.
   */
  predicate Quiet(queue: seq<byte>, rounds: seq<Round>, j: nat)
    requires 0 < j <= |rounds|
  {
    var e := rounds[j - 1];
    if e.interrupted then j == 1 && queue == [] && e.before == [] && e.after == [] else e.after == []
  }

  lemma QuietEmpties(queue: seq<byte>, wanted: nat, rounds: seq<Round>, j: nat)
    requires 0 < j <= |rounds| && Quiet(queue, rounds, j) && |Arrived(queue, rounds, j)| <= wanted
    ensures AfterRounds(Reading([], queue, wanted), rounds, j).queue == []
  {
    var r, e := AfterRounds(Reading([], queue, wanted), rounds, j - 1), rounds[j - 1];
    ReadingKeepsStream(queue, wanted, rounds, j - 1);
    assert Arrived(queue, rounds, j) == Arrived(queue, rounds, j - 1) + e.before + e.after;
    hide Arrived;
    if !e.interrupted {
      assert |r.got| + |r.queue| + |e.before| <= wanted;
      assert |r.queue + e.before| <= r.wanted;
    }
  }

  lemma NoiseRemains(queue: seq<byte>, wanted: nat, rounds: seq<Round>, j: nat)
    requires 0 < j <= |rounds| && !Quiet(queue, rounds, j)
    requires j == 1 || AfterRounds(Reading([], queue, wanted), rounds, j - 1).queue != []
    ensures AfterRounds(Reading([], queue, wanted), rounds, j).queue != []
  {
    var r := AfterRounds(Reading([], queue, wanted), rounds, j - 1);
    assert AfterRounds(Reading([], queue, wanted), rounds, j) == ReadRound(r, rounds[j - 1]);
    assert j == 1 ==> r == Reading([], queue, wanted);
  }

  lemma {:induction false} NoiseLasts(queue: seq<byte>, wanted: nat, rounds: seq<Round>, j: nat)
    requires 0 < j <= |rounds| && forall i :: 0 < i <= j ==> !Quiet(queue, rounds, i)
    ensures AfterRounds(Reading([], queue, wanted), rounds, j).queue != []
  {
    hide AfterRounds, Quiet;
    if j > 1 {
      NoiseLasts(queue, wanted, rounds, j - 1);
    }
    NoiseRemains(queue, wanted, rounds, j);
  }

  lemma EndIsQuiet(queue: seq<byte>, wanted: nat, rounds: seq<Round>, k: nat)
    requires 0 < k <= |rounds| && EndsAfter(Reading([], queue, wanted), rounds, k)
    ensures Quiet(queue, rounds, k)
  {
    hide AfterRounds, Quiet;
    if !Quiet(queue, rounds, k) {
      NoiseRemains(queue, wanted, rounds, k);
    }
  }

  /**
   When the loop ends, exactly: after the first quiet round, provided that no more than wanted has arrived by then.
   The call then has all it wants exactly when as much as that has arrived, and otherwise it comes back short.
   */
  lemma LoopEndsExactly(queue: seq<byte>, wanted: nat, rounds: seq<Round>, k: nat)
    requires 0 < k <= |rounds|
    ensures EndsAfter(Reading([], queue, wanted), rounds, k)
       <==> && |Arrived(queue, rounds, k)| <= wanted && Quiet(queue, rounds, k)
            && forall j :: 0 < j < k ==> !Quiet(queue, rounds, j)
    ensures EndsAfter(Reading([], queue, wanted), rounds, k) ==>
              AfterRounds(Reading([], queue, wanted), rounds, k) ==
                Reading(Arrived(queue, rounds, k), [], wanted - |Arrived(queue, rounds, k)|)
  {
    hide AfterRounds, Quiet, Arrived;
    var r := Reading([], queue, wanted);
    if EndsAfter(r, rounds, k) {
      ReturnsWhatArrived(queue, wanted, rounds, k);
      ReadingKeepsStream(queue, wanted, rounds, k);
      EndIsQuiet(queue, wanted, rounds, k);
      forall j | 0 < j < k
        ensures !Quiet(queue, rounds, j)
      {
        ArrivedGrows(queue, rounds, j, k);
        if Quiet(queue, rounds, j) {
          QuietEmpties(queue, wanted, rounds, j);
        }
      }
    }
    if |Arrived(queue, rounds, k)| <= wanted && Quiet(queue, rounds, k)
       && forall j :: 0 < j < k ==> !Quiet(queue, rounds, j) {
      QuietEmpties(queue, wanted, rounds, k);
      forall j | 0 < j < k
        ensures AfterRounds(r, rounds, j).queue != []
      {
        NoiseLasts(queue, wanted, rounds, j);
      }
    }
  }

  /** The round after which the loop ends, among the first k; 0 if it goes on. */
  function EndRound(r: Reading, rounds: seq<Round>, k: nat): (e: nat)
    requires k <= |rounds|
    ensures e <= k
  {
    if k == 0 then 0
    else if EndRound(r, rounds, k - 1) > 0 then EndRound(r, rounds, k - 1)
    else if AfterRounds(r, rounds, k).queue == [] then k
    else 0
  }

  lemma {:induction false} EndRoundEnds(r: Reading, rounds: seq<Round>, k: nat)
    requires k <= |rounds|
    ensures var e := EndRound(r, rounds, k);
            if e > 0 then EndsAfter(r, rounds, e)
            else forall j :: 0 < j <= k ==> AfterRounds(r, rounds, j).queue != []
  {
    hide AfterRounds;
    if k > 0 {
      EndRoundEnds(r, rounds, k - 1);
    }
  }

  lemma OneEnd(r: Reading, rounds: seq<Round>, j: nat)
    requires j <= |rounds| && EndsAfter(r, rounds, j)
    ensures EndRound(r, rounds, |rounds|) == j
  {
    hide AfterRounds;
    EndRoundEnds(r, rounds, |rounds|);
  }

  /** What has arrived by round k does not depend on what follows. */
  lemma {:induction false} MoreArrived(queue: seq<byte>, rounds: seq<Round>, more: seq<Round>, k: nat)
    requires k <= |rounds|
    ensures Arrived(queue, rounds + more, k) == Arrived(queue, rounds, k)
  {
    if k > 0 {
      MoreArrived(queue, rounds, more, k - 1);
    }
  }

  // ------------------------------------------------------------------------------------------
  // The loop itself
  // ------------------------------------------------------------------------------------------

  /** What the reply buffer holds after a call: what was read, and behind it what was there before. */
  function Filled(got: seq<byte>, junk: seq<byte>): (buf: seq<byte>)
    requires |got| <= |junk|
    ensures |buf| == |junk|
  {
    got + junk[|got|..]
  }

  class ReplySocket {
    /** `sk_receive_queue`. */
    var queue: seq<byte>
    /** The global the hooks negate and return. */
    var analyzerResponse: u32

    constructor (queue: seq<byte>)
      ensures this.queue == queue && analyzerResponse == 0
    {
      this.queue, analyzerResponse := queue, 0;
    }

    /** `kernel_recvmsg` into `buf[off..]`. */
    method RecvMsg(buf: array<byte>, off: nat, e: Round) returns (rb: nat)
      requires off <= buf.Length
      modifies this`queue, buf
      ensures var there := old(queue) + e.before;
              && rb == (if e.interrupted then 0 else if |there| <= buf.Length - off then |there| else buf.Length - off)
              && queue == there[rb..]
              && buf[..] == old(buf[..off]) + there[..rb] + old(buf[off + rb..])
    {
      ghost var was := buf[..];
      queue := queue + e.before;
      rb := if e.interrupted then 0 else if |queue| <= buf.Length - off then |queue| else buf.Length - off;
      forall i | 0 <= i < rb {
        buf[off + i] := queue[i];
      }
      assert buf[..] == was[..off] + queue[..rb] + was[off + rb..];
      queue := queue[rb..];
    }

    /**
     `_tcp_recv`, for as long as `rounds` says what the environment does: `ended` tells whether the loop is over
     by then.
     */
    method TcpRecv(buf: array<byte>, rounds: seq<Round>) returns (ended: bool, totalRb: nat)
      modifies this`queue, buf
      ensures var start := Reading([], old(queue), buf.Length);
              var k := EndRound(start, rounds, |rounds|);
              var r := AfterRounds(start, rounds, if k > 0 then k else |rounds|);
              && ended == (k > 0) && totalRb == |r.got| <= buf.Length && queue == r.queue
              && buf[..] == Filled(r.got, old(buf[..]))
    {
      hide AfterRounds, ReadRound, EndRound, EndsAfter, Received, Filled;
      ghost var start := Reading([], queue, buf.Length);
      ghost var was := buf[..];
      totalRb, ended := 0, false;
      var i := 0;
      NothingReceived(start, rounds, was);
      while i < |rounds| && !ended
        invariant i <= |rounds| && totalRb <= buf.Length
        invariant Received(AfterRounds(start, rounds, i), queue, totalRb, buf[..], was)
        invariant ended ==> EndsAfter(start, rounds, i)
        invariant !ended ==> GoesOn(start, rounds, i)
        decreases |rounds| - i, !ended
      {
        ghost var q, before := queue, buf[..];
        var rb := RecvMsg(buf, totalRb, rounds[i]);
        queue := queue + rounds[i].after;
        RoundReceived(start, rounds, i, q, totalRb, before, was, q + rounds[i].before, rb, queue, buf[..]);
        totalRb := totalRb + rb;
        i := i + 1;
        ended := queue == [];
      }
      LoopResult(start, rounds, i, ended);
      ReceivedIs(AfterRounds(start, rounds, i), queue, totalRb, buf[..], was);
    }

    /** `lsm_receive_reply_tcp`: the response is whatever the four bytes of the stack hold after the call. */
    method ReceiveReply(buf: array<byte>, rounds: seq<Round>) returns (ended: bool, len: nat)
      requires buf.Length == 4
      modifies this, buf
      ensures var start := Reading([], old(queue), 4);
              var k := EndRound(start, rounds, |rounds|);
              && ended == (k > 0)
              && (ended ==>
                    var got := AfterRounds(start, rounds, k).got;
                    && len == |got| <= 4 && queue == []
                    && analyzerResponse == Decode32(Filled(got, old(buf[..]))))
              && (!ended ==> analyzerResponse == old(analyzerResponse))
    {
      hide AfterRounds, EndRound;
      EndRoundEnds(Reading([], queue, 4), rounds, |rounds|);
      ended, len := TcpRecv(buf, rounds);
      if ended {
        analyzerResponse := Decode32(buf[..]);
      }
    }

    /** How a hook ends: the negated response, but 0 - the hook allows - when the reply is not complete. */
    method AwaitVerdict(buf: array<byte>, rounds: seq<Round>) returns (ended: bool, ret: int)
      requires buf.Length == 4
      modifies this, buf
      ensures var start := Reading([], old(queue), 4);
              var k := EndRound(start, rounds, |rounds|);
              && ended == (k > 0)
              && (ended ==>
                    var got := AfterRounds(start, rounds, k).got;
                    && |got| <= 4 && queue == []
                    && ret == if |got| < 4 then 0 else NegatedInt(Decode32(got)))
    {
      hide AfterRounds, EndRound;
      ghost var was := buf[..];
      ghost var k := EndRound(Reading([], queue, 4), rounds, |rounds|);
      ghost var got := AfterRounds(Reading([], queue, 4), rounds, k).got;
      var len;
      ended, len := ReceiveReply(buf, rounds);
      ret := SKIPPED;
      if ended && len >= 4 {
        assert Filled(got, was) == got;
        ret := NegatedInt(analyzerResponse);
      }
    }
  }

  /** The loop has not ended by round i. */
  predicate GoesOn(r: Reading, rounds: seq<Round>, i: nat)
    requires i <= |rounds|
  {
    forall j :: 0 < j <= i ==> AfterRounds(r, rounds, j).queue != []
  }

  lemma LoopResult(r: Reading, rounds: seq<Round>, i: nat, ended: bool)
    requires i <= |rounds| && (if ended then EndsAfter(r, rounds, i) else i == |rounds| && GoesOn(r, rounds, i))
    ensures var k := EndRound(r, rounds, |rounds|);
            ended == (k > 0) && i == if k > 0 then k else |rounds|
  {
    hide AfterRounds;
    EndRoundEnds(r, rounds, |rounds|);
    if ended {
      OneEnd(r, rounds, i);
    }
  }

  /** What the loop has in its variables and its buffer is what the specification has read. */
  predicate Received(r: Reading, queue: seq<byte>, totalRb: nat, now: seq<byte>, was: seq<byte>)
  {
    && r.queue == queue && |r.got| == totalRb <= |was| && r.wanted == |was| - totalRb
    && now == r.got + was[totalRb..]
  }

  lemma NothingReceived(r: Reading, rounds: seq<Round>, was: seq<byte>)
    requires r == Reading([], r.queue, |was|)
    ensures Received(AfterRounds(r, rounds, 0), r.queue, 0, was, was) && GoesOn(r, rounds, 0)
  {
    assert [] + was[0..] == was;
  }

  /** One round of the loop. */
  lemma RoundReceived(r: Reading, rounds: seq<Round>, i: nat, q: seq<byte>, totalRb: nat, before: seq<byte>,
                      was: seq<byte>, there: seq<byte>, rb: nat, queue: seq<byte>, now: seq<byte>)
    requires i < |rounds| && GoesOn(r, rounds, i) && there == q + rounds[i].before
    requires Received(AfterRounds(r, rounds, i), q, totalRb, before, was)
    requires totalRb <= |was|
    requires rb == if rounds[i].interrupted then 0 else if |there| <= |was| - totalRb then |there| else |was| - totalRb
    requires rb <= |there| && totalRb + rb <= |before|
    requires queue == there[rb..] + rounds[i].after
    requires now == before[..totalRb] + there[..rb] + before[totalRb + rb..]
    ensures Received(AfterRounds(r, rounds, i + 1), queue, totalRb + rb, now, was)
    ensures if queue == [] then EndsAfter(r, rounds, i + 1) else GoesOn(r, rounds, i + 1)
  {
    var s, e := AfterRounds(r, rounds, i), rounds[i];
    assert AfterRounds(r, rounds, i + 1) == ReadRound(s, e);
    hide AfterRounds;
    Refill(s.got, was, totalRb, there[..rb], now);
  }

  lemma ReceivedIs(r: Reading, queue: seq<byte>, totalRb: nat, now: seq<byte>, was: seq<byte>)
    requires Received(r, queue, totalRb, now, was)
    ensures totalRb == |r.got| <= |was| && r.queue == queue && now == Filled(r.got, was)
  {
  }

  lemma Refill(got: seq<byte>, was: seq<byte>, n: nat, more: seq<byte>, now: seq<byte>)
    requires n == |got| && n + |more| <= |was|
    requires now == (got + was[n..])[..n] + more + (got + was[n..])[n + |more|..]
    ensures now == (got + more) + was[n + |more|..]
  {
  }
}
