/**
 The performance ring buffer: `perfchar_write` and `perfchar_read` over one fixed buffer with a head and a tail.
 Equal indices mean empty, so the buffer holds fewer than PERFBUF_SIZE bytes; a write notices that it has
 overwritten unread data only when head and tail collide exactly.
 */
module PerfRing {
  import opened Basics
  import opened Bytes

  const PERFBUF_SIZE: nat := 40960
  const EFAULT: int := 14

  /** How many bytes a ring holding `held` bytes holds after a write of `len`. */
  function KeptLength(held: nat, len: nat): nat
    requires len <= PERFBUF_SIZE
  {
    if held + len == PERFBUF_SIZE then PERFBUF_SIZE - len else (held + len) % PERFBUF_SIZE
  }

  /** The write law: a suffix of everything written so far and not yet read. */
  function AfterWrite(q: seq<byte>, d: seq<byte>): (r: seq<byte>)
    requires |q| < PERFBUF_SIZE && |d| <= PERFBUF_SIZE
    ensures |r| == KeptLength(|q|, |d|) < PERFBUF_SIZE
  {
    (q + d)[|q| + |d| - KeptLength(|q|, |d|)..]
  }

  function Min(a: nat, b: nat): (r: nat)
    ensures r <= a && r <= b && (r == a || r == b)
  {
    if a < b then a else b
  }

  /** The write law in the open: what fits is kept, an exact fill loses as much as is written, and more loses a ring. */
  lemma AfterWriteIs(q: seq<byte>, d: seq<byte>)
    requires |q| < PERFBUF_SIZE && |d| <= PERFBUF_SIZE
    ensures AfterWrite(q, d)
         == if |q| + |d| < PERFBUF_SIZE then q + d
            else if |q| + |d| == PERFBUF_SIZE then (q + d)[|d|..]
            else (q + d)[PERFBUF_SIZE..]
  {
    var total := |q| + |d|;
    assert total > PERFBUF_SIZE && total < 2 * PERFBUF_SIZE ==> total % PERFBUF_SIZE == total - PERFBUF_SIZE;
  }

  /** How many bytes are unread; equal indices mean none. */
  function Held(head: nat, tail: nat): (n: nat)
    requires head < PERFBUF_SIZE && tail < PERFBUF_SIZE
    ensures n < PERFBUF_SIZE && (tail + n) % PERFBUF_SIZE == head
  {
    if tail <= head then head - tail else PERFBUF_SIZE - tail + head
  }

  /** The unread bytes of a buffer with a given head and tail, oldest first. */
  function Unread(b: seq<byte>, head: nat, tail: nat): (q: seq<byte>)
    requires |b| == PERFBUF_SIZE && head < PERFBUF_SIZE && tail < PERFBUF_SIZE
    ensures |q| == Held(head, tail)
  {
    if tail <= head then b[tail..head] else b[tail..] + b[..head]
  }

  /** The buffer after data has been copied in from `head` on, wrapping around at its end. */
  function Written(b: seq<byte>, head: nat, data: seq<byte>): (r: seq<byte>)
    requires |b| == PERFBUF_SIZE && head < PERFBUF_SIZE && |data| <= PERFBUF_SIZE
    ensures |r| == PERFBUF_SIZE
  {
    if head + |data| <= PERFBUF_SIZE then b[..head] + data + b[head + |data|..]
    else
      var firstPart := PERFBUF_SIZE - head;
      data[firstPart..] + b[|data| - firstPart..head] + data[..firstPart]
  }

  lemma UnreadAt(b: seq<byte>, head: nat, tail: nat, i: nat, place: nat)
    requires |b| == PERFBUF_SIZE && head < PERFBUF_SIZE && tail < PERFBUF_SIZE && i < |Unread(b, head, tail)|
    requires place == (tail + i) % PERFBUF_SIZE
    ensures Unread(b, head, tail)[i] == b[place]
  {
  }

  lemma WrittenStraight(b: seq<byte>, head: nat, data: seq<byte>, place: nat)
    requires |b| == PERFBUF_SIZE && head < PERFBUF_SIZE && head + |data| <= PERFBUF_SIZE && place < PERFBUF_SIZE
    ensures Written(b, head, data)[place] == if head <= place < head + |data| then data[place - head] else b[place]
  {
    ThreeParts(b[..head], data, b[head + |data|..], place);
  }

  lemma WrittenWrapped(b: seq<byte>, head: nat, data: seq<byte>, place: nat)
    requires |b| == PERFBUF_SIZE && head < PERFBUF_SIZE && place < PERFBUF_SIZE
    requires |data| <= PERFBUF_SIZE < head + |data|
    ensures var firstPart := PERFBUF_SIZE - head;
            Written(b, head, data)[place]
            == if head <= place then data[place - head]
               else if place < |data| - firstPart then data[firstPart + place] else b[place]
  {
    var firstPart := PERFBUF_SIZE - head;
    ThreeParts(data[firstPart..], b[|data| - firstPart..head], data[..firstPart], place);
  }

  lemma WrittenAt(b: seq<byte>, head: nat, data: seq<byte>, i: nat, place: nat)
    requires |b| == PERFBUF_SIZE && head < PERFBUF_SIZE && |data| <= PERFBUF_SIZE && i < PERFBUF_SIZE
    requires place == (head + i) % PERFBUF_SIZE
    ensures Written(b, head, data)[place] == if i < |data| then data[i] else b[place]
  {
    hide Written;
    assert i == if head <= place then place - head else PERFBUF_SIZE - head + place;
    if head + |data| <= PERFBUF_SIZE {
      WrittenStraight(b, head, data, place);
    } else {
      WrittenWrapped(b, head, data, place);
    }
  }

  lemma ThreeParts(x: seq<byte>, y: seq<byte>, z: seq<byte>, i: nat)
    requires i < |x| + |y| + |z|
    ensures (x + y + z)[i] == if i < |x| then x[i] else if i < |x| + |y| then y[i - |x|] else z[i - |x| - |y|]
  {
  }

  /** Where the tail stands after a write. */
  function NewTail(head: nat, tail: nat, len: nat): nat
    requires head < PERFBUF_SIZE && tail < PERFBUF_SIZE && len <= PERFBUF_SIZE
  {
    if (head + len) % PERFBUF_SIZE == tail then (tail + len) % PERFBUF_SIZE else tail
  }

  lemma WriteLength(head: nat, tail: nat, len: nat)
    requires head < PERFBUF_SIZE && tail < PERFBUF_SIZE && len <= PERFBUF_SIZE
    ensures var held := Held(head, tail);
            var held' := Held((head + len) % PERFBUF_SIZE, NewTail(head, tail, len));
            && held' == KeptLength(held, len) <= held + len
            && (tail + (held + len - held')) % PERFBUF_SIZE == NewTail(head, tail, len)
  {
    assert (head + len) % PERFBUF_SIZE == if head + len < PERFBUF_SIZE then head + len else head + len - PERFBUF_SIZE;
    assert (tail + len) % PERFBUF_SIZE == if tail + len < PERFBUF_SIZE then tail + len else tail + len - PERFBUF_SIZE;
  }

  /** The write law: what a write leaves unread, in every copy shape and also when the head passes the tail. */
  lemma WriteLaw(b: seq<byte>, head: nat, tail: nat, data: seq<byte>)
    requires |b| == PERFBUF_SIZE && head < PERFBUF_SIZE && tail < PERFBUF_SIZE && |data| <= PERFBUF_SIZE
    ensures Unread(Written(b, head, data), (head + |data|) % PERFBUF_SIZE, NewTail(head, tail, |data|))
         == AfterWrite(Unread(b, head, tail), data)
  {
    var q, w := Unread(b, head, tail), Written(b, head, data);
    var head', tail' := (head + |data|) % PERFBUF_SIZE, NewTail(head, tail, |data|);
    var q', law := Unread(w, head', tail'), AfterWrite(q, data);
    WriteLength(head, tail, |data|);
    hide Unread, Written;
    forall i | 0 <= i < |law|
      ensures q'[i] == law[i]
    {
      WriteLawAt(b, head, tail, data, i);
    }
  }

  /** Position `at` of the unread stream, counted from the head. */
  lemma SamePlace(tail: nat, held: nat, head: nat, at: nat)
    requires tail < PERFBUF_SIZE && held < PERFBUF_SIZE && (tail + held) % PERFBUF_SIZE == head
    ensures at < held ==> (head + (PERFBUF_SIZE - held + at)) % PERFBUF_SIZE == (tail + at) % PERFBUF_SIZE
    ensures held <= at < held + PERFBUF_SIZE ==> (head + (at - held)) % PERFBUF_SIZE == (tail + at) % PERFBUF_SIZE
  {
  }

  lemma Shifted(tail: nat, skip: nat, i: nat)
    ensures ((tail + skip) % PERFBUF_SIZE + i) % PERFBUF_SIZE == (tail + (skip + i)) % PERFBUF_SIZE
  {
  }

  /** After a write, position `at` of the stream is found where it belongs, unless a later one has taken its place. */
  lemma StreamAt(b: seq<byte>, head: nat, tail: nat, data: seq<byte>, at: nat, place: nat)
    requires |b| == PERFBUF_SIZE && head < PERFBUF_SIZE && tail < PERFBUF_SIZE && |data| <= PERFBUF_SIZE
    requires var total := |Unread(b, head, tail)| + |data|; at < total <= at + PERFBUF_SIZE
    requires place == (tail + at) % PERFBUF_SIZE
    ensures Written(b, head, data)[place] == (Unread(b, head, tail) + data)[at]
  {
    hide Unread, Written;
    var held := |Unread(b, head, tail)|;
    SamePlace(tail, held, head, at);
    if at < held {
      UnreadAt(b, head, tail, at, place);
      WrittenAt(b, head, data, PERFBUF_SIZE - held + at, place);
    } else {
      WrittenAt(b, head, data, at - held, place);
    }
  }

  lemma WriteLawAt(b: seq<byte>, head: nat, tail: nat, data: seq<byte>, i: nat)
    requires |b| == PERFBUF_SIZE && head < PERFBUF_SIZE && tail < PERFBUF_SIZE && |data| <= PERFBUF_SIZE
    requires i < |AfterWrite(Unread(b, head, tail), data)|
    requires i < |Unread(Written(b, head, data), (head + |data|) % PERFBUF_SIZE, NewTail(head, tail, |data|))|
    ensures Unread(Written(b, head, data), (head + |data|) % PERFBUF_SIZE, NewTail(head, tail, |data|))[i]
         == AfterWrite(Unread(b, head, tail), data)[i]
  {
    hide Unread, Written;
    var q, w := Unread(b, head, tail), Written(b, head, data);
    var skip := |q| + |data| - KeptLength(|q|, |data|);
    WriteLength(head, tail, |data|);
    var place := (NewTail(head, tail, |data|) + i) % PERFBUF_SIZE;
    UnreadAt(w, (head + |data|) % PERFBUF_SIZE, NewTail(head, tail, |data|), i, place);
    Shifted(tail, skip, i);
    StreamAt(b, head, tail, data, skip + i, place);
    assert AfterWrite(q, data)[i] == (q + data)[skip + i];
  }

  class Ring {
    const buffer: array<byte>
    var head: nat
    var tail: nat

    ghost predicate Valid()
      reads this
    {
      buffer.Length == PERFBUF_SIZE && head < PERFBUF_SIZE && tail < PERFBUF_SIZE
    }

    ghost function Contents(): (q: seq<byte>)
      requires Valid()
      reads this, buffer
      ensures |q| < PERFBUF_SIZE
    {
      Unread(buffer[..], head, tail)
    }

    constructor ()
      ensures Valid() && Contents() == [] && fresh(buffer) && buffer.Length == 40960
    {
      buffer := new byte[PERFBUF_SIZE](_ => 0);
      head, tail := 0, 0;
    }

    /** Copies data in from the head on, in two parts if it wraps around, and moves the head. */
    method CopyIn(data: seq<byte>)
      requires Valid() && |data| <= PERFBUF_SIZE
      modifies this`head, buffer
      ensures Valid() && head == (old(head) + |data|) % PERFBUF_SIZE
      ensures buffer[..] == Written(old(buffer[..]), old(head), data)
    {
      hide Written;
      ghost var b, h := buffer[..], head;
      if head + |data| <= PERFBUF_SIZE {
        forall i | 0 <= i < |data| {
          buffer[head + i] := data[i];
        }
        head := (head + |data|) % PERFBUF_SIZE;
        forall place | 0 <= place < PERFBUF_SIZE
          ensures buffer[place] == Written(b, h, data)[place]
        {
          WrittenStraight(b, h, data, place);
        }
      } else {
        var firstPart := PERFBUF_SIZE - head;
        var secondPart := |data| - firstPart;
        forall i | 0 <= i < firstPart {
          buffer[head + i] := data[i];
        }
        forall i | 0 <= i < secondPart {
          buffer[i] := data[firstPart + i];
        }
        head := secondPart;
        forall place | 0 <= place < PERFBUF_SIZE
          ensures buffer[place] == Written(b, h, data)[place]
        {
          WrittenWrapped(b, h, data, place);
        }
      }
    }

    /** `perfchar_write`. */
    method Write(data: seq<byte>)
      requires Valid() && |data| <= PERFBUF_SIZE
      modifies this, buffer
      ensures Valid()
      ensures var q := old(Contents());
              Contents() == if |q| + |data| < PERFBUF_SIZE then q + data
                            else if |q| + |data| == PERFBUF_SIZE then (q + data)[|data|..]
                            else (q + data)[PERFBUF_SIZE..]
    {
      hide Unread, Written, AfterWrite;
      ghost var q := Contents();
      ghost var b, h, t := buffer[..], head, tail;
      WriteLaw(b, h, t, data);
      CopyIn(data);
      if head == tail {
        tail := (tail + |data|) % PERFBUF_SIZE;
      }
      assert tail == NewTail(h, t, |data|);
      assert buffer[..] == Written(b, h, data);
      assert Contents() == AfterWrite(q, data);
      AfterWriteIs(q, data);
    }

    /** `perfchar_read`; whether each copy to the user succeeds is a parameter. */
    method Read(len: nat, firstOk: bool, secondOk: bool) returns (ret: int, out: seq<byte>)
      requires Valid()
      modifies this`tail
      ensures Valid()
      ensures ret >= 0 ==> ret == |out| == Min(len, |old(Contents())|) && old(Contents()) == out + Contents()
      ensures ret < 0 ==> ret == -14 && out == [] && Contents() == old(Contents())
      ensures ret < 0 <==> old(Contents()) != []
                           && (!firstOk || (old(tail) + Min(len, |old(Contents())|) > PERFBUF_SIZE && !secondOk))
    {
      hide Unread;
      if head == tail {
        NothingUnread(buffer[..], head);
        return 0, [];
      }
      ghost var b, t := buffer[..], tail;
      var available := if head >= tail then head - tail else PERFBUF_SIZE - tail + head;
      var n := if len > available then available else len;
      ReadLaw(b, head, t, n);
      if tail + n <= PERFBUF_SIZE {
        if !firstOk {
          return -EFAULT, [];
        }
        out := buffer[tail..tail + n];
        tail := (tail + n) % PERFBUF_SIZE;
        assert out == b[t..t + n];
      } else {
        var firstPart := PERFBUF_SIZE - tail;
        var secondPart := n - firstPart;
        if !firstOk || !secondOk {
          return -EFAULT, [];
        }
        out := buffer[tail..] + buffer[..secondPart];
        tail := secondPart;
        assert out == b[t..] + b[..secondPart];
      }
      ret := n;
    }
  }

  lemma NothingUnread(b: seq<byte>, at: nat)
    requires |b| == PERFBUF_SIZE && at < PERFBUF_SIZE
    ensures Unread(b, at, at) == []
  {
  }

  lemma Halves(s: seq<byte>, lo: nat, mid: nat, hi: nat)
    requires lo <= mid <= hi <= |s|
    ensures s[lo..hi] == s[lo..mid] + s[mid..hi]
  {
  }

  lemma TailHalves(s: seq<byte>, lo: nat, mid: nat)
    requires lo <= mid <= |s|
    ensures s[lo..] == s[lo..mid] + s[mid..]
  {
  }

  lemma HeadHalves(s: seq<byte>, mid: nat, hi: nat)
    requires mid <= hi <= |s|
    ensures s[..hi] == s[..mid] + s[mid..hi]
  {
  }

  lemma ReadStraight(b: seq<byte>, head: nat, tail: nat, n: nat)
    requires |b| == PERFBUF_SIZE && tail + n <= head < PERFBUF_SIZE
    ensures Unread(b, head, tail) == b[tail..tail + n] + Unread(b, head, tail + n)
  {
    Halves(b, tail, tail + n, head);
  }

  lemma ReadBehind(b: seq<byte>, head: nat, tail: nat, n: nat)
    requires |b| == PERFBUF_SIZE && head < tail && tail + n < PERFBUF_SIZE
    ensures Unread(b, head, tail) == b[tail..tail + n] + Unread(b, head, tail + n)
  {
    TailHalves(b, tail, tail + n);
    Reassociate(b[tail..tail + n], b[tail + n..], b[..head]);
  }

  lemma ReadAround(b: seq<byte>, head: nat, tail: nat, second: nat)
    requires |b| == PERFBUF_SIZE && second <= head < tail < PERFBUF_SIZE
    ensures Unread(b, head, tail) == (b[tail..] + b[..second]) + Unread(b, head, second)
  {
    HeadHalves(b, second, head);
    Reassociate(b[tail..], b[..second], b[second..head]);
  }

  lemma ReadLaw(b: seq<byte>, head: nat, tail: nat, n: nat)
    requires |b| == PERFBUF_SIZE && head < PERFBUF_SIZE && tail < PERFBUF_SIZE && head != tail && n <= Held(head, tail)
    ensures tail + n <= PERFBUF_SIZE ==>
              Unread(b, head, tail) == b[tail..tail + n] + Unread(b, head, (tail + n) % PERFBUF_SIZE)
    ensures tail + n > PERFBUF_SIZE ==>
              Unread(b, head, tail)
              == (b[tail..] + b[..tail + n - PERFBUF_SIZE]) + Unread(b, head, tail + n - PERFBUF_SIZE)
  {
    hide Unread;
    if tail < head {
      ReadStraight(b, head, tail, n);
    } else if tail + n < PERFBUF_SIZE {
      ReadBehind(b, head, tail, n);
    } else {
      ReadAround(b, head, tail, tail + n - PERFBUF_SIZE);
      if tail + n == PERFBUF_SIZE {
        assert b[tail..] + b[..0] == b[tail..tail + n];
      }
    }
  }

  // ------------------------------------------------------------------------------------------
  // Whole runs
  // ------------------------------------------------------------------------------------------

  datatype Op = Put(data: seq<byte>) | Take(len: nat, ok: bool)

  /**
   The unread bytes, and what a reader and a writer could have noted down: everything written, everything
   delivered, and at which position of the written stream each delivered byte stood.
   */
  datatype History = History(held: seq<byte>, written: seq<byte>, delivered: seq<byte>, positions: seq<nat>)

  predicate GoodOps(ops: seq<Op>) { forall i :: 0 <= i < |ops| && ops[i].Put? ==> |ops[i].data| <= PERFBUF_SIZE }

  function Advance(h: History, op: Op): (r: History)
    requires |h.held| < PERFBUF_SIZE && (op.Put? ==> |op.data| <= PERFBUF_SIZE)
    ensures |r.held| < PERFBUF_SIZE
  {
    match op
    case Put(d) => h.(held := AfterWrite(h.held, d), written := h.written + d)
    case Take(len, ok) =>
      if !ok then h
      else
        var k := Min(len, |h.held|);
        h.(held := h.held[k..],
           delivered := h.delivered + h.held[..k],
           positions := h.positions
                        + seq(k, (i: nat) => if |h.held| <= |h.written| then |h.written| - |h.held| + i else 0))
  }

  function Replay(ops: seq<Op>): (h: History)
    requires GoodOps(ops)
    ensures |h.held| < PERFBUF_SIZE
  {
    if ops == [] then History([], [], [], []) else Advance(Replay(ops[..|ops| - 1]), ops[|ops| - 1])
  }

  /** Unread bytes end the written stream; delivered ones stood before them, in order, each at its own position. */
  predicate InOrder(h: History)
  {
    && |h.held| <= |h.written|
    && h.held == h.written[|h.written| - |h.held|..]
    && |h.delivered| == |h.positions|
    && (forall i :: 0 <= i < |h.positions| ==>
          h.positions[i] < |h.written| - |h.held| && h.delivered[i] == h.written[h.positions[i]])
    && (forall i, j :: 0 <= i < j < |h.positions| ==> h.positions[i] < h.positions[j])
  }

  lemma AdvanceInOrder(h: History, op: Op)
    requires InOrder(h) && |h.held| < PERFBUF_SIZE && (op.Put? ==> |op.data| <= PERFBUF_SIZE)
    ensures InOrder(Advance(h, op))
  {
    match op
    case Put(d) =>
      PutInOrder(h, d);
    case Take(len, ok) =>
      TakeInOrder(h, len);
  }

  lemma PutInOrder(h: History, d: seq<byte>)
    requires InOrder(h) && |h.held| < PERFBUF_SIZE && |d| <= PERFBUF_SIZE
    ensures InOrder(Advance(h, Put(d)))
  {
    var w := h.written + d;
    assert h.held + d == w[|h.written| - |h.held|..];
    var keep := KeptLength(|h.held|, |d|);
    assert AfterWrite(h.held, d) == w[|w| - keep..];
  }

  lemma TakeInOrder(h: History, len: nat)
    requires InOrder(h) && |h.held| < PERFBUF_SIZE
    ensures InOrder(Advance(h, Take(len, true)))
  {
    var k := Min(len, |h.held|);
    var r := Advance(h, Take(len, true));
    var from := |h.written| - |h.held|;
    assert r.held == h.written[from + k..];
    forall i | 0 <= i < |r.positions|
      ensures r.positions[i] < from + k && r.delivered[i] == h.written[r.positions[i]]
      ensures i < |h.positions| ==> r.positions[i] < from
      ensures |h.positions| <= i ==> r.positions[i] == from + (i - |h.positions|)
    {
    }
  }

  /** Over any run, delivered bytes appear in stream order: nothing is duplicated, invented or reordered. */
  lemma {:induction false} DeliveryInOrder(ops: seq<Op>)
    requires GoodOps(ops)
    ensures InOrder(Replay(ops))
  {
    if ops != [] {
      DeliveryInOrder(ops[..|ops| - 1]);
      AdvanceInOrder(Replay(ops[..|ops| - 1]), ops[|ops| - 1]);
    }
  }

  /** Every write leaves the ring short of full. */
  predicate NeverFull(ops: seq<Op>)
    requires GoodOps(ops)
    decreases |ops|
  {
    ops == [] ||
    (var before, op := ops[..|ops| - 1], ops[|ops| - 1];
     NeverFull(before) && (op.Put? ==> |Replay(before).held| + |op.data| < PERFBUF_SIZE))
  }

  lemma {:induction false} LossIsShort(ops: seq<Op>)
    requires GoodOps(ops)
    ensures var h := Replay(ops); |h.delivered| + |h.held| <= |h.written|
    ensures var h := Replay(ops); |h.delivered| + |h.held| == |h.written| <==> NeverFull(ops)
  {
    if ops != [] {
      LossIsShort(ops[..|ops| - 1]);
    }
  }

  /** What was read, followed by what is still held, is everything written exactly when no write filled the ring. */
  lemma {:induction false} LosslessExactly(ops: seq<Op>)
    requires GoodOps(ops)
    ensures var h := Replay(ops); h.delivered + h.held == h.written <==> NeverFull(ops)
  {
    var h := Replay(ops);
    LossIsShort(ops);
    if h.delivered + h.held == h.written {
      assert |h.delivered + h.held| == |h.written|;
    }
    if NeverFull(ops) {
      NothingLost(ops);
    }
  }

  lemma {:induction false} NothingLost(ops: seq<Op>)
    requires GoodOps(ops) && NeverFull(ops)
    ensures var h := Replay(ops); h.delivered + h.held == h.written
  {
    if ops != [] {
      var h, op := Replay(ops[..|ops| - 1]), ops[|ops| - 1];
      NothingLost(ops[..|ops| - 1]);
      match op
      case Put(d) =>
        assert AfterWrite(h.held, d) == h.held + d;
        assert h.delivered + (h.held + d) == h.written + d;
      case Take(len, ok) =>
        assert ok ==> h.held == h.held[..Min(len, |h.held|)] + h.held[Min(len, |h.held|)..];
    }
  }
}
