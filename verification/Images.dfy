/** What a list of cells looks like in memory, and what placing frames in a zero-filled buffer builds. */
module Images {
  import opened Basics
  import opened Bytes
  import opened Framing
  import opened PageWalk

  /** The bytes of a cell: its page frame's, or zeros when there is nothing to send. */
  function CellBytes(m: Machine, c: Option<Pfn>): PageBytes
  {
    match c
    case Some(p) => m.mem(p)
    case None => Zeros(PAGE_SIZE)
  }

  /** The bytes of consecutive cells. */
  function Image(m: Machine, cells: seq<Option<Pfn>>): (s: seq<byte>)
    ensures |s| == |cells| * PAGE_SIZE
  {
    if cells == [] then [] else Image(m, cells[..|cells| - 1]) + CellBytes(m, cells[|cells| - 1])
  }

  function Nones(n: nat): (s: seq<Option<Pfn>>)
    ensures |s| == n && forall i :: 0 <= i < n ==> s[i] == None
  {
    seq(n, _ => None)
  }

  function Somes(ps: seq<Pfn>): (s: seq<Option<Pfn>>)
    ensures |s| == |ps| && forall i :: 0 <= i < |ps| ==> s[i] == Some(ps[i])
  {
    seq(|ps|, i requires 0 <= i < |ps| => Some(ps[i]))
  }

  lemma ImageSnoc(m: Machine, cells: seq<Option<Pfn>>, c: Option<Pfn>)
    ensures Image(m, cells + [c]) == Image(m, cells) + CellBytes(m, c)
  {
    assert (cells + [c])[..|cells|] == cells;
  }

  lemma {:induction false} ImageAppend(m: Machine, a: seq<Option<Pfn>>, b: seq<Option<Pfn>>)
    ensures Image(m, a + b) == Image(m, a) + Image(m, b)
  {
    if b == [] {
      assert a + b == a;
    } else {
      var b', c := b[..|b| - 1], b[|b| - 1];
      ImageAppend(m, a, b');
      assert a + b == (a + b') + [c];
      ImageSnoc(m, a + b', c);
      Reassociate(Image(m, a), Image(m, b'), CellBytes(m, c));
    }
  }

  lemma {:induction false} ImageOfNones(m: Machine, n: nat)
    ensures Image(m, Nones(n)) == Zeros(n * PAGE_SIZE)
  {
    if n > 0 {
      assert Nones(n) == Nones(n - 1) + [None];
      ImageSnoc(m, Nones(n - 1), None);
      ImageOfNones(m, n - 1);
      ZerosAppend((n - 1) * PAGE_SIZE, PAGE_SIZE);
    }
  }

  lemma {:induction false} ImageOfSomes(m: Machine, ps: seq<Pfn>)
    ensures Image(m, Somes(ps)) == m.Vmap(ps)
  {
    if ps != [] {
      var ps' := ps[..|ps| - 1];
      assert Somes(ps) == Somes(ps') + [Some(ps[|ps| - 1])];
      ImageSnoc(m, Somes(ps'), Some(ps[|ps| - 1]));
      ImageOfSomes(m, ps');
    }
  }

  /** The page k of an image. */
  lemma ImageAt(m: Machine, cells: seq<Option<Pfn>>, k: nat)
    requires k < |cells|
    ensures Image(m, cells)[k * PAGE_SIZE..(k + 1) * PAGE_SIZE] == CellBytes(m, cells[k])
  {
    hide Image;
    var a, b := cells[..k], cells[k + 1..];
    assert cells == a + [cells[k]] + b;
    ImageAppend(m, a + [cells[k]], b);
    ImageSnoc(m, a, cells[k]);
    hide *;
    SliceOf(Image(m, a), CellBytes(m, cells[k]), Image(m, b), k * PAGE_SIZE, (k + 1) * PAGE_SIZE);
  }

  lemma SliceOf(a: seq<byte>, b: seq<byte>, c: seq<byte>, lo: nat, hi: nat)
    requires lo == |a| && hi == |a| + |b|
    ensures (a + b + c)[lo..hi] == b
  {
  }

  /** Writes a payload at an offset of a buffer; outside the buffer nothing is written. */
  function Place(buf: seq<byte>, off: nat, payload: seq<byte>): (r: seq<byte>)
    ensures |r| == |buf|
  {
    if off + |payload| <= |buf| then buf[..off] + payload + buf[off + |payload|..] else buf
  }

  /** All frames' payloads placed, in order, in a zero-filled buffer of the given size. */
  function Placed(frames: seq<Frame>, size: nat): (r: seq<byte>)
    ensures |r| == size
  {
    if frames == [] then Zeros(size)
    else
      var f := frames[|frames| - 1];
      Place(Placed(frames[..|frames| - 1], size), f.info.mappedAddr, f.payload)
  }

  lemma PlacedSnoc(frames: seq<Frame>, f: Frame, size: nat)
    ensures Placed(frames + [f], size) == Place(Placed(frames, size), f.info.mappedAddr, f.payload)
  {
    assert (frames + [f])[..|frames|] == frames;
  }

  lemma PlaceNothing(buf: seq<byte>, off: nat)
    ensures Place(buf, off, []) == buf
  {
  }

  /** Placing right behind what is already there, into zeros. */
  lemma PlaceInZeros(done: seq<byte>, payload: seq<byte>, size: nat)
    requires |done| + |payload| <= size
    ensures Place(done + Zeros(size - |done|), |done|, payload)
         == (done + payload) + Zeros(size - |done| - |payload|)
  {
    var buf := done + Zeros(size - |done|);
    assert buf[..|done|] == done;
    assert buf[|done| + |payload|..] == Zeros(size - |done| - |payload|);
  }

  lemma ZerosAfter(x: seq<byte>, a: nat, b: nat)
    ensures (x + Zeros(a)) + Zeros(b) == x + Zeros(a + b)
  {
  }

  /** The same, with some of the zeros behind the payload counted as already there. */
  lemma PlaceWithTail(done: seq<byte>, payload: seq<byte>, tail: nat, rest: nat)
    ensures Place(done + Zeros(|payload| + tail + rest), |done|, payload)
         == ((done + payload) + Zeros(tail)) + Zeros(rest)
  {
    PlaceInZeros(done, payload, |done| + |payload| + tail + rest);
    ZerosAfter(done + payload, tail, rest);
  }
}
