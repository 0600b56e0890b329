/** The analyzer's linear hash over a mapping: exclusive or with each (signed) byte, then an odd multiplier. */
module LinearHash {
  import opened Bytes

  const BASIS: u32 := 0x811c9dc5
  const PRIME: nat := 0x01000193
  /** The inverse of the multiplier modulo 2^32. */
  const PRIME_INVERSE: nat := 0x359c449b
  const FLAGGED: u32 := 0xdeadbeef

  function Differ(a: nat, b: nat): (d: nat)
    ensures d < 2
  {
    if a == b then 0 else 1
  }

  /** Exclusive or of the k low bits. */
  function Xor(a: nat, b: nat, k: nat): (r: nat)
    ensures r < Pow2(k)
  {
    if k == 0 then 0 else Differ(a % 2, b % 2) + 2 * Xor(a / 2, b / 2, k - 1)
  }

  function Pow2(k: nat): (p: nat)
    ensures p > 0
  {
    if k == 0 then 1 else 2 * Pow2(k - 1)
  }

  lemma Pow2Of32()
    ensures Pow2(32) == U32_LIMIT
  {
    assert Pow2(8) == 256;
    assert Pow2(16) == 256 * Pow2(8);
    assert Pow2(24) == 256 * Pow2(16);
    assert Pow2(32) == 256 * Pow2(24);
  }

  function Xor32(a: u32, b: u32): u32
  {
    Pow2Of32();
    Xor(a, b, 32)
  }

  /** A `char` widened to 32 bits: its sign bit is repeated. */
  function SignExtended(b: byte): u32 { if b < 0x80 then b else 0xFFFF_FF00 + b }

  function Times(h: u32): u32 { (h * PRIME) % U32_LIMIT }

  function Step(h: u32, b: byte): u32 { Times(Xor32(h, SignExtended(b))) }

  /** The state a step came from. */
  function StepBack(h: u32, b: byte): u32 { Xor32((h * PRIME_INVERSE) % U32_LIMIT, SignExtended(b)) }

  function HashFrom(h: u32, data: seq<byte>): u32
  {
    if data == [] then h else Step(HashFrom(h, data[..|data| - 1]), data[|data| - 1])
  }

  function Hash(data: seq<byte>): u32 { HashFrom(BASIS, data) }

  lemma LowBit(d: nat, x: nat)
    requires d < 2
    ensures (d + 2 * x) % 2 == d && (d + 2 * x) / 2 == x
  {
  }

  lemma XorBits(a: nat, b: nat, k: nat)
    requires k > 0
    ensures Xor(a, b, k) % 2 == Differ(a % 2, b % 2)
    ensures Xor(a, b, k) / 2 == Xor(a / 2, b / 2, k - 1)
  {
    LowBit(Differ(a % 2, b % 2), Xor(a / 2, b / 2, k - 1));
  }

  lemma XorStep(a: nat, b: nat, k: nat)
    requires k > 0
    ensures Xor(a, b, k) == Differ(a % 2, b % 2) + 2 * Xor(a / 2, b / 2, k - 1)
  {
  }

  lemma DifferTwice(a: nat, b: nat)
    requires a < 2 && b < 2
    ensures Differ(Differ(a, b), b) == a && Differ(a, Differ(a, b)) == b
  {
  }

  lemma {:induction false} XorTwice(a: nat, b: nat, k: nat)
    requires a < Pow2(k)
    ensures Xor(Xor(a, b, k), b, k) == a
  {
    if k > 0 {
      HalfFits(a, k);
      XorTwice(a / 2, b / 2, k - 1);
      XorBits(a, b, k);
      XorStep(Xor(a, b, k), b, k);
      DifferTwice(a % 2, b % 2);
      hide Xor, Differ, Pow2;
    }
  }

  lemma {:induction false} XorOfPair(a: nat, b: nat, k: nat)
    requires b < Pow2(k)
    ensures Xor(a, Xor(a, b, k), k) == b
  {
    if k > 0 {
      HalfFits(b, k);
      XorOfPair(a / 2, b / 2, k - 1);
      XorBits(a, b, k);
      XorStep(a, Xor(a, b, k), k);
      DifferTwice(a % 2, b % 2);
      hide Xor, Differ, Pow2;
    }
  }

  lemma HalfFits(a: nat, k: nat)
    requires k > 0 && a < Pow2(k)
    ensures a / 2 < Pow2(k - 1)
    ensures a % 2 + 2 * (a / 2) == a
  {
  }

  lemma Xor32Twice(a: u32, b: u32)
    ensures Xor32(Xor32(a, b), b) == a
    ensures Xor32(a, Xor32(a, b)) == b
  {
    Pow2Of32();
    XorTwice(a, b, 32);
    XorOfPair(a, b, 32);
  }

  lemma MultiplierIsInvertible(h: u32, p: nat, q: nat, c: nat)
    requires p * q == 1 + c * U32_LIMIT
    ensures (((h * p) % U32_LIMIT) * q) % U32_LIMIT == h
  {
    var m := U32_LIMIT;
    var d := (h * p) / m;
    var r := (h * p) % m;
    assert h * p == d * m + r;
    assert r * q == h + (h * c - d * q) * m by {
      calc {
        r * q;
        (h * p - d * m) * q;
        h * (p * q) - d * m * q;
        h * (1 + c * m) - d * m * q;
        h + (h * c - d * q) * m;
      }
    }
    RemainderOfMultiple(h, h * c - d * q);
  }

  lemma RemainderOfMultiple(r: u32, k: int)
    ensures (r + k * U32_LIMIT) % U32_LIMIT == r
  {
  }

  lemma OddMultiplierIsInvertible(h: u32)
    ensures (Times(h) * PRIME_INVERSE) % U32_LIMIT == h
    ensures Times((h * PRIME_INVERSE) % U32_LIMIT) == h
  {
    var c := (PRIME * PRIME_INVERSE) / U32_LIMIT;
    MultiplierIsInvertible(h, PRIME, PRIME_INVERSE, c);
    MultiplierIsInvertible(h, PRIME_INVERSE, PRIME, c);
  }

  /** For each byte, a step is a bijection on the states. */
  lemma StepIsBijective(h: u32, b: byte)
    ensures StepBack(Step(h, b), b) == h
    ensures Step(StepBack(h, b), b) == h
  {
    var e := SignExtended(b);
    hide SignExtended, Times, Xor32;
    OddMultiplierIsInvertible(Xor32(h, e));
    OddMultiplierIsInvertible(h);
    Xor32Twice(h, e);
    Xor32Twice((h * PRIME_INVERSE) % U32_LIMIT, e);
  }

  lemma StepKeepsApart(g: u32, h: u32, b: byte)
    ensures Step(g, b) == Step(h, b) <==> g == h
  {
    hide Step, StepBack;
    StepIsBijective(g, b);
    StepIsBijective(h, b);
  }

  lemma StepTellsBytes(h: u32, a: byte, b: byte)
    ensures Step(h, a) == Step(h, b) <==> a == b
  {
    var x, y := SignExtended(a), SignExtended(b);
    assert x == y <==> a == b;
    hide SignExtended, Times, Xor32;
    OddMultiplierIsInvertible(Xor32(h, x));
    OddMultiplierIsInvertible(Xor32(h, y));
    Xor32Twice(h, x);
    Xor32Twice(h, y);
  }

  lemma {:induction false} HashFromAppend(h: u32, a: seq<byte>, b: seq<byte>)
    ensures HashFrom(h, a + b) == HashFrom(HashFrom(h, a), b)
  {
    hide Step;
    if b == [] {
      assert a + b == a;
    } else {
      HashFromAppend(h, a, b[..|b| - 1]);
      assert (a + b)[..|a + b| - 1] == a + b[..|b| - 1];
    }
  }

  /** Whatever is hashed on the way, two states stay apart or stay together. */
  lemma {:induction false} HashFromKeepsApart(g: u32, h: u32, data: seq<byte>)
    ensures HashFrom(g, data) == HashFrom(h, data) <==> g == h
  {
    hide Step;
    if data != [] {
      HashFromKeepsApart(g, h, data[..|data| - 1]);
      StepKeepsApart(HashFrom(g, data[..|data| - 1]), HashFrom(h, data[..|data| - 1]), data[|data| - 1]);
    }
  }

  /** A common ending says nothing about the hashes of what comes before it. */
  lemma CommonEnding(a: seq<byte>, b: seq<byte>, ending: seq<byte>)
    ensures Hash(a + ending) == Hash(b + ending) <==> Hash(a) == Hash(b)
  {
    hide HashFrom;
    HashFromAppend(BASIS, a, ending);
    HashFromAppend(BASIS, b, ending);
    HashFromKeepsApart(Hash(a), Hash(b), ending);
  }

  /** Two buffers of equal length that differ in exactly one byte hash differently. */
  lemma OneByteDiffers(a: seq<byte>, b: seq<byte>, k: nat)
    requires |a| == |b| && k < |a| && a[k] != b[k]
    requires forall i :: 0 <= i < |a| && i != k ==> a[i] == b[i]
    ensures Hash(a) != Hash(b)
  {
    var front := a[..k];
    assert front == b[..k];
    var ending := a[k + 1..];
    assert ending == b[k + 1..];
    assert a == (front + [a[k]]) + ending;
    assert b == (front + [b[k]]) + ending;
    CommonEnding(front + [a[k]], front + [b[k]], ending);
    OneMoreByte(front, a[k]);
    OneMoreByte(front, b[k]);
    StepTellsBytes(Hash(front), a[k], b[k]);
  }

  lemma {:induction false} XorZeros(a: nat, k: nat)
    requires a < Pow2(k)
    ensures Xor(a, 0, k) == a
  {
    if k > 0 {
      XorZeros(a / 2, k - 1);
    }
  }

  lemma {:induction false} XorOnes(a: nat, k: nat)
    requires a < Pow2(k)
    ensures Xor(a, Pow2(k) - 1, k) == Pow2(k) - 1 - a
  {
    if k > 0 {
      assert (Pow2(k) - 1) / 2 == Pow2(k - 1) - 1 && (Pow2(k) - 1) % 2 == 1;
      XorOnes(a / 2, k - 1);
    }
  }

  lemma SomePowers()
    ensures Pow2(25) == 0x200_0000 && Pow2(27) == 0x800_0000
  {
    assert Pow2(8) == 256;
    assert Pow2(16) == 256 * Pow2(8);
    assert Pow2(24) == 256 * Pow2(16);
  }

  lemma BasisWithA()
    ensures Xor32(0x811c9dc5, 0x61) == 0x811c9da4
  {
    Pow2Of32();
    SomePowers();
    XorZeros(0x102393b, 25);
    hide Xor, Pow2;
    XorStep(0x2047277, 0x1, 26);
    assert Xor(0x2047277, 0x1, 26) == 0x2047276;
    XorStep(0x408e4ee, 0x3, 27);
    assert Xor(0x408e4ee, 0x3, 27) == 0x408e4ed;
    XorStep(0x811c9dc, 0x6, 28);
    assert Xor(0x811c9dc, 0x6, 28) == 0x811c9da;
    XorStep(0x102393b8, 0xc, 29);
    assert Xor(0x102393b8, 0xc, 29) == 0x102393b4;
    XorStep(0x20472771, 0x18, 30);
    assert Xor(0x20472771, 0x18, 30) == 0x20472769;
    XorStep(0x408e4ee2, 0x30, 31);
    assert Xor(0x408e4ee2, 0x30, 31) == 0x408e4ed2;
    XorStep(0x811c9dc5, 0x61, 32);
    assert Xor(0x811c9dc5, 0x61, 32) == 0x811c9da4;
  }

  lemma BasisWithSigned()
    ensures Xor32(0x811c9dc5, 0xFFFF_FFE1) == 0x7ee36224
  {
    Pow2Of32();
    SomePowers();
    XorOnes(0x408e4ee, 27);
    hide Xor, Pow2;
    assert Xor(0x408e4ee, 0x7ffffff, 27) == 0x3f71b11;
    XorStep(0x811c9dc, 0xffffffe, 28);
    assert Xor(0x811c9dc, 0xffffffe, 28) == 0x7ee3622;
    XorStep(0x102393b8, 0x1ffffffc, 29);
    assert Xor(0x102393b8, 0x1ffffffc, 29) == 0xfdc6c44;
    XorStep(0x20472771, 0x3ffffff8, 30);
    assert Xor(0x20472771, 0x3ffffff8, 30) == 0x1fb8d889;
    XorStep(0x408e4ee2, 0x7ffffff0, 31);
    assert Xor(0x408e4ee2, 0x7ffffff0, 31) == 0x3f71b112;
    XorStep(0x811c9dc5, 0xffffffe1, 32);
    assert Xor(0x811c9dc5, 0xffffffe1, 32) == 0x7ee36224;
  }

  /** The hash of nothing, of an 'a', and of a byte whose sign is extended. */
  lemma KnownHashes()
    ensures Hash([]) == 0x811c9dc5
    ensures Hash([0x61]) == 0xe40c292c
    ensures Hash([0xE1]) == 0xe3f37eac
  {
    hide Xor32;
    BasisWithA();
    BasisWithSigned();
    OneMoreByte([], 0x61);
    OneMoreByte([], 0xE1);
    assert [] + [0x61] == [0x61] && [] + [0xE1] == [0xE1];
  }

  lemma OneMoreByte(data: seq<byte>, b: byte)
    ensures Hash(data + [b]) == Step(Hash(data), b)
  {
    hide Step;
    assert (data + [b])[..|data|] == data;
  }

  /** `analyze_liniar`: 1 exactly for a buffer with the flagged hash. */
  method AnalyzeLinear(data: array<byte>) returns (ret: int)
    ensures ret == if Hash(data[..]) == 0xdeadbeef then 1 else 0
  {
    hide Step;
    var hash := BASIS;
    assert data[..0] == [];
    for i := 0 to data.Length
      invariant hash == Hash(data[..i])
    {
      assert data[..i + 1] == data[..i] + [data[i]];
      OneMoreByte(data[..i], data[i]);
      hash := Step(hash, data[i]);
    }
    assert data[..data.Length] == data[..];
    ret := if hash == FLAGGED then 1 else 0;
  }
}
