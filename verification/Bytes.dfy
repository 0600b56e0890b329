/** Bytes, fixed-width unsigned numbers and their little-endian form. */
module Bytes {

  type byte = x: int | 0 <= x < 256

  const U64_LIMIT: nat := 0x1_0000_0000_0000_0000
  const U32_LIMIT: nat := 0x1_0000_0000

  /** `unsigned long` on the 64-bit targets the patches build for. */
  type u64 = x: int | 0 <= x < 0x1_0000_0000_0000_0000

  /** `unsigned int`. */
  type u32 = x: int | 0 <= x < 0x1_0000_0000

  /** 64-bit addition, with wrap-around. */
  function Add64(a: u64, b: u64): u64 { (a + b) % U64_LIMIT }

  /** The `int` that `return -v;` yields for an `unsigned int` v: the negation modulo 2^32, read as signed. */
  function NegatedInt(v: u32): (r: int)
    ensures (r + v) % U32_LIMIT == 0
    ensures -0x8000_0000 <= r < 0x8000_0000
    ensures r == 0 <==> v == 0
  {
    var n: int := v;
    if n <= 0x8000_0000 then -n else U32_LIMIT - n
  }

  /** The bytes of zero-filled memory. */
  function Zeros(n: nat): (z: seq<byte>)
    ensures |z| == n
    ensures forall i :: 0 <= i < n ==> z[i] == 0
  {
    seq(n, _ => 0)
  }

  lemma ZerosAppend(a: nat, b: nat)
    ensures Zeros(a) + Zeros(b) == Zeros(a + b)
  {
  }

  function Pow256(k: nat): (p: nat)
    ensures p > 0
  {
    if k == 0 then 1 else 256 * Pow256(k - 1)
  }

  /** The k low bytes of n, least significant first. */
  function LittleEndian(n: nat, k: nat): (s: seq<byte>)
    ensures |s| == k
  {
    if k == 0 then [] else [n % 256] + LittleEndian(n / 256, k - 1)
  }

  function FromLittleEndian(s: seq<byte>): nat
  {
    if s == [] then 0 else s[0] + 256 * FromLittleEndian(s[1..])
  }

  lemma {:induction false} DecodeEncodeLE(n: nat, k: nat)
    requires n < Pow256(k)
    ensures FromLittleEndian(LittleEndian(n, k)) == n
  {
    if k > 0 {
      DecodeEncodeLE(n / 256, k - 1);
      assert LittleEndian(n, k)[1..] == LittleEndian(n / 256, k - 1);
    }
  }

  /** n without its j low bytes: n >> 8 * j. */
  function Shifted(n: nat, j: nat): nat { if j == 0 then n else Shifted(n / 256, j - 1) }

  /** Byte j is the lowest one after a shift by j bytes. */
  lemma {:induction false} LittleEndianAt(n: nat, k: nat, j: nat)
    requires j < k
    ensures LittleEndian(n, k)[j] == Shifted(n, j) % 256
  {
    if j > 0 {
      LittleEndianAt(n / 256, k - 1, j - 1);
    }
  }

  lemma LowByteFirst(s: seq<byte>, rest: nat)
    requires s != []
    requires LittleEndian(rest, |s| - 1) == s[1..]
    ensures LittleEndian(s[0] + 256 * rest, |s|) == s
  {
    var n := s[0] + 256 * rest;
    assert n % 256 == s[0] && n / 256 == rest;
    assert LittleEndian(n, |s|) == [s[0]] + s[1..];
  }

  lemma {:induction false} EncodeDecodeLE(s: seq<byte>)
    ensures FromLittleEndian(s) < Pow256(|s|)
    ensures LittleEndian(FromLittleEndian(s), |s|) == s
  {
    if s != [] {
      var rest := FromLittleEndian(s[1..]);
      EncodeDecodeLE(s[1..]);
      assert (s[0] + 256 * rest) % 256 == s[0] && (s[0] + 256 * rest) / 256 == rest;
      LowByteFirst(s, rest);
    }
  }

  lemma Widths()
    ensures Pow256(4) == U32_LIMIT
    ensures Pow256(8) == U64_LIMIT
  {
    assert Pow256(2) == 65536;
    assert Pow256(4) == 65536 * 65536;
    assert Pow256(6) == 65536 * Pow256(4);
    assert Pow256(8) == 65536 * Pow256(6);
  }

  function Encode64(n: u64): (s: seq<byte>)
    ensures |s| == 8
  {
    LittleEndian(n, 8)
  }

  function Decode64(s: seq<byte>): u64
    requires |s| == 8
  {
    Widths();
    EncodeDecodeLE(s);
    FromLittleEndian(s)
  }

  function Encode32(n: u32): (s: seq<byte>)
    ensures |s| == 4
  {
    LittleEndian(n, 4)
  }

  function Decode32(s: seq<byte>): u32
    requires |s| == 4
  {
    Widths();
    EncodeDecodeLE(s);
    FromLittleEndian(s)
  }

  lemma RoundTrip64(n: u64)
    ensures Decode64(Encode64(n)) == n
  {
    Widths();
    DecodeEncodeLE(n, 8);
  }

  lemma RoundTripBytes64(s: seq<byte>)
    requires |s| == 8
    ensures Encode64(Decode64(s)) == s
  {
    EncodeDecodeLE(s);
  }

  lemma RoundTrip32(n: u32)
    ensures Decode32(Encode32(n)) == n
  {
    Widths();
    DecodeEncodeLE(n, 4);
  }
}
