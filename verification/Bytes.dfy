/** Bytes, little-endian words and single bits, shared by the models that lay records out in memory. */
module Bytes {
  type byte = x: int | 0 <= x < 256

  const TWO32: int := 0x1_0000_0000
  const TWO64: int := 0x1_0000_0000_0000_0000

  type u32 = x: int | 0 <= x < TWO32

  /** n zero bytes, the result of memset(p, 0, n). */
  function Zeros(n: nat): (s: seq<byte>)
    ensures |s| == n
    ensures forall i :: 0 <= i < n ==> s[i] == 0
  {
    seq(n, _ => 0)
  }

  /** `data` written into `s` at `at`: memcpy(s + at, data, |data|). */
  function Patch(s: seq<byte>, at: nat, data: seq<byte>): (r: seq<byte>)
    requires at + |data| <= |s|
    ensures |r| == |s|
  {
    s[..at] + data + s[at + |data|..]
  }

  lemma PatchTwice(msg: seq<byte>, at: nat, a: seq<byte>, b: seq<byte>)
    requires at + |a| + |b| <= |msg|
    ensures Patch(Patch(msg, at, a), at + |a|, b) == Patch(msg, at, a + b)
  {
  }

  lemma PatchIndex(s: seq<byte>, at: nat, data: seq<byte>, o: nat)
    requires at + |data| <= |s| && o < |s|
    ensures Patch(s, at, data)[o] == if at <= o < at + |data| then data[o - at] else s[o]
  {
  }

  lemma PatchKeepsPrefix(s: seq<byte>, at: nat, data: seq<byte>)
    requires at + |data| <= |s|
    ensures Patch(s, at, data)[..at] == s[..at]
  {
  }

  lemma PatchEmpty(s: seq<byte>, at: nat)
    requires at <= |s|
    ensures Patch(s, at, []) == s
  {
  }

  lemma SubSlice(s: seq<byte>, a: nat, b: nat, c: nat, d: nat)
    requires a <= b <= |s| && c <= d <= b - a
    ensures s[a..b][c..d] == s[a + c..a + d]
  {
    forall i | 0 <= i < d - c
      ensures s[a..b][c..d][i] == s[a + c..a + d][i]
    {
      assert s[a..b][c..d][i] == s[a..b][c + i];
    }
  }

  lemma PrefixSlice(x: seq<byte>, y: seq<byte>, a: nat, b: nat)
    requires a <= b <= |x|
    ensures (x + y)[a..b] == x[a..b]
  {
  }

  lemma TailSlice(x: seq<byte>, y: seq<byte>)
    ensures (x + y)[|x|..|x| + |y|] == y
  {
  }

  /** What follows `at` in s is x and then y. */
  lemma SuffixParts(s: seq<byte>, at: nat, x: seq<byte>, y: seq<byte>)
    requires at <= |s| && s[at..] == x + y
    ensures at + |x| <= |s| && s[at..at + |x|] == x && s[at + |x|..] == y
  {
    assert s[at..][..|x|] == x && s[at..][|x|..] == y;
  }

  /** memcpy between two arrays. */
  method CopyBytes(dst: array<byte>, at: nat, src: array<byte>, from: nat, n: nat)
    requires dst != src && at + n <= dst.Length && from + n <= src.Length
    modifies dst
    ensures dst[..] == Patch(old(dst[..]), at, src[from..from + n])
  {
    forall i | 0 <= i < n {
      dst[at + i] := src[from + i];
    }
  }

  // ---- 32-bit words ----

  function U32Bytes(v: u32): (s: seq<byte>)
    ensures |s| == 4
  {
    [v % 256, v / 256 % 256, v / 65536 % 256, v / 16777216]
  }

  function U32At(s: seq<byte>, o: nat): (v: u32)
    requires o + 4 <= |s|
  {
    var b0: int, b1: int, b2: int, b3: int := s[o], s[o + 1], s[o + 2], s[o + 3];
    b0 + 256 * b1 + 65536 * b2 + 16777216 * b3
  }

  lemma U32RoundTrip(s: seq<byte>, o: nat, v: u32)
    requires o + 4 <= |s|
    ensures s[o..o + 4] == U32Bytes(v) <==> U32At(s, o) == v
  {
    var t := s[o..o + 4];
    assert t[0] == s[o] && t[1] == s[o + 1] && t[2] == s[o + 2] && t[3] == s[o + 3];
    FourDigits(s[o], s[o + 1], s[o + 2], s[o + 3], v);
    var w := U32Bytes(v);
    if t == w {
      assert t[0] == w[0] && t[1] == w[1] && t[2] == w[2] && t[3] == w[3];
    }
  }

  /** The low byte comes first. */
  lemma LittleEndian()
    ensures U32Bytes(0x0403_0201) == [1, 2, 3, 4] && U32At([1, 2, 3, 4], 0) == 0x0403_0201
  {
  }

  /** The digits of a number in base 256. */
  lemma FourDigits(b0: byte, b1: byte, b2: byte, b3: byte, v: u32)
    ensures b0 + 256 * b1 + 65536 * b2 + 16777216 * b3 == v
            <==> b0 == v % 256 && b1 == v / 256 % 256 && b2 == v / 65536 % 256 && b3 == v / 16777216
  {
    var h, m := v / 256, v / 65536;
    assert v == 256 * h + v % 256 && h == 256 * m + h % 256 && m == 256 * (v / 16777216) + m % 256;
    if b0 + 256 * b1 + 65536 * b2 + 16777216 * b3 == v {
      assert v / 16777216 == b3 && v / 65536 == b2 + 256 * b3 && v / 256 == b1 + 256 * (b2 + 256 * b3);
    }
  }

  /** A record of 32-bit words as it lies in memory. */
  function WordBytes(w: seq<u32>): (r: seq<byte>)
    ensures |r| == 4 * |w|
  {
    if w == [] then [] else WordBytes(w[..|w| - 1]) + U32Bytes(w[|w| - 1])
  }

  lemma {:induction false} WordBytesAt(w: seq<u32>, i: nat)
    requires i < |w|
    ensures WordBytes(w)[4 * i..4 * i + 4] == U32Bytes(w[i])
  {
    var n := |w| - 1;
    if i < n {
      WordBytesAt(w[..n], i);
      assert WordBytes(w)[4 * i..4 * i + 4] == WordBytes(w[..n])[4 * i..4 * i + 4];
    }
  }

  /** The sum of the bytes, the device's checksum with key 0, in a 32-bit accumulator. */
  function ByteSum(s: seq<byte>): nat {
    if s == [] then 0 else ByteSum(s[..|s| - 1]) + s[|s| - 1]
  }

  lemma {:induction false} ByteSumAppend(a: seq<byte>, b: seq<byte>)
    ensures ByteSum(a + b) == ByteSum(a) + ByteSum(b)
    decreases |b|
  {
    if b == [] {
      assert a + b == a;
    } else {
      var n := |b| - 1;
      assert (a + b)[..|a| + n] == a + b[..n];
      ByteSumAppend(a, b[..n]);
    }
  }

  lemma ByteSumOne(b: byte)
    ensures ByteSum([]) == 0 && ByteSum([b]) == b as int
  {
    assert [b][..0] == [];
  }

  /** A word just written is read back. */
  lemma PatchU32(s: seq<byte>, at: nat, v: u32)
    requires at + 4 <= |s|
    ensures U32At(Patch(s, at, U32Bytes(v)), at) == v
  {
    hide U32At, U32Bytes;
    assert Patch(s, at, U32Bytes(v))[at..at + 4] == U32Bytes(v);
    U32RoundTrip(Patch(s, at, U32Bytes(v)), at, v);
  }

  /** A word elsewhere keeps its value. */
  lemma PatchElsewhere(s: seq<byte>, at: nat, data: seq<byte>, o: nat)
    requires at + |data| <= |s| && o + 4 <= |s| && (at + |data| <= o || o + 4 <= at)
    ensures U32At(Patch(s, at, data), o) == U32At(s, o)
  {
  }

  // ---- single bits of a word, bit 0 the least significant ----

  predicate Bit(w: nat, k: nat) {
    if k == 0 then w % 2 == 1 else Bit(w / 2, k - 1)
  }

  /** w & ~(1 << k) */
  function ClearBit(w: nat, k: nat): (r: nat)
    ensures r <= w
  {
    if k == 0 then w - w % 2 else w % 2 + 2 * ClearBit(w / 2, k - 1)
  }

  lemma {:induction false} ClearBitBits(w: nat, k: nat, j: nat)
    ensures Bit(ClearBit(w, k), j) == (j != k && Bit(w, j))
  {
    if j > 0 && k > 0 {
      ClearBitBits(w / 2, k - 1, j - 1);
      assert ClearBit(w, k) / 2 == ClearBit(w / 2, k - 1);
    } else if j > 0 {
      assert ClearBit(w, k) / 2 == w / 2;
    }
  }

  function Pow2(n: nat): (p: nat)
    ensures p > 0
  {
    if n == 0 then 1 else 2 * Pow2(n - 1)
  }

  lemma Pow2Word()
    ensures Pow2(32) == TWO32
  {
    assert Pow2(8) == 256;
    assert Pow2(12) == 16 * Pow2(8);
    assert Pow2(16) == 16 * Pow2(12);
    assert Pow2(20) == 16 * Pow2(16);
    assert Pow2(24) == 16 * Pow2(20);
    assert Pow2(28) == 16 * Pow2(24);
    assert Pow2(32) == 16 * Pow2(28);
  }

  /** The word whose bit k is bs[k]. */
  function Pack(bs: seq<bool>): (w: nat)
    ensures w < Pow2(|bs|)
  {
    if bs == [] then 0 else (if bs[0] then 1 else 0) + 2 * Pack(bs[1..])
  }

  lemma {:induction false} PackBits(bs: seq<bool>, k: nat)
    ensures Bit(Pack(bs), k) == (k < |bs| && bs[k])
    decreases |bs|, k
  {
    if bs == [] {
      ZeroBits(k);
    } else if k > 0 {
      PackBits(bs[1..], k - 1);
      assert Pack(bs) / 2 == Pack(bs[1..]);
    }
  }

  lemma ZeroBits(k: nat)
    ensures !Bit(0, k)
  {
  }

  function PackByte(bs: seq<bool>): byte
    requires |bs| == 8
  {
    assert Pow2(8) == 256;
    Pack(bs)
  }

  // ---- bitwise and, or ----

  function And(a: nat, b: nat): (r: nat)
    ensures r <= a && r <= b
  {
    if a == 0 || b == 0 then 0 else (if a % 2 == 1 && b % 2 == 1 then 1 else 0) + 2 * And(a / 2, b / 2)
  }

  function Or(a: nat, b: nat): nat {
    if a == 0 then b else if b == 0 then a else (if a % 2 == 1 || b % 2 == 1 then 1 else 0) + 2 * Or(a / 2, b / 2)
  }

  lemma OrStep(a: nat, b: nat)
    ensures Or(a, b) % 2 == 1 <==> a % 2 == 1 || b % 2 == 1
    ensures Or(a, b) / 2 == Or(a / 2, b / 2)
  {
  }

  lemma {:induction false} OrBits(a: nat, b: nat, k: nat)
    ensures Bit(Or(a, b), k) == (Bit(a, k) || Bit(b, k))
    decreases k
  {
    hide Or;
    OrStep(a, b);
    if k > 0 {
      OrBits(a / 2, b / 2, k - 1);
    }
  }

  lemma {:induction false} OrBound(a: nat, b: nat, n: nat)
    requires a < Pow2(n) && b < Pow2(n)
    ensures a <= Or(a, b) < Pow2(n)
    decreases n
  {
    if a != 0 && b != 0 {
      OrBound(a / 2, b / 2, n - 1);
    }
  }
}
