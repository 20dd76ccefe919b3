/** Bitmaps as sequences of bits: find_next_bit, bitmap_weight and bitmap_clear by their specification. */
module Bitmap {
  import opened Bytes

  /** find_next_bit: the least set position at or after `from`, or |bits|. */
  function NextBit(bits: seq<bool>, from: nat): (i: nat)
    ensures from <= |bits| ==> from <= i <= |bits|
    ensures i < |bits| ==> bits[i] && from <= i
    ensures i >= |bits| ==> forall j :: from <= j < |bits| ==> !bits[j]
    ensures forall j :: from <= j < i && j < |bits| ==> !bits[j]
    decreases |bits| - from
  {
    if from >= |bits| then |bits| else if bits[from] then from else NextBit(bits, from + 1)
  }

  predicate Empty(bits: seq<bool>) {
    forall i :: 0 <= i < |bits| ==> !bits[i]
  }

  /** A cleared bitmap. */
  function NoBits(n: nat): (r: seq<bool>)
    ensures |r| == n && Empty(r)
  {
    seq(n, _ => false)
  }

  /** bitmap_weight */
  function Count(bits: seq<bool>): (n: nat)
    ensures n <= |bits|
  {
    if bits == [] then 0 else Count(bits[..|bits| - 1]) + (if bits[|bits| - 1] then 1 else 0)
  }

  lemma {:induction false} CountEmpty(bits: seq<bool>)
    ensures Count(bits) == 0 <==> Empty(bits)
  {
    if bits != [] {
      CountEmpty(bits[..|bits| - 1]);
      if Empty(bits[..|bits| - 1]) && !bits[|bits| - 1] {
        assert forall i :: 0 <= i < |bits| - 1 ==> bits[i] == bits[..|bits| - 1][i];
      }
    }
  }

  lemma {:induction false} CountClear(bits: seq<bool>, p: nat)
    requires p < |bits| && bits[p]
    ensures Count(bits[p := false]) == Count(bits) - 1
  {
    var n := |bits| - 1;
    if p < n {
      CountClear(bits[..n], p);
      assert bits[p := false][..n] == bits[..n][p := false];
    } else {
      assert bits[p := false][..n] == bits[..n];
    }
  }

  function ClearRange(bits: seq<bool>, start: nat, cnt: nat): (r: seq<bool>)
    ensures |r| == |bits|
  {
    seq(|bits|, i requires 0 <= i < |bits| => bits[i] && !(start <= i < start + cnt))
  }

  // ---- a bitmap in memory, eight bits to a byte ----

  function BitsOf(msg: seq<byte>, off: nat, n: nat): (r: seq<bool>)
    requires off + (n + 7) / 8 <= |msg|
    ensures |r| == n
  {
    seq(n, i requires 0 <= i < n => Bit(msg[off + i / 8], i % 8))
  }

  predicate BitAt(bits: seq<bool>, i: nat) {
    i < |bits| && bits[i]
  }

  function Eight(bits: seq<bool>, j: nat): (r: seq<bool>)
    ensures |r| == 8 && forall k :: 0 <= k < 8 ==> r[k] == BitAt(bits, 8 * j + k)
  {
    seq(8, k requires 0 <= k < 8 => BitAt(bits, 8 * j + k))
  }

  function BitmapBytes(bits: seq<bool>, size: nat): (r: seq<byte>)
    ensures |r| == size
  {
    seq(size, j requires 0 <= j < size => PackByte(Eight(bits, j)))
  }

  lemma BitmapRoundTrip(bits: seq<bool>, size: nat, msg: seq<byte>, off: nat)
    requires |bits| <= 8 * size && off + size <= |msg| && msg[off..off + size] == BitmapBytes(bits, size)
    ensures BitsOf(msg, off, |bits|) == bits
  {
    forall i | 0 <= i < |bits|
      ensures BitsOf(msg, off, |bits|)[i] == bits[i]
    {
      var j, k := i / 8, i % 8;
      assert msg[off + j] == msg[off..off + size][j] == BitmapBytes(bits, size)[j];
      PackBits(Eight(bits, j), k);
    }
  }
}
