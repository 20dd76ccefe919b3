/** Accumulated dirty bits per virtual function (amdgv_dirtybit.c): merging, carving, forced fill, and what is never lost. */
module Dirtybit {
  import opened Arith
  import opened Bytes
  import opened Bitmap

  // ---- a bitwise or of bytes, done a word at a time ----

  function OrByte(a: byte, b: byte): byte {
    assert Pow2(8) == 256;
    OrBound(a, b, 8);
    Or(a, b)
  }

  /** `src` or-ed into `dst` at `at`, byte by byte. */
  function OrAt(dst: seq<byte>, at: nat, src: seq<byte>): (r: seq<byte>)
    requires at + |src| <= |dst|
    ensures |r| == |dst|
  {
    seq(|dst|, i requires 0 <= i < |dst| => if at <= i < at + |src| then OrByte(dst[i], src[i - at]) else dst[i])
  }

  /** The same with one more low bit on each side. */
  lemma OrDouble(u: nat, v: nat, i: nat, j: nat)
    requires i < 2 && j < 2
    ensures Or(2 * u + i, 2 * v + j) == (if i == 1 || j == 1 then 1 else 0) + 2 * Or(u, v)
  {
    hide Or;
    var p, q := 2 * u + i, 2 * v + j;
    OrStep(p, q);
    assert p / 2 == u && q / 2 == v && p % 2 == i && q % 2 == j;
    assert Or(p, q) == Or(p, q) % 2 + 2 * (Or(p, q) / 2);
  }

  lemma Twice(m: nat, x: nat)
    ensures (2 * m) * x == 2 * (m * x)
  {
  }

  lemma {:induction false} OrSplit(a: nat, b: nat, x: nat, y: nat, n: nat)
    requires a < Pow2(n) && b < Pow2(n)
    ensures Or(a + Pow2(n) * x, b + Pow2(n) * y) == Or(a, b) + Pow2(n) * Or(x, y)
    decreases n
  {
    if n > 0 {
      var m, u, v := Pow2(n - 1), a / 2, b / 2;
      OrSplit(u, v, x, y, n - 1);
      OrSplitStep(m, u, v, a % 2, b % 2, x, y);
      assert a == 2 * u + a % 2 && b == 2 * v + b % 2;
    }
  }

  lemma OrSplitStep(m: nat, u: nat, v: nat, i: nat, j: nat, x: nat, y: nat)
    requires i < 2 && j < 2 && Or(u + m * x, v + m * y) == Or(u, v) + m * Or(x, y)
    ensures Or(2 * u + i + (2 * m) * x, 2 * v + j + (2 * m) * y) == Or(2 * u + i, 2 * v + j) + (2 * m) * Or(x, y)
  {
    hide Or;
    Twice(m, x);
    Twice(m, y);
    Twice(m, Or(x, y));
    OrDouble(u + m * x, v + m * y, i, j);
    OrDouble(u, v, i, j);
  }

  lemma OrLowByte(a: nat, b: nat, x: nat, y: nat)
    requires a < 256 && b < 256
    ensures Or(a + 256 * x, b + 256 * y) == Or(a, b) + 256 * Or(x, y)
  {
    assert Pow2(8) == 256;
    OrSplit(a, b, x, y, 8);
  }

  lemma OrFour(a0: nat, a1: nat, a2: nat, a3: nat, b0: nat, b1: nat, b2: nat, b3: nat)
    requires a0 < 256 && a1 < 256 && a2 < 256 && b0 < 256 && b1 < 256 && b2 < 256
    ensures Or(a0 + 256 * a1 + 65536 * a2 + 16777216 * a3, b0 + 256 * b1 + 65536 * b2 + 16777216 * b3)
            == Or(a0, b0) + 256 * Or(a1, b1) + 65536 * Or(a2, b2) + 16777216 * Or(a3, b3)
  {
    hide Or;
    OrLowByte(a0, b0, a1 + 256 * (a2 + 256 * a3), b1 + 256 * (b2 + 256 * b3));
    OrLowByte(a1, b1, a2 + 256 * a3, b2 + 256 * b3);
    OrLowByte(a2, b2, a3, b3);
  }

  /** One machine word or-ed into another is four bytes or-ed. */
  lemma OrWord(a: seq<byte>, i: nat, b: seq<byte>, j: nat)
    requires i + 4 <= |a| && j + 4 <= |b|
    ensures Or(U32At(a, i), U32At(b, j)) < TWO32
    ensures U32Bytes(Or(U32At(a, i), U32At(b, j)))
            == [OrByte(a[i], b[j]), OrByte(a[i + 1], b[j + 1]), OrByte(a[i + 2], b[j + 2]), OrByte(a[i + 3], b[j + 3])]
  {
    hide Or, U32Bytes;
    OrFour(a[i], a[i + 1], a[i + 2], a[i + 3], b[j], b[j + 1], b[j + 2], b[j + 3]);
    var r := [OrByte(a[i], b[j]), OrByte(a[i + 1], b[j + 1]), OrByte(a[i + 2], b[j + 2]), OrByte(a[i + 3], b[j + 3])];
    assert U32At(r, 0) == Or(U32At(a, i), U32At(b, j));
    U32RoundTrip(r, 0, U32At(r, 0));
    assert r[0..4] == r;
  }

  // ---- merge ----

  /** amdgv_fb_size_to_byte_size */
  function ByteSize(fb: nat, page: nat): nat
    requires page > 0
  {
    fb / page / 8
  }

  /** Eight pages a byte: the bits of a size are its pages in whole groups of eight. */
  lemma ByteSizeBits(fb: nat, page: nat)
    requires page > 0
    ensures 8 * ByteSize(fb, page) == fb / page - fb / page % 8
  {
  }

  /** `now` is `was` with `count` bits of `src`, from bit `from` on, or-ed in from bit `to` on. */
  ghost predicate BitsMerged(now: seq<byte>, was: seq<byte>, to: nat, src: seq<byte>, from: nat, count: nat) {
    && |now| == |was| && from + count <= 8 * |src|
    && forall p: nat :: p < 8 * |now| ==> BitMerged(now, was, to, src, from, count, p)
  }

  ghost predicate BitMerged(now: seq<byte>, was: seq<byte>, to: nat, src: seq<byte>, from: nat, count: nat, p: nat)
    requires p < 8 * |now| && |now| == |was| && from + count <= 8 * |src|
  {
    BitIn(now, p) == (BitIn(was, p) || (to <= p < to + count && BitIn(src, from + (p - to))))
  }

  /** Or-ing bytes is or-ing bits. */
  lemma OrAtBits(dst: seq<byte>, at: nat, src: seq<byte>, from: nat, n: nat)
    requires at + n <= |dst| && from + n <= |src|
    ensures BitsMerged(OrAt(dst, at, src[from..from + n]), dst, 8 * at, src, 8 * from, 8 * n)
  {
    hide Or, Bit;
    var now := OrAt(dst, at, src[from..from + n]);
    forall p: nat | p < 8 * |now|
      ensures BitMerged(now, dst, 8 * at, src, 8 * from, 8 * n, p)
    {
      if at <= p / 8 < at + n {
        OrBits(dst[p / 8], src[from + (p / 8 - at)], p % 8);
        assert (8 * from + (p - 8 * at)) / 8 == from + (p / 8 - at) && (8 * from + (p - 8 * at)) % 8 == p % 8;
      }
    }
  }

  /** After `done` bytes of the merge. */
  ghost predicate Merging(dst0: seq<byte>, at: nat, src: seq<byte>, from: nat, done: nat, dst: seq<byte>) {
    && at + done <= |dst0| && from + done <= |src| && dst == OrAt(dst0, at, src[from..from + done])
  }

  lemma MergeFirst(dst: seq<byte>, at: nat, src: seq<byte>, from: nat)
    requires at <= |dst| && from <= |src|
    ensures Merging(dst, at, src, from, 0, dst)
  {
    assert OrAt(dst, at, src[from..from + 0]) == dst;
  }

  lemma MergeWord(dst0: seq<byte>, at: nat, src: seq<byte>, from: nat, done: nat, dst: seq<byte>, dst1: seq<byte>)
    requires Merging(dst0, at, src, from, done, dst) && at + done + 4 <= |dst0| && from + done + 4 <= |src|
    requires Or(U32At(dst, at + done), U32At(src, from + done)) < TWO32
    requires dst1 == Patch(dst, at + done, U32Bytes(Or(U32At(dst, at + done), U32At(src, from + done))))
    ensures Merging(dst0, at, src, from, done + 4, dst1)
  {
    hide U32At, U32Bytes, OrByte;
    OrWord(dst, at + done, src, from + done);
    var more := src[from..from + (done + 4)];
    forall i | 0 <= i < |dst0|
      ensures dst1[i] == OrAt(dst0, at, more)[i]
    {
      if at + done <= i < at + done + 4 {
        assert dst[i] == dst0[i];
      }
    }
  }

  lemma MergeByte(dst0: seq<byte>, at: nat, src: seq<byte>, from: nat, done: nat, dst: seq<byte>)
    requires Merging(dst0, at, src, from, done, dst) && at + done < |dst0| && from + done < |src|
    ensures Merging(dst0, at, src, from, done + 1, dst[at + done := OrByte(dst[at + done], src[from + done])])
  {
    hide OrByte;
    var more := src[from..from + (done + 1)];
    var dst1 := dst[at + done := OrByte(dst[at + done], src[from + done])];
    assert dst1 == OrAt(dst0, at, more);
  }

  lemma OrZero(a: nat)
    ensures Or(a, 0) == a
  {
  }

  /** The word loop and the byte tail: bytewise or, and nothing outside the window changes. */
  method OrInto(dst: array<byte>, at: nat, src: array<byte>, from: nat, n: nat)
    requires dst != src && at + n <= dst.Length && from + n <= src.Length
    modifies dst
    ensures dst[..] == OrAt(old(dst[..]), at, src[from..from + n])
  {
    hide Merging, Or, U32At, U32Bytes;
    ghost var dst0, s := dst[..], src[..];
    MergeFirst(dst0, at, s, from);
    var i := 0;
    while i < n / 4
      invariant i <= n / 4 && src[..] == s
      invariant Merging(dst0, at, s, from, 4 * i, dst[..])
    {
      WordTurn(dst, at, src, from, i, dst0, s);
      i := i + 1;
    }
    var base, j := 4 * i, 0;
    while j < n % 4
      invariant j <= n % 4 && src[..] == s
      invariant Merging(dst0, at, s, from, base + j, dst[..])
    {
      ghost var d := dst[..];
      MergeByte(dst0, at, s, from, base + j, d);
      OrZero(dst[at + base + j]);
      if src[from + base + j] != 0 {
        dst[at + base + j] := OrByte(dst[at + base + j], src[from + base + j]);
      }
      assert dst[..] == d[at + base + j := OrByte(d[at + base + j], s[from + base + j])];
      j := j + 1;
    }
    Merged(dst0, at, s, from, n, dst[..]);
    assert s[from..from + n] == src[from..from + n];
  }

  lemma Merged(dst0: seq<byte>, at: nat, src: seq<byte>, from: nat, n: nat, dst: seq<byte>)
    requires Merging(dst0, at, src, from, n, dst)
    ensures at + n <= |dst0| && from + n <= |src| && dst == OrAt(dst0, at, src[from..from + n])
  {
  }

  method WordTurn(dst: array<byte>, at: nat, src: array<byte>, from: nat, i: nat, ghost dst0: seq<byte>, ghost s: seq<byte>)
    requires dst != src && at + 4 * i + 4 <= dst.Length && from + 4 * i + 4 <= src.Length && src[..] == s && |dst0| == dst.Length
    requires Merging(dst0, at, s, from, 4 * i, dst[..])
    modifies dst
    ensures Merging(dst0, at, s, from, 4 * i + 4, dst[..])
  {
    hide Merging, Or, U32At, U32Bytes, Patch;
    var d, v := U32At(dst[..], at + 4 * i), U32At(src[..], from + 4 * i);
    OrWord(dst[..], at + 4 * i, s, from + 4 * i);
    ghost var m := dst[..];
    OrZero(d);
    if v != 0 {
      WriteWord(dst, at + 4 * i, Or(d, v));
    } else {
      PatchSame(dst[..], at + 4 * i);
    }
    MergeWord(dst0, at, s, from, 4 * i, m, dst[..]);
  }

  method WriteWord(dst: array<byte>, at: nat, v: u32)
    requires at + 4 <= dst.Length
    modifies dst
    ensures dst[..] == Patch(old(dst[..]), at, U32Bytes(v))
  {
    var b := U32Bytes(v);
    forall i | 0 <= i < 4 {
      dst[at + i] := b[i];
    }
  }

  lemma PatchSame(s: seq<byte>, at: nat)
    requires at + 4 <= |s|
    ensures Patch(s, at, U32Bytes(U32At(s, at))) == s
  {
    hide U32At, U32Bytes;
    U32RoundTrip(s, at, U32At(s, at));
    assert s == s[..at] + s[at..at + 4] + s[at + 4..];
  }

  // ---- per-VF regions of the accumulated bits ----

  lemma FloorSum(a: nat, b: nat, m: nat)
    requires m > 0
    ensures a / m + b / m <= (a + b) / m
  {
    var x, y := a / m, b / m;
    assert a == x * m + a % m && b == y * m + b % m;
    Distribute(x, y, m);
    if a % m + b % m < m {
      DivIs(a + b, m, x + y);
    } else {
      DivIs(a + b, m, x + y + 1);
    }
  }

  lemma Distribute(x: nat, y: nat, m: nat)
    ensures (x + y) * m == x * m + y * m && (x + y + 1) * m == x * m + y * m + m
  {
  }

  lemma FloorMono(a: nat, b: nat, m: nat)
    requires m > 0 && a <= b
    ensures a / m <= b / m
  {
    FloorSum(a, b - a, m);
  }

  /** Framebuffer ranges that do not overlap get regions that do not overlap, truncation included. */
  lemma CarvedApart(off1: nat, size1: nat, off2: nat, page: nat)
    requires page > 0 && off1 + size1 <= off2
    ensures ByteSize(off1, page) + ByteSize(size1, page) <= ByteSize(off2, page)
  {
    FloorSum(off1, size1, page);
    FloorSum(off1 / page, size1 / page, 8);
    FloorMono(off1 + size1, off2, page);
    FloorMono((off1 + size1) / page, off2 / page, 8);
    FloorMono(off1 / page + size1 / page, (off1 + size1) / page, 8);
  }

  /** A query inside a VF's framebuffer stays inside its region. */
  lemma WindowInside(off: nat, size: nat, fb: nat, page: nat)
    requires page > 0 && off + size <= fb
    ensures ByteSize(off, page) + ByteSize(size, page) <= ByteSize(fb, page)
  {
    CarvedApart(off, size, fb, page);
  }

  class AccBits {
    const whole: array<byte>
    const page: nat
    var ptr: seq<nat>
    var size: seq<nat>

    ghost predicate Valid()
      reads this
    {
      && |ptr| == |size|
      && (forall i :: 0 <= i < |ptr| ==> ptr[i] + size[i] <= whole.Length)
      && (forall i, j :: 0 <= i < |ptr| && 0 <= j < |ptr| && i != j ==>
            ptr[i] + size[i] <= ptr[j] || ptr[j] + size[j] <= ptr[i])
    }

    ghost function Region(i: nat): seq<byte>
      requires i < |ptr| && i < |size| && ptr[i] + size[i] <= whole.Length
      reads this, whole
    {
      whole[ptr[i]..ptr[i] + size[i]]
    }

    constructor (whole: array<byte>, page: nat)
      ensures Valid() && this.whole == whole && this.page == page && ptr == [] && size == []
    {
      this.whole, this.page, ptr, size := whole, page, [], [];
    }

    /** amdgv_dirtybit_assgin_acc_bits_to_vf: one region per VF, in step with the framebuffer layout. */
    method AssignAccBitsToVf(fbOffset: seq<nat>, fbSize: seq<nat>) returns (ok: bool)
      requires |fbOffset| == |fbSize|
      requires forall i, j :: 0 <= i < |fbOffset| && 0 <= j < |fbOffset| && i != j ==>
                 fbOffset[i] + fbSize[i] <= fbOffset[j] || fbOffset[j] + fbSize[j] <= fbOffset[i]
      requires forall i :: 0 <= i < |fbOffset| && page > 0 ==> ByteSize(fbOffset[i], page) + ByteSize(fbSize[i], page) <= whole.Length
      modifies this
      ensures ok == (page > 0)
      ensures ok ==> Valid() && |ptr| == |fbOffset|
      ensures ok ==> forall i :: 0 <= i < |ptr| ==> ptr[i] == ByteSize(fbOffset[i], page) && size[i] == ByteSize(fbSize[i], page)
      ensures ok ==> forall i :: 0 <= i < |ptr| ==>
                8 * ptr[i] <= fbOffset[i] / page < 8 * ptr[i] + 8 && 8 * size[i] <= fbSize[i] / page < 8 * size[i] + 8
    {
      hide ByteSize;
      if page == 0 {
        return false;
      }
      ptr, size := [], [];
      for i := 0 to |fbOffset|
        invariant |ptr| == |size| == i
        invariant forall k :: 0 <= k < i ==> ptr[k] == ByteSize(fbOffset[k], page) && size[k] == ByteSize(fbSize[k], page)
      {
        ptr := ptr + [ByteSize(fbOffset[i], page)];
        size := size + [ByteSize(fbSize[i], page)];
      }
      forall i, j | 0 <= i < |ptr| && 0 <= j < |ptr| && i != j
        ensures ptr[i] + size[i] <= ptr[j] || ptr[j] + size[j] <= ptr[i]
      {
        if fbOffset[i] + fbSize[i] <= fbOffset[j] {
          CarvedApart(fbOffset[i], fbSize[i], fbOffset[j], page);
        } else {
          CarvedApart(fbOffset[j], fbSize[j], fbOffset[i], page);
        }
      }
      forall i | 0 <= i < |ptr|
        ensures 8 * ptr[i] <= fbOffset[i] / page < 8 * ptr[i] + 8 && 8 * size[i] <= fbSize[i] / page < 8 * size[i] + 8
      {
        ByteSizeBits(fbOffset[i], page);
        ByteSizeBits(fbSize[i], page);
      }
      ok := true;
    }

    /** amdgv_dirtybit_merge_bitmap into the accumulated bits, or out of them. */
    method MergeBitmap(i: nat, offset: nat, querySize: nat, bitmap: array<byte>, toAcc: bool) returns (ok: bool)
      requires Valid() && i < |ptr| && bitmap != whole
      requires page > 0 ==> ByteSize(offset, page) + ByteSize(querySize, page) <= size[i] && ByteSize(querySize, page) <= bitmap.Length
      modifies if toAcc then whole else bitmap
      ensures ok == (page > 0)
      ensures ok && toAcc ==>
                && Region(i) == OrAt(old(Region(i)), ByteSize(offset, page), bitmap[..ByteSize(querySize, page)])
                && forall j :: 0 <= j < |ptr| && j != i ==> Region(j) == old(Region(j))
      ensures ok && !toAcc ==>
                bitmap[..] == OrAt(old(bitmap[..]), 0, Region(i)[ByteSize(offset, page)..ByteSize(offset, page) + ByteSize(querySize, page)])
      ensures ok ==> var first, count := offset / page - offset / page % 8, querySize / page - querySize / page % 8;
                if toAcc then BitsMerged(Region(i), old(Region(i)), first, bitmap[..], 0, count)
                else BitsMerged(bitmap[..], old(bitmap[..]), 0, Region(i), first, count)
      ensures !ok ==> whole[..] == old(whole[..]) && bitmap[..] == old(bitmap[..])
    {
      hide ByteSize, OrAt, BitsMerged, Valid;
      if page == 0 {
        return false;
      }
      var n, o := ByteSize(querySize, page), ByteSize(offset, page);
      ByteSizeBits(querySize, page);
      ByteSizeBits(offset, page);
      if toAcc {
        MergeIn(i, o, n, bitmap);
      } else {
        MergeOut(i, o, n, bitmap);
      }
      ok := true;
    }

    /** The loops with the region as destination, */
    method MergeIn(i: nat, o: nat, n: nat, bitmap: array<byte>)
      requires Valid() && i < |ptr| && bitmap != whole && o + n <= size[i] && n <= bitmap.Length
      modifies whole
      ensures Region(i) == OrAt(old(Region(i)), o, bitmap[..n])
      ensures BitsMerged(Region(i), old(Region(i)), 8 * o, bitmap[..], 0, 8 * n)
      ensures forall j :: 0 <= j < |ptr| && j != i ==> Region(j) == old(Region(j))
    {
      hide OrAt, BitsMerged;
      ghost var w := whole[..];
      OrInto(whole, ptr[i] + o, bitmap, 0, n);
      MergedIn(w, ptr[i], size[i], o, bitmap[..], n);
      assert bitmap[..][0..0 + n] == bitmap[0..0 + n] && bitmap[..][..n] == bitmap[..n];
      forall j | 0 <= j < |ptr| && j != i
        ensures Region(j) == old(Region(j))
      {
        OrOutside(w, ptr[i] + o, bitmap[0..0 + n], ptr[j], ptr[j] + size[j]);
      }
    }

    /** and with it as source. */
    method MergeOut(i: nat, o: nat, n: nat, bitmap: array<byte>)
      requires Valid() && i < |ptr| && bitmap != whole && o + n <= size[i] && n <= bitmap.Length
      modifies bitmap
      ensures bitmap[..] == OrAt(old(bitmap[..]), 0, Region(i)[o..o + n])
      ensures BitsMerged(bitmap[..], old(bitmap[..]), 0, Region(i), 8 * o, 8 * n)
    {
      hide OrAt, BitsMerged;
      ghost var b := bitmap[..];
      OrInto(bitmap, 0, whole, ptr[i] + o, n);
      MergedOut(whole[..], ptr[i], size[i], o, b, n);
      assert whole[..][ptr[i] + o..ptr[i] + o + n] == whole[ptr[i] + o..ptr[i] + o + n];
      assert whole[..][ptr[i]..ptr[i] + size[i]] == Region(i);
    }

    /** amdgv_dirtybit_set_vf_acc_bits */
    method SetVfAccBits(i: nat, pattern: byte)
      requires Valid() && i < |ptr|
      modifies whole
      ensures Region(i) == seq(size[i], _ => pattern)
      ensures forall j :: 0 <= j < |ptr| && j != i ==> Region(j) == old(Region(j))
    {
      forall k | ptr[i] <= k < ptr[i] + size[i] {
        whole[k] := pattern;
      }
    }

    /** amdgv_dirtybit_query_and_accumulate, after the hardware has filled `bitmap` or failed to. */
    method QueryAndAccumulate(i: nat, offset: nat, querySize: nat, bitmap: array<byte>, failed: bool) returns (ok: bool)
      requires Valid() && i < |ptr| && bitmap != whole
      requires page > 0 ==> ByteSize(offset, page) + ByteSize(querySize, page) <= size[i] && ByteSize(querySize, page) <= bitmap.Length
      modifies whole
      ensures ok == (!failed && page > 0)
      ensures Region(i) == if ok then OrAt(old(Region(i)), ByteSize(offset, page), bitmap[..ByteSize(querySize, page)])
                           else seq(size[i], _ => 0xff)
      ensures if ok then BitsMerged(Region(i), old(Region(i)), offset / page - offset / page % 8,
                                    bitmap[..], 0, querySize / page - querySize / page % 8)
              else AllBits(Region(i))
      ensures forall j :: 0 <= j < |ptr| && j != i ==> Region(j) == old(Region(j))
    {
      hide ByteSize, OrAt, BitsMerged, AllBits;
      ok := !failed;
      if ok {
        ok := MergeBitmap(i, offset, querySize, bitmap, true);
      }
      if !ok {
        SetVfAccBits(i, 0xff);
        AllSet(size[i]);
      }
    }
  }

  ghost predicate AllBits(s: seq<byte>) {
    forall p: nat :: p < 8 * |s| ==> BitIn(s, p)
  }

  lemma AllSet(n: nat)
    ensures AllBits(seq(n, _ => 0xff))
  {
    hide Bit;
    var s := seq(n, _ => 0xff);
    forall p: nat | p < 8 * |s|
      ensures BitIn(s, p)
    {
      LowOnes(8, p % 8);
    }
  }

  /** A merge of a window into one region, seen from the regions. */
  lemma MergedIn(w: seq<byte>, p: nat, size: nat, o: nat, b: seq<byte>, n: nat)
    requires p + size <= |w| && o + n <= size && n <= |b|
    ensures OrAt(w, p + o, b[0..0 + n])[p..p + size] == OrAt(w[p..p + size], o, b[..n])
    ensures BitsMerged(OrAt(w[p..p + size], o, b[..n]), w[p..p + size], 8 * o, b, 0, 8 * n)
  {
    hide OrAt, BitsMerged;
    assert b[0..0 + n] == b[..n];
    OrInRegion(w, p, size, o, b[..n]);
    OrAtBits(w[p..p + size], o, b, 0, n);
  }

  /** And out of one. */
  lemma MergedOut(w: seq<byte>, p: nat, size: nat, o: nat, b: seq<byte>, n: nat)
    requires p + size <= |w| && o + n <= size && n <= |b|
    ensures w[p + o..p + o + n] == w[p..p + size][o..o + n]
    ensures BitsMerged(OrAt(b, 0, w[p..p + size][o..o + n]), b, 0, w[p..p + size], 8 * o, 8 * n)
  {
    hide OrAt, BitsMerged;
    SubSlice(w, p, p + size, o, o + n);
    OrAtBits(b, 0, w[p..p + size], o, n);
  }

  lemma OrInRegion(w: seq<byte>, p: nat, size: nat, o: nat, src: seq<byte>)
    requires p + size <= |w| && o + |src| <= size
    ensures OrAt(w, p + o, src)[p..p + size] == OrAt(w[p..p + size], o, src)
  {
    hide OrByte;
  }

  lemma OrOutside(w: seq<byte>, at: nat, src: seq<byte>, a: nat, b: nat)
    requires at + |src| <= |w| && a <= b <= |w| && (b <= at || at + |src| <= a)
    ensures OrAt(w, at, src)[a..b] == w[a..b]
  {
    hide OrByte;
  }

  /**
   * amdgv_dirtybit_set_bitmap_query_buffer_to_dirty: exactly the bits of the queried pages are set in the
   * bytes that hold them; the bytes behind those keep what they held.
   */
  method SetQueryBufferToDirty(buf: array<byte>, bufSize: nat, querySize: nat, page: nat) returns (ok: bool)
    requires bufSize <= buf.Length
    modifies buf
    ensures var bits := if page > 0 then (querySize + page - 1) / page else 0;
            var need := (bits + 7) / 8;
            && ok == (page > 0 && need <= bufSize)
            && (ok ==> (forall k :: 0 <= k < 8 * need ==> BitIn(buf[..], k) == (k < bits))
                       && buf[need..] == old(buf[need..]))
            && (!ok ==> buf[..] == old(buf[..]))
  {
    hide Bit, Pow2;
    if page == 0 {
      return false;
    }
    var bits := (querySize + page - 1) / page;
    var full, rem := bits / 8, bits % 8;
    if full + (if rem != 0 then 1 else 0) > bufSize {
      return false;
    }
    forall k | 0 <= k < full {
      buf[k] := 0xff;
    }
    if rem != 0 {
      PowBelow(rem);
      buf[full] := Pow2(rem) - 1;
    }
    forall k | 0 <= k < 8 * ((bits + 7) / 8)
      ensures BitIn(buf[..], k) == (k < bits)
    {
      LowOnes(8, k % 8);
      LowOnes(rem, k % 8);
    }
    ok := true;
  }

  lemma PowBelow(n: nat)
    requires n < 8
    ensures Pow2(n) - 1 < 256
  {
    assert Pow2(1) == 2 && Pow2(2) == 4 && Pow2(3) == 8 && Pow2(4) == 16 && Pow2(5) == 32 && Pow2(6) == 64 && Pow2(7) == 128;
  }

  lemma {:induction false} LowOnes(n: nat, k: nat)
    ensures Bit(Pow2(n) - 1, k) == (k < n)
    ensures n == 8 ==> Pow2(n) - 1 == 255
    decreases n, k
  {
    if n == 0 {
      ZeroBits(k);
    } else if k > 0 {
      LowOnes(n - 1, k - 1);
      assert (Pow2(n) - 1) / 2 == Pow2(n - 1) - 1;
    }
    assert Pow2(8) == 256;
  }

  /** Bit k of a bitmap in memory. */
  predicate BitIn(s: seq<byte>, k: nat)
    requires k / 8 < |s|
  {
    Bit(s[k / 8], k % 8)
  }
}
