/**
 * Handing a virtual function its part of a CPER record (amdgv_cper.c): allowed sections are copied out one
 * by one, descriptors and header are patched in place for the copy and then put back. Layout as in
 * Appendix N.2 of the UEFI Specification, record header N.2.1 and section descriptor N.2.2.
 */
module CperFilter {
  import opened Arith
  import opened Bytes

  const HDR: nat := 128
  const DESC: nat := 72

  // Offsets inside the header and inside a descriptor.
  const SEC_CNT: nat := 10
  const LENGTH: nat := 20
  const VALID: nat := 10
  const FRU_ID: nat := 32

  function DescAt(i: nat): nat {
    HDR + DESC * i
  }

  function U16At(s: seq<byte>, o: nat): nat
    requires o + 2 <= |s|
  {
    var a: int, b: int := s[o], s[o + 1];
    a + 256 * b
  }

  function U16Bytes(v: nat): (s: seq<byte>)
    requires v < 65536
    ensures |s| == 2
  {
    [v % 256, v / 256]
  }

  function SecCount(rec: seq<byte>): nat
    requires |rec| >= HDR
  {
    U16At(rec, SEC_CNT)
  }

  function SecOffset(rec: seq<byte>, i: nat): nat
    requires DescAt(i) + DESC <= |rec|
  {
    U32At(rec, DescAt(i))
  }

  function SecLen(rec: seq<byte>, i: nat): nat
    requires DescAt(i) + DESC <= |rec|
  {
    U32At(rec, DescAt(i) + 4)
  }

  /** Descriptors inside the record, sections behind them and inside the record too. */
  ghost predicate WellFormed(rec: seq<byte>) {
    && |rec| >= HDR && DescAt(SecCount(rec)) <= |rec|
    && forall i :: 0 <= i < SecCount(rec) ==>
         DescAt(SecCount(rec)) <= SecOffset(rec, i) && SecOffset(rec, i) + SecLen(rec, i) <= |rec|
  }

  function DescOf(rec: seq<byte>, i: nat): (d: seq<byte>)
    requires DescAt(i) + DESC <= |rec|
    ensures |d| == DESC
  {
    rec[DescAt(i)..DescAt(i) + DESC]
  }

  function SecOf(rec: seq<byte>, i: nat): (d: seq<byte>)
    requires DescAt(i) + DESC <= |rec| && SecOffset(rec, i) + SecLen(rec, i) <= |rec|
    ensures |d| == SecLen(rec, i)
  {
    rec[SecOffset(rec, i)..SecOffset(rec, i) + SecLen(rec, i)]
  }

  /** The same by the offsets of the standard: descriptors of 72 bytes behind a header of 128. */
  lemma LayoutIs(rec: seq<byte>, i: nat)
    requires |rec| >= 128 + 72 * i + 72
    ensures DescAt(i) == 128 + 72 * i && SecCount(rec) == U16At(rec, 10)
    ensures SecOffset(rec, i) == U32At(rec, 128 + 72 * i) && SecLen(rec, i) == U32At(rec, 132 + 72 * i)
  {
  }

  // ---- what the virtual function gets ----

  /** The descriptor as patched for the copy: no board serial number, and the section's new place. */
  function PatchedDesc(d: seq<byte>, at: u32): (r: seq<byte>)
    requires |d| == DESC
    ensures |r| == DESC
  {
    U32Bytes(at) + d[4..VALID] + [d[VALID] - d[VALID] % 2] + d[VALID + 1..FRU_ID] + Zeros(16) + d[FRU_ID + 16..]
  }

  function PatchedHeader(h: seq<byte>, count: nat, len: u32): (r: seq<byte>)
    requires |h| == HDR && count < 65536
    ensures |r| == HDR
  {
    h[..SEC_CNT] + U16Bytes(count) + h[SEC_CNT + 2..LENGTH] + U32Bytes(len) + h[LENGTH + 4..]
  }

  /** The allowed sections among the first n, in order. */
  function Chosen(allowed: seq<bool>, n: nat): (r: seq<nat>)
    requires n <= |allowed|
    ensures |r| <= n
  {
    if n == 0 then [] else Chosen(allowed, n - 1) + (if allowed[n - 1] then [n - 1] else [])
  }

  lemma {:induction false} ChosenFacts(allowed: seq<bool>, n: nat)
    requires n <= |allowed|
    ensures forall k :: 0 <= k < |Chosen(allowed, n)| ==> Chosen(allowed, n)[k] < n && allowed[Chosen(allowed, n)[k]]
    ensures forall j, k :: 0 <= j < k < |Chosen(allowed, n)| ==> Chosen(allowed, n)[j] < Chosen(allowed, n)[k]
    ensures forall i: nat :: i < n && allowed[i] ==> i in Chosen(allowed, n)
  {
    if n > 0 {
      ChosenFacts(allowed, n - 1);
    }
  }

  ghost predicate Inside(rec: seq<byte>, idx: seq<nat>) {
    forall k :: 0 <= k < |idx| ==>
      DescAt(idx[k]) + DESC <= |rec| && SecOffset(rec, idx[k]) + SecLen(rec, idx[k]) <= |rec|
  }

  ghost function Secs(rec: seq<byte>, idx: seq<nat>): (r: seq<byte>)
    requires Inside(rec, idx)
  {
    if idx == [] then [] else Secs(rec, idx[..|idx| - 1]) + SecOf(rec, idx[|idx| - 1])
  }

  ghost function Descs(rec: seq<byte>, idx: seq<nat>, base: nat): (r: seq<byte>)
    requires Inside(rec, idx) && base + |Secs(rec, idx)| < TWO32
    ensures |r| == DESC * |idx|
  {
    if idx == [] then [] else
      var n := |idx| - 1;
      Descs(rec, idx[..n], base) + PatchedDesc(DescOf(rec, idx[n]), base + |Secs(rec, idx[..n])|)
  }

  /** The record for the virtual function: header, descriptors, sections. */
  ghost function Filtered(rec: seq<byte>, idx: seq<nat>): (r: seq<byte>)
    requires |rec| >= HDR && Inside(rec, idx) && |idx| < 65536 && DescAt(|idx|) + |Secs(rec, idx)| < TWO32
    ensures |r| == DescAt(|idx|) + |Secs(rec, idx)|
  {
    PatchedHeader(rec[..HDR], |idx|, DescAt(|idx|) + |Secs(rec, idx)|)
    + Descs(rec, idx, DescAt(|idx|))
    + Secs(rec, idx)
  }

  // ---- reading it back ----

  lemma InsidePrefix(rec: seq<byte>, idx: seq<nat>, k: nat)
    requires Inside(rec, idx) && k <= |idx|
    ensures Inside(rec, idx[..k])
    ensures k < |idx| ==> DescAt(idx[k]) + DESC <= |rec| && SecOffset(rec, idx[k]) + SecLen(rec, idx[k]) <= |rec|
  {
    hide DescAt, SecOffset, SecLen;
  }

  lemma {:induction false} SecsAt(rec: seq<byte>, idx: seq<nat>, k: nat)
    requires Inside(rec, idx) && k < |idx|
    ensures Inside(rec, idx[..k]) && DescAt(idx[k]) + DESC <= |rec| && SecOffset(rec, idx[k]) + SecLen(rec, idx[k]) <= |rec|
    ensures var a := |Secs(rec, idx[..k])|;
            a + SecLen(rec, idx[k]) <= |Secs(rec, idx)| && Secs(rec, idx)[a..a + SecLen(rec, idx[k])] == SecOf(rec, idx[k])
    decreases |idx|
  {
    hide DescAt, SecOffset, SecLen, SecOf, Inside;
    InsidePrefix(rec, idx, k);
    var n := |idx| - 1;
    InsidePrefix(rec, idx, n);
    var init, last := idx[..n], SecOf(rec, idx[n]);
    if k < n {
      SecsAt(rec, init, k);
      assert init[..k] == idx[..k];
      var a := |Secs(rec, idx[..k])|;
      PrefixSlice(Secs(rec, init), last, a, a + SecLen(rec, idx[k]));
    } else {
      assert idx[..k] == init;
      TailSlice(Secs(rec, init), last);
    }
  }

  lemma {:induction false} DescsAt(rec: seq<byte>, idx: seq<nat>, base: nat, k: nat)
    requires Inside(rec, idx) && base + |Secs(rec, idx)| < TWO32 && k < |idx|
    ensures Inside(rec, idx[..k]) && base + |Secs(rec, idx[..k])| < TWO32 && DescAt(idx[k]) + DESC <= |rec|
    ensures Descs(rec, idx, base)[DESC * k..DESC * k + DESC] == PatchedDesc(DescOf(rec, idx[k]), base + |Secs(rec, idx[..k])|)
    decreases |idx|
  {
    hide PatchedDesc, DescOf, DescAt, SecOffset, SecLen, SecOf, Inside;
    SecsAt(rec, idx, k);
    var n := |idx| - 1;
    InsidePrefix(rec, idx, n);
    var init := idx[..n];
    var last := PatchedDesc(DescOf(rec, idx[n]), base + |Secs(rec, init)|);
    if k < n {
      DescsAt(rec, init, base, k);
      assert init[..k] == idx[..k];
      PrefixSlice(Descs(rec, init, base), last, DESC * k, DESC * k + DESC);
    } else {
      assert idx[..k] == init;
      TailSlice(Descs(rec, init, base), last);
    }
  }

  /** A patched descriptor differs from its original only in offset, serial number and its valid bit. */
  lemma PatchedDescReads(d: seq<byte>, at: u32)
    requires |d| == 72
    ensures var r := PatchedDesc(d, at);
            && U32At(r, 0) == at && U32At(r, 4) == U32At(d, 4)
            && r[8..10] == d[8..10] && !Bit(r[10], 0) && (forall k: nat :: k > 0 ==> Bit(r[10], k) == Bit(d[10], k))
            && r[11..32] == d[11..32] && r[32..48] == Zeros(16) && r[48..] == d[48..]
  {
    hide U32Bytes;
    var r := PatchedDesc(d, at);
    assert r[0..4] == U32Bytes(at);
    U32RoundTrip(r, 0, at);
    assert r[4] == d[4] && r[5] == d[5] && r[6] == d[6] && r[7] == d[7];
    forall k: nat | k > 0
      ensures Bit(r[10], k) == Bit(d[10], k)
    {
      assert r[10] / 2 == d[10] / 2;
    }
  }

  lemma PatchedHeaderReads(h: seq<byte>, count: nat, len: u32)
    requires |h| == 128 && count < 65536
    ensures var r := PatchedHeader(h, count, len);
            && U16At(r, 10) == count && U32At(r, 20) == len
            && r[..10] == h[..10] && r[12..20] == h[12..20] && r[24..] == h[24..]
  {
    hide U32Bytes;
    var r := PatchedHeader(h, count, len);
    assert r[20..24] == U32Bytes(len);
    U32RoundTrip(r, 20, len);
    assert r[10] == count % 256 && r[11] == count / 256;
  }

  /**
   * What the virtual function parses is exactly the allowed sections, in order: the count and the length
   * are right, descriptor k describes the k-th allowed section, and its offset leads to that section's bytes.
   */
  lemma FilteredParses(rec: seq<byte>, idx: seq<nat>, k: nat)
    requires |rec| >= HDR && Inside(rec, idx) && |idx| < 65536 && DescAt(|idx|) + |Secs(rec, idx)| < TWO32
    ensures var f := Filtered(rec, idx);
            && U16At(f, 10) == |idx| && U32At(f, 20) == |f|
            && (k < |idx| ==>
                  && DescAt(k) + DESC <= |f| && DescAt(idx[k]) + DESC <= |rec|
                  && SecOffset(f, k) + SecLen(f, k) <= |f| && SecOffset(rec, idx[k]) + SecLen(rec, idx[k]) <= |rec|
                  && DescOf(f, k) == PatchedDesc(DescOf(rec, idx[k]), SecOffset(f, k))
                  && SecOf(f, k) == SecOf(rec, idx[k]))
  {
    hide PatchedDesc, PatchedHeader, DescOf, SecOf, Inside, Descs, Secs, U32At;
    var h, ds, ss := PatchedHeader(rec[..HDR], |idx|, DescAt(|idx|) + |Secs(rec, idx)|), Descs(rec, idx, DescAt(|idx|)), Secs(rec, idx);
    FilteredHeader(rec, idx, h, ds + ss);
    assert h + (ds + ss) == h + ds + ss;
    if k < |idx| {
      FilteredSection(rec, idx, k);
    }
  }

  lemma FilteredHeader(rec: seq<byte>, idx: seq<nat>, h: seq<byte>, rest: seq<byte>)
    requires |rec| >= HDR && |idx| < 65536 && DescAt(|idx|) <= HDR + |rest| < TWO32
    requires h == PatchedHeader(rec[..HDR], |idx|, HDR + |rest|)
    ensures SecCount(h + rest) == |idx| && U32At(h + rest, LENGTH) == HDR + |rest|
  {
    PatchedHeaderReads(rec[..HDR], |idx|, HDR + |rest|);
  }

  lemma FilteredSection(rec: seq<byte>, idx: seq<nat>, k: nat)
    requires |rec| >= HDR && Inside(rec, idx) && |idx| < 65536 && DescAt(|idx|) + |Secs(rec, idx)| < TWO32 && k < |idx|
    ensures var f := Filtered(rec, idx);
            && DescAt(k) + DESC <= |f| && DescAt(idx[k]) + DESC <= |rec|
            && SecOffset(f, k) + SecLen(f, k) <= |f| && SecOffset(rec, idx[k]) + SecLen(rec, idx[k]) <= |rec|
            && DescOf(f, k) == PatchedDesc(DescOf(rec, idx[k]), SecOffset(f, k))
            && SecOf(f, k) == SecOf(rec, idx[k])
  {
    hide PatchedDesc, PatchedHeader, Inside, Descs, Secs, U32At;
    DescsAt(rec, idx, DescAt(|idx|), k);
    SecsAt(rec, idx, k);
    var f, base := Filtered(rec, idx), DescAt(|idx|);
    var h, ds, ss := PatchedHeader(rec[..HDR], |idx|, base + |Secs(rec, idx)|), Descs(rec, idx, base), Secs(rec, idx);
    var at, len := base + |Secs(rec, idx[..k])|, SecLen(rec, idx[k]);
    var d := PatchedDesc(DescOf(rec, idx[k]), at);
    MiddleSlice(h, ds, ss, DESC * k, DESC * k + DESC);
    assert f[DescAt(k)..DescAt(k) + DESC] == d;
    PatchedDescReads(DescOf(rec, idx[k]), at);
    WordOfSlice(f, DescAt(k), DescAt(k) + DESC, 0);
    WordOfSlice(f, DescAt(k), DescAt(k) + DESC, 4);
    WordOfSlice(rec, DescAt(idx[k]), DescAt(idx[k]) + DESC, 4);
    LastSlice(h + ds, ss, at - base, at - base + len);
  }

  lemma MiddleSlice(x: seq<byte>, y: seq<byte>, z: seq<byte>, a: nat, b: nat)
    requires a <= b <= |y|
    ensures (x + y + z)[|x| + a..|x| + b] == y[a..b]
  {
  }

  lemma LastSlice(x: seq<byte>, y: seq<byte>, a: nat, b: nat)
    requires a <= b <= |y|
    ensures (x + y)[|x| + a..|x| + b] == y[a..b]
  {
  }

  lemma WordOfSlice(s: seq<byte>, a: nat, b: nat, o: nat)
    requires a <= b <= |s| && o + 4 <= b - a
    ensures U32At(s[a..b], o) == U32At(s, a + o)
  {
  }

  // ---- the copy ----

  /** What the host's record looks like once descriptor i was patched and put back. */
  function PutBack(rec: seq<byte>, i: nat): (r: seq<byte>)
    requires DescAt(i) + DESC <= |rec|
    ensures |r| == |rec|
  {
    rec[DescAt(i) + VALID := if rec[DescAt(i) + VALID] % 2 == 1 then rec[DescAt(i) + VALID] else rec[DescAt(i) + VALID] + 1]
  }

  function PutBackAll(rec: seq<byte>, idx: seq<nat>): (r: seq<byte>)
    requires forall k :: 0 <= k < |idx| ==> DescAt(idx[k]) + DESC <= |rec|
    ensures |r| == |rec|
  {
    if idx == [] then rec else PutBack(PutBackAll(rec, idx[..|idx| - 1]), idx[|idx| - 1])
  }

  /** The valid bit of the serial number in descriptor i. */
  predicate FruValid(rec: seq<byte>, i: nat)
    requires DescAt(i) + DESC <= |rec|
  {
    rec[DescAt(i) + VALID] % 2 == 1
  }

  /** Nothing but those valid bits can change: the record is as before iff each of them was set. */
  lemma {:induction false} PutBackIsSameIff(rec: seq<byte>, idx: seq<nat>)
    requires forall k :: 0 <= k < |idx| ==> DescAt(idx[k]) + DESC <= |rec|
    ensures PutBackAll(rec, idx) == rec <==> forall k :: 0 <= k < |idx| ==> FruValid(rec, idx[k])
    ensures forall o :: 0 <= o < |rec| && PutBackAll(rec, idx)[o] != rec[o] ==>
              rec[o] % 2 == 0 && PutBackAll(rec, idx)[o] == rec[o] + 1
    ensures forall k :: 0 <= k < |idx| ==> FruValid(PutBackAll(rec, idx), idx[k])
    decreases |idx|
  {
    if idx != [] {
      var n := |idx| - 1;
      PutBackIsSameIff(rec, idx[..n]);
      var r := PutBackAll(rec, idx[..n]);
      assert PutBackAll(rec, idx) == PutBack(r, idx[n]);
      if !FruValid(rec, idx[n]) {
        assert PutBackAll(rec, idx)[DescAt(idx[n]) + VALID] != rec[DescAt(idx[n]) + VALID];
      }
      forall k | 0 <= k < |idx|
        ensures FruValid(PutBackAll(rec, idx), idx[k])
      {
        if k < n {
          assert FruValid(r, idx[..n][k]);
        }
      }
    }
  }

  /** Words and sections are not touched by what is put back. */
  lemma PutBackKeeps(rec: seq<byte>, i: nat, k: nat)
    requires WellFormed(rec) && i < SecCount(rec) && k < SecCount(rec)
    ensures DescAt(i) + DESC <= |rec| && DescAt(k) + DESC <= |rec|
    ensures var r := PutBack(rec, i);
            && SecCount(r) == SecCount(rec) && r[..HDR] == rec[..HDR]
            && SecOffset(r, k) == SecOffset(rec, k) && SecLen(r, k) == SecLen(rec, k) && SecOf(r, k) == SecOf(rec, k)
            && (k != i ==> DescOf(r, k) == DescOf(rec, k))
  {
    hide U32At;
    var r, v := PutBack(rec, i), DescAt(i) + VALID;
    WordKept(rec, v, r[v], DescAt(k));
    WordKept(rec, v, r[v], DescAt(k) + 4);
    if k != i {
      SliceKept(rec, v, r[v], DescAt(k), DescAt(k) + DESC);
    }
    SliceKept(rec, v, r[v], SecOffset(rec, k), SecOffset(rec, k) + SecLen(rec, k));
    SliceKept(rec, v, r[v], 0, HDR);
    assert r[0..HDR] == r[..HDR] && rec[0..HDR] == rec[..HDR];
  }

  lemma WordKept(s: seq<byte>, v: nat, b: byte, o: nat)
    requires v < |s| && o + 4 <= |s| && (v < o || o + 4 <= v)
    ensures U32At(s[v := b], o) == U32At(s, o)
  {
  }

  lemma SliceKept(s: seq<byte>, v: nat, b: byte, from: nat, end: nat)
    requires v < |s| && from <= end <= |s| && (v < from || end <= v)
    ensures s[v := b][from..end] == s[from..end]
  {
  }

  lemma StillWellFormed(rec: seq<byte>, i: nat)
    requires WellFormed(rec) && i < SecCount(rec)
    ensures DescAt(i) + DESC <= |rec| && WellFormed(PutBack(rec, i)) && SecCount(PutBack(rec, i)) == SecCount(rec)
  {
    hide SecCount, SecOffset, SecLen;
    var r := PutBack(rec, i);
    PutBackKeeps(rec, i, i);
    forall k | 0 <= k < SecCount(r)
      ensures DescAt(SecCount(r)) <= SecOffset(r, k) && SecOffset(r, k) + SecLen(r, k) <= |r|
    {
      PutBackKeeps(rec, i, k);
    }
  }

  /** The same for any number of descriptors before k. */
  lemma {:induction false} AllKeep(rec: seq<byte>, idx: seq<nat>, k: nat)
    requires WellFormed(rec) && k < SecCount(rec) && forall j :: 0 <= j < |idx| ==> idx[j] < k
    ensures forall j :: 0 <= j < |idx| ==> DescAt(idx[j]) + DESC <= |rec|
    ensures DescAt(k) + DESC <= |rec|
    ensures var r := PutBackAll(rec, idx);
            && WellFormed(r) && SecCount(r) == SecCount(rec) && r[..HDR] == rec[..HDR]
            && SecOffset(r, k) == SecOffset(rec, k) && SecLen(r, k) == SecLen(rec, k) && SecOf(r, k) == SecOf(rec, k)
            && DescOf(r, k) == DescOf(rec, k)
    decreases |idx|
  {
    hide SecCount, SecOffset, SecLen, SecOf, DescOf, PutBack;
    DescsInside(rec, idx, k);
    if idx != [] {
      var n := |idx| - 1;
      AllKeep(rec, idx[..n], k);
      var r := PutBackAll(rec, idx[..n]);
      StillWellFormed(r, idx[n]);
      PutBackKeeps(r, idx[n], k);
    }
  }

  lemma DescsInside(rec: seq<byte>, idx: seq<nat>, k: nat)
    requires WellFormed(rec) && k < SecCount(rec) && forall j :: 0 <= j < |idx| ==> idx[j] < k
    ensures forall j :: 0 <= j < |idx| ==> DescAt(idx[j]) + DESC <= |rec|
    ensures DescAt(k) + DESC <= |rec|
  {
  }
}
