/**
 * Ring logs of the diagnosis data: the index macros, what a ring holds after any number of writes, and
 * how it is put in order when it is copied out, with and without entries that are kept for good.
 */
module DiagRing {
  import opened Arith
  import opened Bytes

  // ---- the index macros ----

  /** The mask when the capacity passes the power-of-two test, the remainder otherwise. */
  function RbIndex(w: nat, total: nat): nat
    requires total > 0
  {
    if And(total, total - 1) != 0 then w % total else And(w, total - 1)
  }

  lemma {:induction false} AndSelf(a: nat)
    ensures And(a, a) == a
  {
    if a > 0 {
      AndSelf(a / 2);
    }
  }

  lemma AndStep(a: nat, b: nat)
    ensures And(a, b) == (if a % 2 == 1 && b % 2 == 1 then 1 else 0) + 2 * And(a / 2, b / 2)
  {
  }

  lemma TwiceMod(w: nat, h: nat)
    requires h > 0
    ensures w % (2 * h) == w % 2 + 2 * (w / 2 % h)
  {
    var q := w / 2 / h;
    assert w / 2 == q * h + w / 2 % h;
    assert q * (2 * h) == 2 * (q * h);
    DivIs(w, 2 * h, q);
  }

  lemma {:induction false} MaskIsModulo(w: nat, total: nat)
    requires total > 0 && And(total, total - 1) == 0
    ensures And(w, total - 1) == w % total
    decreases total
  {
    hide And;
    AndStep(total, total - 1);
    AndStep(w, total - 1);
    if total % 2 == 0 {
      var h := total / 2;
      assert (total - 1) / 2 == h - 1 && (total - 1) % 2 == 1;
      MaskIsModulo(w / 2, h);
      TwiceMod(w, h);
    } else if total > 1 {
      assert (total - 1) / 2 == total / 2;
      AndSelf(total / 2);
    }
  }

  /** For every capacity, power of two or not, the macro is the remainder. */
  lemma IndexIsModulo(w: nat, total: nat)
    requires total > 0
    ensures RbIndex(w, total) == w % total
  {
    if And(total, total - 1) == 0 {
      MaskIsModulo(w, total);
    }
  }

  function KeepIndex(w: nat, total: nat, keep: nat): (i: nat)
    requires keep < total && keep <= w
    ensures keep <= i < total
  {
    (w - keep) % (total - keep) + keep
  }

  // ---- what the ring holds ----

  type Entry = seq<byte>

  /** Where entry number j is written: in order at first, then round the part that is not kept. */
  function Slot(j: nat, total: nat, keep: nat): (i: nat)
    requires keep < total
    ensures i < total
  {
    if j < total then j else KeepIndex(j, total, keep)
  }

  /** The ring after every entry of `log` was written, starting from whatever memory held. */
  function RingAfter(init: seq<Entry>, log: seq<Entry>, keep: nat): (r: seq<Entry>)
    requires keep < |init|
    ensures |r| == |init|
  {
    if log == [] then init else
      RingAfter(init, log[..|log| - 1], keep)[Slot(|log| - 1, |init|, keep) := log[|log| - 1]]
  }

  /** The entries a reader should see: everything, or the first `keep` and the most recent others. */
  function Retained(log: seq<Entry>, total: nat, keep: nat): (r: seq<Entry>)
    requires keep < total
    ensures |r| == if |log| < total then |log| else total
  {
    if |log| <= total then log else log[..keep] + log[|log| - (total - keep)..]
  }

  /** amdgv_diag_data_copy on entries: kept part, oldest part, newest part. */
  function Linear(ring: seq<Entry>, w: nat, keep: nat): seq<Entry>
    requires keep < |ring|
  {
    if w <= |ring| then ring[..w] else
      var i := if keep > 0 then KeepIndex(w, |ring|, keep) else RbIndex(w, |ring|);
      IndexIsModulo(w, |ring|);
      ring[..keep] + ring[i..] + ring[keep..i]
  }

  lemma NextIndex(w: nat, total: nat, keep: nat)
    requires keep < total <= w
    ensures var i := KeepIndex(w, total, keep);
            KeepIndex(w + 1, total, keep) == if i + 1 < total then i + 1 else keep
    ensures w == total ==> KeepIndex(w, total, keep) == keep
  {
    var d, x := total - keep, w - keep;
    var q := x / d;
    assert x == q * d + x % d;
    if x % d + 1 < d {
      DivIs(x + 1, d, q);
    } else {
      assert (q + 1) * d == q * d + d;
      DivIs(x + 1, d, q + 1);
    }
    if w == total {
      DivIs(x, d, 1);
    }
  }

  /** Slot by slot: kept entries in front, then the newer part up to the write index, then the older part. */
  ghost predicate Holds(ring: seq<Entry>, log: seq<Entry>, keep: nat, i: nat)
    requires keep <= i < |ring| <= |log|
  {
    var total, w := |ring|, |log|;
    && (forall s :: 0 <= s < keep ==> ring[s] == log[s])
    && (forall s :: keep <= s < i ==> ring[s] == log[w - (i - s)])
    && (forall s :: i <= s < total ==> ring[s] == log[w - (total - keep) + (s - i)])
  }

  lemma {:induction false} FirstEntries(init: seq<Entry>, log: seq<Entry>, keep: nat)
    requires keep < |init| && |log| <= |init|
    ensures RingAfter(init, log, keep)[..|log|] == log
    decreases |log|
  {
    if log != [] {
      FirstEntries(init, log[..|log| - 1], keep);
    }
  }

  lemma {:induction false} RingHolds(init: seq<Entry>, log: seq<Entry>, keep: nat)
    requires keep < |init| <= |log|
    ensures Holds(RingAfter(init, log, keep), log, keep, KeepIndex(|log|, |init|, keep))
    decreases |log|
  {
    hide KeepIndex;
    var total, w := |init|, |log| - 1;
    if w + 1 == total {
      FirstEntries(init, log, keep);
      NextIndex(total, total, keep);
      assert RingAfter(init, log, keep) == log;
    } else {
      RingHolds(init, log[..w], keep);
      NextIndex(w, total, keep);
    }
  }

  /**
   * Whatever was written, copying the ring out yields the retained entries in the order they were
   * written: the first `keep`, then the most recent others, oldest first.
   */
  lemma LinearIsRetained(init: seq<Entry>, log: seq<Entry>, keep: nat)
    requires keep < |init|
    ensures Linear(RingAfter(init, log, keep), |log|, keep) == Retained(log, |init|, keep)
  {
    hide KeepIndex, RingAfter, RbIndex;
    var ring := RingAfter(init, log, keep);
    if |log| <= |init| {
      FirstEntries(init, log, keep);
    } else {
      RingHolds(init, log, keep);
      WriteIndex(|log|, |ring|, keep);
      HoldsLinear(ring, log, keep, KeepIndex(|log|, |ring|, keep));
    }
  }

  /** Without kept entries the macro for that case gives the same index. */
  lemma WriteIndex(w: nat, total: nat, keep: nat)
    requires keep < total <= w
    ensures keep == 0 ==> RbIndex(w, total) == KeepIndex(w, total, 0)
  {
    IndexIsModulo(w, total);
  }

  lemma HoldsLinear(ring: seq<Entry>, log: seq<Entry>, keep: nat, i: nat)
    requires keep <= i < |ring| < |log| && Holds(ring, log, keep, i)
    ensures ring[..keep] + ring[i..] + ring[keep..i] == Retained(log, |ring|, keep)
  {
  }

  // ---- the same on the bytes of a ring ----

  ghost predicate Uniform(s: seq<Entry>, size: nat) {
    forall i :: 0 <= i < |s| ==> |s[i]| == size
  }

  function Flat(s: seq<Entry>): seq<byte> {
    if s == [] then [] else Flat(s[..|s| - 1]) + s[|s| - 1]
  }

  lemma {:induction false} FlatSize(s: seq<Entry>, size: nat)
    requires Uniform(s, size)
    ensures |Flat(s)| == |s| * size
  {
    if s != [] {
      FlatSize(s[..|s| - 1], size);
      assert |s| * size == (|s| - 1) * size + size;
    }
  }

  lemma {:induction false} FlatAppend(a: seq<Entry>, b: seq<Entry>)
    ensures Flat(a + b) == Flat(a) + Flat(b)
    decreases |b|
  {
    if b == [] {
      assert a + b == a;
    } else {
      assert (a + b)[..|a + b| - 1] == a + b[..|b| - 1];
      FlatAppend(a, b[..|b| - 1]);
    }
  }

  lemma FlatSlice(s: seq<Entry>, size: nat, a: nat, b: nat)
    requires Uniform(s, size) && a <= b <= |s|
    ensures a * size <= b * size <= |Flat(s)| && Flat(s)[a * size..b * size] == Flat(s[a..b])
  {
    hide Flat;
    FlatSize(s, size);
    FlatSize(s[..a], size);
    FlatSize(s[a..b], size);
    assert s == s[..a] + (s[a..b] + s[b..]);
    FlatAppend(s[..a], s[a..b] + s[b..]);
    FlatAppend(s[a..b], s[b..]);
    MulMono(a, b, size);
    MulMono(b, |s|, size);
    assert (b - a) * size == b * size - a * size;
  }

  function RingBytes(mem: seq<byte>, size: nat, total: nat, a: nat, b: nat): seq<byte>
    requires a <= b <= total && total * size <= |mem|
  {
    MulMono(a, b, size);
    MulMono(b, total, size);
    mem[a * size..b * size]
  }

  /** The copy on raw memory. */
  function LinearBytes(mem: seq<byte>, size: nat, total: nat, w: nat, keep: nat): seq<byte>
    requires keep < total && total * size <= |mem|
  {
    if w <= total then RingBytes(mem, size, total, 0, w) else
      var i := if keep > 0 then KeepIndex(w, total, keep) else RbIndex(w, total);
      IndexIsModulo(w, total);
      RingBytes(mem, size, total, 0, keep) + RingBytes(mem, size, total, i, total) + RingBytes(mem, size, total, keep, i)
  }

  lemma RingBytesAre(ring: seq<Entry>, mem: seq<byte>, size: nat, a: nat, b: nat)
    requires Uniform(ring, size) && a <= b <= |ring| && |ring| * size <= |mem| && mem[..|ring| * size] == Flat(ring)
    ensures RingBytes(mem, size, |ring|, a, b) == Flat(ring[a..b])
  {
    hide Flat, Uniform;
    MulMono(a, b, size);
    MulMono(b, |ring|, size);
    FlatSlice(ring, size, a, b);
    SliceOfPrefix(mem, |ring| * size, a * size, b * size);
  }

  lemma SliceOfPrefix(s: seq<byte>, n: nat, a: nat, b: nat)
    requires a <= b <= n <= |s|
    ensures s[..n][a..b] == s[a..b]
  {
  }

  function RingUsed(size: nat, total: nat, w: nat): nat {
    (if w <= total then w else total) * size
  }

  lemma LinearSize(mem: seq<byte>, size: nat, total: nat, w: nat, keep: nat)
    requires keep < total && total * size <= |mem|
    ensures |LinearBytes(mem, size, total, w, keep)| == RingUsed(size, total, w) <= total * size
  {
    if w <= total {
      MulMono(w, total, size);
    } else {
      LinearKeepsChecksum(mem, size, total, w, keep);
    }
  }

  /** On memory that holds the ring after `log` was written, the bytes copied are those of the retained entries in order. */
  lemma LinearBytesAre(init: seq<Entry>, log: seq<Entry>, mem: seq<byte>, size: nat, keep: nat)
    requires keep < |init| && Uniform(RingAfter(init, log, keep), size)
    requires |init| * size <= |mem| && mem[..|init| * size] == Flat(RingAfter(init, log, keep))
    ensures LinearBytes(mem, size, |init|, |log|, keep) == Flat(Retained(log, |init|, keep))
  {
    hide RingAfter, Flat, KeepIndex, RbIndex, Retained, RingBytes;
    var ring, w := RingAfter(init, log, keep), |log|;
    LinearIsRetained(init, log, keep);
    if w <= |ring| {
      RingBytesAre(ring, mem, size, 0, w);
      assert ring[0..w] == ring[..w];
    } else {
      IndexIsModulo(w, |ring|);
      var i := if keep > 0 then KeepIndex(w, |ring|, keep) else RbIndex(w, |ring|);
      RingBytesAre(ring, mem, size, 0, keep);
      RingBytesAre(ring, mem, size, i, |ring|);
      RingBytesAre(ring, mem, size, keep, i);
      assert ring[0..keep] == ring[..keep] && ring[i..|ring|] == ring[i..];
      FlatAppend(ring[..keep], ring[i..]);
      FlatAppend(ring[..keep] + ring[i..], ring[keep..i]);
    }
  }

  /** The checksum of a wrapped ring, taken over the raw memory, is that of the bytes put in order. */
  lemma LinearKeepsChecksum(mem: seq<byte>, size: nat, total: nat, w: nat, keep: nat)
    requires keep < total < w && total * size <= |mem|
    ensures |LinearBytes(mem, size, total, w, keep)| == total * size
    ensures ByteSum(LinearBytes(mem, size, total, w, keep)) == ByteSum(mem[..total * size])
  {
    hide ByteSum;
    IndexIsModulo(w, total);
    var i := if keep > 0 then KeepIndex(w, total, keep) else RbIndex(w, total);
    MulMono(keep, i, size);
    MulMono(i, total, size);
    var a, b, c := mem[..keep * size], mem[keep * size..i * size], mem[i * size..total * size];
    assert mem[..total * size] == a + b + c;
    ByteSumAppend(a + b, c);
    ByteSumAppend(a, b);
    assert LinearBytes(mem, size, total, w, keep) == a + c + b;
    ByteSumAppend(a + c, b);
    ByteSumAppend(a, c);
  }

  /** With nothing kept and a full ring: from the write index to the end, then from the start. */
  lemma FullRingParts(mem: seq<byte>, size: nat, total: nat, w: nat)
    requires 0 < total <= w && total * size <= |mem|
    ensures var i := RbIndex(w, total);
            && i <= total && i * size <= total * size
            && mem[i * size..total * size] + mem[0..i * size] == LinearBytes(mem, size, total, w, 0)
  {
    IndexIsModulo(w, total);
    var i := RbIndex(w, total);
    MulMono(i, total, size);
    if w == total {
      DivIs(w, total, 1);
      assert i * size == 0;
    }
  }

  lemma PatchParts(b: seq<byte>, x: seq<byte>, y: seq<byte>, a: nat, m: nat)
    requires a <= |x| && m <= |y| && a + m <= |b| && (m > 0 ==> a == |x|)
    ensures Patch(Patch(b, 0, x[..a]), a, y[..m]) == Patch(b, 0, (x + y)[..a + m])
  {
  }

  /** gim_ftrace_copy_data: the same order, cut off where the caller's buffer ends. */
  method FtraceCopy(traceBuf: array<byte>, bufLen: nat, entries: array<byte>, size: nat, total: nat, w: nat)
    requires traceBuf != entries && bufLen <= traceBuf.Length && total > 0 && total * size <= entries.Length
    modifies traceBuf
    ensures var all := LinearBytes(entries[..], size, total, w, 0);
            var n := if bufLen < |all| then bufLen else |all|;
            traceBuf[..] == Patch(old(traceBuf[..]), 0, all[..n])
  {
    hide RbIndex, Patch, LinearBytes;
    if bufLen == 0 {
      PatchEmpty(traceBuf[..], 0);
    } else if w < total {
      ghost var buf0 := traceBuf[..];
      FewEntries(entries[..], size, total, w);
      var copyLen := if w * size > bufLen then bufLen else w * size;
      CopyBytes(traceBuf, 0, entries, 0, copyLen);
      assert entries[0..copyLen] == entries[..][0..w * size][..copyLen];
    } else {
      FtraceWrapped(traceBuf, bufLen, entries, size, total, w);
    }
  }

  lemma FewEntries(mem: seq<byte>, size: nat, total: nat, w: nat)
    requires 0 < total && w <= total && total * size <= |mem|
    ensures w * size <= |mem| && LinearBytes(mem, size, total, w, 0) == mem[0..w * size]
  {
    MulMono(w, total, size);
  }

  /** The ring is full: from the write index to the end, then from the start. */
  method FtraceWrapped(traceBuf: array<byte>, bufLen: nat, entries: array<byte>, size: nat, total: nat, w: nat)
    requires traceBuf != entries && bufLen <= traceBuf.Length && 0 < total <= w && total * size <= entries.Length
    modifies traceBuf
    ensures var all := LinearBytes(entries[..], size, total, w, 0);
            var n := if bufLen < |all| then bufLen else |all|;
            traceBuf[..] == Patch(old(traceBuf[..]), 0, all[..n])
  {
    hide RbIndex, Patch, LinearBytes;
    var i := RbIndex(w, total);
    FullRingParts(entries[..], size, total, w);
    assert (total - i) * size == total * size - i * size;
    CopyTwo(traceBuf, bufLen, entries, i * size, (total - i) * size, i * size);
  }

  lemma SliceHead(s: seq<byte>, p: nat, n: nat, a: nat)
    requires p + n <= |s| && a <= n
    ensures s[p..p + n][..a] == s[p..p + a]
  {
  }

  /** n bytes from p, then m bytes from the start, the second block only if the first left room. */
  method CopyTwo(dst: array<byte>, len: nat, src: array<byte>, p: nat, n: nat, m: nat)
    requires dst != src && len <= dst.Length && p + n <= src.Length && m <= src.Length
    modifies dst
    ensures var all := src[..][p..p + n] + src[..][0..m];
            dst[..] == Patch(old(dst[..]), 0, all[..if len < |all| then len else |all|])
  {
    hide Patch;
    ghost var dst0, x, y := dst[..], src[..][p..p + n], src[..][0..m];
    var a, b := if n > len then len else n, 0;
    CopyBytes(dst, 0, src, p, a);
    SliceHead(src[..], p, n, a);
    if len - a > 0 {
      b := if m > len - a then len - a else m;
      CopyBytes(dst, a, src, 0, b);
      SliceHead(src[..], 0, m, b);
    } else {
      PatchEmpty(dst[..], a);
      assert y[..b] == [];
    }
    PatchParts(dst0, x, y, a, b);
  }
}
