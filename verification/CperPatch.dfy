/** amdgv_cper_patch_to_vf and its helpers on memory: the copies, the patches in place, and the putting back. */
module CperPatch {
  import opened Arith
  import opened Bytes
  import opened CperFilter

  method Write(dst: array<byte>, at: nat, data: seq<byte>)
    requires at + |data| <= dst.Length
    modifies dst
    ensures dst[..] == Patch(old(dst[..]), at, data)
  {
    forall i | 0 <= i < |data| {
      dst[at + i] := data[i];
    }
  }

  /** The channel to a virtual function's exchange area; `fails` says which copies the hardware refuses. */
  class VfCopy {
    const fb: array<byte>
    const fails: nat -> bool
    var calls: nat
    var checksum: u32

    constructor (fb: array<byte>, fails: nat -> bool, checksum: u32)
      ensures this.fb == fb && this.fails == fails && this.checksum == checksum && calls == 0
    {
      this.fb, this.fails, this.checksum, calls := fb, fails, checksum, 0;
    }

    /** amdgv_vfmgr_copy_and_calc_checksum_to_vf_fb: the checksum counts even a copy that is refused. */
    method Copy(at: nat, data: seq<byte>) returns (ok: bool)
      requires at + |data| <= fb.Length
      modifies this, fb
      ensures checksum == (old(checksum) + ByteSum(data)) % TWO32
      ensures fb[..] == if ok then Patch(old(fb[..]), at, data) else old(fb[..])
      ensures calls == old(calls) + 1 && ok == !fails(old(calls))
    {
      checksum := (checksum + ByteSum(data)) % TWO32;
      ok := !fails(calls);
      calls := calls + 1;
      if ok {
        Write(fb, at, data);
      }
    }

    /** The n copies from number c on are not refused. */
    ghost predicate NoneFails(c: nat, n: nat) {
      forall k :: c <= k < c + n ==> !fails(k)
    }

    /** amdgv_cper_patch_to_vf_hdr: the host's header is the same afterwards. */
    method PatchHdr(rec: array<byte>, at: nat, count: nat, len: u32) returns (ok: bool)
      requires rec != fb && rec.Length >= HDR && count < 65536 && at + HDR <= fb.Length
      modifies this, fb, rec
      ensures rec[..] == old(rec[..])
      ensures var h := PatchedHeader(rec[..HDR], count, len);
              && checksum == (old(checksum) + ByteSum(h)) % TWO32
              && fb[..] == if ok then Patch(old(fb[..]), at, h) else old(fb[..])
      ensures calls == old(calls) + 1 && ok == !fails(old(calls))
    {
      hide ByteSum, Patch, U32Bytes, U16Bytes, PatchedHeader;
      ghost var r0 := rec[..];
      var saveCount, saveLength := rec[SEC_CNT..SEC_CNT + 2], rec[LENGTH..LENGTH + 4];
      Write(rec, SEC_CNT, U16Bytes(count));
      Write(rec, LENGTH, U32Bytes(len));
      HeaderPatched(r0, count, len);
      assert rec[..HDR] == rec[..][..HDR];
      ok := Copy(at, rec[..HDR]);
      Write(rec, SEC_CNT, saveCount);
      Write(rec, LENGTH, saveLength);
      assert r0[..HDR] == rec[..HDR];
    }

    /** amdgv_cper_patch_to_vf_desc: afterwards only the valid bit of the serial number may differ. */
    method PatchDesc(rec: array<byte>, i: nat, at: nat, newOffset: u32) returns (ok: bool)
      requires rec != fb && DescAt(i) + DESC <= rec.Length && at + DESC <= fb.Length
      modifies this, fb, rec
      ensures rec[..] == PutBack(old(rec[..]), i)
      ensures var d := PatchedDesc(DescOf(old(rec[..]), i), newOffset);
              && checksum == (old(checksum) + ByteSum(d)) % TWO32
              && fb[..] == if ok then Patch(old(fb[..]), at, d) else old(fb[..])
      ensures calls == old(calls) + 1 && ok == !fails(old(calls))
    {
      hide ByteSum, Patch, U32Bytes, PatchedDesc, PutBack;
      var d := DescAt(i);
      ghost var r0 := rec[..];
      var saveOffset, saveId := rec[d..d + 4], rec[d + FRU_ID..d + FRU_ID + 16];
      rec[d + VALID] := rec[d + VALID] - rec[d + VALID] % 2;
      ghost var r1 := rec[..];
      Write(rec, d + FRU_ID, Zeros(16));
      Write(rec, d, U32Bytes(newOffset));
      ghost var r3 := rec[..];
      DescPatched(r0, i, newOffset, r1, r3);
      assert rec[d..d + DESC] == r3[d..d + DESC];
      ok := Copy(at, rec[d..d + DESC]);
      rec[d + VALID] := rec[d + VALID] + 1;
      ghost var r4 := rec[..];
      Write(rec, d + FRU_ID, saveId);
      Write(rec, d, saveOffset);
      DescPutBack(r0, i, newOffset, r1, r3, r4, rec[..]);
    }

    /** Section i goes out, then its descriptor. */
    method PatchOne(rec: array<byte>, i: nat, secAt: nat, descAt: nat, newOffset: u32) returns (ok: bool)
      requires rec != fb && WellFormed(rec[..]) && i < SecCount(rec[..])
      requires secAt + SecLen(rec[..], i) <= fb.Length && descAt + DESC <= fb.Length
      modifies this, fb, rec
      ensures ok == (!fails(old(calls)) && !fails(old(calls) + 1)) && (ok ==> calls == old(calls) + 2)
      ensures ok ==> rec[..] == PutBack(old(rec[..]), i)
      ensures rec[..] == old(rec[..]) || rec[..] == PutBack(old(rec[..]), i)
      ensures ok ==>
                && fb[..] == Patch(Patch(old(fb[..]), secAt, SecOf(old(rec[..]), i)), descAt, PatchedDesc(DescOf(old(rec[..]), i), newOffset))
                && checksum == (old(checksum) + ByteSum(SecOf(old(rec[..]), i)) + ByteSum(PatchedDesc(DescOf(old(rec[..]), i), newOffset))) % TWO32
    {
      hide ByteSum, Patch, PatchedDesc, PutBack, WellFormed, SecCount, SecOffset, SecLen, SecOf, DescOf, U32At, DescAt;
      OneFacts(rec[..], i);
      var o: nat, n: nat := U32At(rec[..], DescAt(i)), U32At(rec[..], DescAt(i) + 4);
      assert rec[o..o + n] == rec[..][o..o + n];
      ok := Copy(secAt, rec[o..o + n]);
      if ok {
        ok := PatchDesc(rec, i, descAt, newOffset);
      }
    }

    /** One section of the loop. */
    method PatchTurn(rec: array<byte>, allowed: seq<bool>, i: nat, base: nat, off: nat, written: nat, nextSec: nat,
                     ghost r0: seq<byte>, ghost f0: seq<byte>, ghost c0: nat)
      returns (ok: bool, w: nat, next: nat)
      requires rec != fb && InPatch(r0, allowed, i, base, off, f0, c0, written, nextSec, rec[..], fb[..], checksum) && i < SecCount(r0)
      requires Room(r0, allowed, base, off, f0)
      modifies this, fb, rec
      ensures ok == (i < |allowed| && allowed[i] ==> !fails(old(calls)) && !fails(old(calls) + 1))
      ensures ok ==> w == written + (calls - old(calls)) / 2 && calls == old(calls) + (if i < |allowed| && allowed[i] then 2 else 0)
      ensures !ok ==> HDR + DESC * (written + 1) <= base
      ensures ok ==> InPatch(r0, allowed, i + 1, base, off, f0, c0, w, next, rec[..], fb[..], checksum)
      ensures PutBackTo(r0, allowed, i, rec[..]) || PutBackTo(r0, allowed, i + 1, rec[..])
    {
      hide ByteSum, Patch, PatchedDesc, PutBack, WellFormed, SecCount, SecOffset, SecLen, Chosen, InPatch, PutBackTo, DescOf, SecOf, Room;
      ok, w, next := true, written, nextSec;
      TurnFacts(r0, allowed, i, base, off, f0, c0, written, nextSec, rec[..], fb[..], checksum);
      if allowed[i] {
        ghost var r, f, c := rec[..], fb[..], checksum;
        ok := PatchOne(rec, i, off + nextSec, off + HDR + DESC * written, nextSec);
        TurnPutBack(r0, allowed, i, r, rec[..]);
        if ok {
          w, next := written + 1, nextSec + U32At(rec[..], DescAt(i) + 4);
          TurnTaken(r0, allowed, i, base, off, f0, c0, written, nextSec, r, f, c, rec[..], fb[..], checksum);
        }
      } else {
        TurnSkipped(r0, allowed, i, base, off, f0, c0, written, nextSec, rec[..], fb[..], checksum);
      }
    }

    /**
     * amdgv_cper_patch_to_vf. On success the record in the exchange area is the filtered one, the cursor moves
     * behind it and the checksum grows by its bytes; on failure the cursor stays. In every case the host's
     * record is put back.
     */
    method PatchToVf(rec: array<byte>, allowed: seq<bool>, count: u32, fbOffset: nat) returns (ok: bool, next: nat)
      requires rec != fb && WellFormed(rec[..]) && SecCount(rec[..]) <= |allowed|
      requires Fits(rec[..], Chosen(allowed, SecCount(rec[..]))) && count == |Chosen(allowed, SecCount(rec[..]))|
      requires fbOffset + |Filtered(rec[..], Chosen(allowed, SecCount(rec[..])))| <= fb.Length
      modifies this, fb, rec
      ensures exists n: nat :: n <= SecCount(old(rec[..])) && PutBackTo(old(rec[..]), allowed, n, rec[..])
      ensures count > 0 ==> (ok <==> NoneFails(old(calls), 2 * count + 1))
      ensures count == 0 ==> ok && rec[..] == old(rec[..]) && fb[..] == old(fb[..]) && checksum == old(checksum) && next == fbOffset
      ensures ok && count > 0 ==>
                var f := Filtered(old(rec[..]), Chosen(allowed, SecCount(old(rec[..]))));
                && fb[..] == Patch(old(fb[..]), fbOffset, f) && next == fbOffset + |f|
                && checksum == (old(checksum) + ByteSum(f)) % TWO32
      ensures !ok ==> next == fbOffset
    {
      hide ByteSum, Patch, PatchedDesc, PutBack, WellFormed, SecCount, SecOffset, SecLen, Chosen, Filtered, InPatch, PutBackTo, PutBackAll, Descs, Secs;
      ghost var r0, f0, c0 := rec[..], fb[..], checksum;
      next := fbOffset;
      PatchBegins(r0, allowed, fbOffset, f0, c0);
      if count == 0 {
        return true, fbOffset;
      }
      var base := HDR + DESC * count;
      var secCnt := U16At(rec[..], SEC_CNT);
      var i: nat, written: nat, nextSec: nat := 0, 0, base;
      ok := true;
      while i < secCnt && ok
        invariant i <= secCnt
        invariant ok ==> calls == old(calls) + 2 * written && NoneFails(old(calls), 2 * written)
        invariant !ok ==> !NoneFails(old(calls), 2 * count + 1)
        invariant ok ==> InPatch(r0, allowed, i, base, fbOffset, f0, c0, written, nextSec, rec[..], fb[..], checksum)
        invariant exists n: nat :: n <= secCnt && PutBackTo(r0, allowed, n, rec[..])
        decreases secCnt - i, ok
      {
        ok, written, nextSec := PatchTurn(rec, allowed, i, base, fbOffset, written, nextSec, r0, f0, c0);
        if ok {
          i := i + 1;
        }
      }
      if ok {
        PatchReady(r0, allowed, base, fbOffset, f0, c0, written, nextSec, rec[..], fb[..], checksum);
        ok := PatchHdr(rec, fbOffset, written, nextSec);
        if ok {
          next := fbOffset + nextSec;
        }
      }
    }
  }

  /** What the two words of a descriptor name. */
  lemma OneFacts(rec: seq<byte>, i: nat)
    requires WellFormed(rec) && i < SecCount(rec)
    ensures DescAt(i) + DESC <= |rec| && DescAt(i) + 8 <= |rec|
    ensures var o: nat, n: nat := U32At(rec, DescAt(i)), U32At(rec, DescAt(i) + 4);
            n == SecLen(rec, i) && o + n <= |rec| && SecOffset(rec, i) + SecLen(rec, i) <= |rec| && rec[o..o + n] == SecOf(rec, i)
  {
    hide U32At;
  }

  lemma HeaderPatched(r: seq<byte>, count: nat, len: u32)
    requires |r| >= HDR && count < 65536
    ensures var p := Patch(Patch(r, SEC_CNT, U16Bytes(count)), LENGTH, U32Bytes(len));
            && p[..HDR] == PatchedHeader(r[..HDR], count, len)
            && Patch(Patch(p, SEC_CNT, r[SEC_CNT..SEC_CNT + 2]), LENGTH, r[LENGTH..LENGTH + 4]) == r
  {
    hide U32Bytes, U16Bytes, Patch;
    var a, b := U16Bytes(count), U32Bytes(len);
    var p1 := Patch(r, SEC_CNT, a);
    var p := Patch(p1, LENGTH, b);
    var q := Patch(p, SEC_CNT, r[SEC_CNT..SEC_CNT + 2]);
    forall o | 0 <= o < |r|
      ensures o < HDR ==> p[..HDR][o] == PatchedHeader(r[..HDR], count, len)[o]
      ensures Patch(q, LENGTH, r[LENGTH..LENGTH + 4])[o] == r[o]
    {
      PatchIndex(r, SEC_CNT, a, o);
      PatchIndex(p1, LENGTH, b, o);
      PatchIndex(p, SEC_CNT, r[SEC_CNT..SEC_CNT + 2], o);
      PatchIndex(q, LENGTH, r[LENGTH..LENGTH + 4], o);
    }
    assert p[..HDR] == PatchedHeader(r[..HDR], count, len);
    assert Patch(q, LENGTH, r[LENGTH..LENGTH + 4]) == r;
  }

  lemma DescPatched(r0: seq<byte>, i: nat, newOffset: u32, r1: seq<byte>, r3: seq<byte>)
    requires DescAt(i) + DESC <= |r0|
    requires r1 == r0[DescAt(i) + VALID := r0[DescAt(i) + VALID] - r0[DescAt(i) + VALID] % 2]
    requires r3 == Patch(Patch(r1, DescAt(i) + FRU_ID, Zeros(16)), DescAt(i), U32Bytes(newOffset))
    ensures r3[DescAt(i)..DescAt(i) + DESC] == PatchedDesc(DescOf(r0, i), newOffset)
    ensures r3[DescAt(i) + VALID] == r0[DescAt(i) + VALID] - r0[DescAt(i) + VALID] % 2
  {
    hide U32Bytes, Patch;
    var d, b := DescAt(i), U32Bytes(newOffset);
    var r2 := Patch(r1, d + FRU_ID, Zeros(16));
    var want := PatchedDesc(DescOf(r0, i), newOffset);
    forall o | 0 <= o < DESC
      ensures r3[d + o] == want[o]
    {
      PatchIndex(r1, d + FRU_ID, Zeros(16), d + o);
      PatchIndex(r2, d, b, d + o);
    }
    assert r3[d..d + DESC] == want;
    PatchIndex(r1, d + FRU_ID, Zeros(16), d + VALID);
    PatchIndex(r2, d, b, d + VALID);
  }

  lemma DescPutBack(r0: seq<byte>, i: nat, newOffset: u32, r1: seq<byte>, r3: seq<byte>, r4: seq<byte>, r: seq<byte>)
    requires DescAt(i) + DESC <= |r0|
    requires r1 == r0[DescAt(i) + VALID := r0[DescAt(i) + VALID] - r0[DescAt(i) + VALID] % 2]
    requires r3 == Patch(Patch(r1, DescAt(i) + FRU_ID, Zeros(16)), DescAt(i), U32Bytes(newOffset))
    requires r3[DescAt(i) + VALID] < 255 && r4 == r3[DescAt(i) + VALID := r3[DescAt(i) + VALID] + 1]
    requires r == Patch(Patch(r4, DescAt(i) + FRU_ID, r0[DescAt(i) + FRU_ID..DescAt(i) + FRU_ID + 16]), DescAt(i), r0[DescAt(i)..DescAt(i) + 4])
    ensures r == PutBack(r0, i)
  {
    hide U32Bytes, Patch;
    var d, b := DescAt(i), U32Bytes(newOffset);
    var r2, id := Patch(r1, d + FRU_ID, Zeros(16)), r0[d + FRU_ID..d + FRU_ID + 16];
    var r5 := Patch(r4, d + FRU_ID, id);
    PatchIndex(r1, d + FRU_ID, Zeros(16), d + VALID);
    PatchIndex(r2, d, b, d + VALID);
    forall o | 0 <= o < |r0|
      ensures r[o] == PutBack(r0, i)[o]
    {
      PatchIndex(r1, d + FRU_ID, Zeros(16), o);
      PatchIndex(r2, d, b, o);
      PatchIndex(r4, d + FRU_ID, id, o);
      PatchIndex(r5, d, r0[d..d + 4], o);
    }
  }

  ghost predicate Fits(rec: seq<byte>, idx: seq<nat>) {
    |rec| >= HDR && Inside(rec, idx) && |idx| < 65536 && DescAt(|idx|) + |Secs(rec, idx)| < TWO32
  }

  /** The host's record with the descriptors chosen among the first n put back. */
  ghost predicate PutBackTo(r0: seq<byte>, allowed: seq<bool>, n: nat, rec: seq<byte>) {
    && n <= |allowed|
    && (forall k :: 0 <= k < |Chosen(allowed, n)| ==> DescAt(Chosen(allowed, n)[k]) + DESC <= |r0|)
    && rec == PutBackAll(r0, Chosen(allowed, n))
  }

  /** The descriptors and sections copied so far, in their places in the exchange area. */
  ghost predicate InPatch(r0: seq<byte>, allowed: seq<bool>, i: nat, base: nat, off: nat, f0: seq<byte>, c0: nat,
                          written: nat, next: nat, rec: seq<byte>, fb: seq<byte>, c: nat) {
    && WellFormed(r0) && i <= SecCount(r0) <= |allowed| && PutBackTo(r0, allowed, i, rec)
    && var idx := Chosen(allowed, i);
    && Inside(r0, idx) && written == |idx| && next == base + |Secs(r0, idx)| < TWO32
    && DescAt(|idx|) <= base && off + next <= |f0|
    && fb == Patch(Patch(f0, off + HDR, Descs(r0, idx, base)), off + base, Secs(r0, idx))
    && c == (c0 + ByteSum(Descs(r0, idx, base)) + ByteSum(Secs(r0, idx))) % TWO32
  }

  /** The exchange area has room for everything that is allowed. */
  ghost predicate Room(r0: seq<byte>, allowed: seq<bool>, base: nat, off: nat, f0: seq<byte>) {
    && WellFormed(r0) && SecCount(r0) <= |allowed|
    && var idx := Chosen(allowed, SecCount(r0));
    && Fits(r0, idx) && base == DescAt(|idx|) && off + |Filtered(r0, idx)| <= |f0|
  }

  lemma {:induction false} ChosenPrefix(allowed: seq<bool>, i: nat, n: nat)
    requires i <= n <= |allowed|
    ensures Chosen(allowed, i) <= Chosen(allowed, n)
    decreases n
  {
    if i < n {
      ChosenPrefix(allowed, i, n - 1);
    }
  }

  lemma {:induction false} SecsPrefix(rec: seq<byte>, a: seq<nat>, b: seq<nat>)
    requires Inside(rec, b) && a <= b
    ensures Inside(rec, a) && |Secs(rec, a)| <= |Secs(rec, b)|
    decreases |b|
  {
    hide DescAt, SecOffset, SecLen, SecOf;
    if |a| < |b| {
      SecsPrefix(rec, a, b[..|b| - 1]);
    } else {
      assert a == b;
    }
  }

  lemma PatchBegins(r0: seq<byte>, allowed: seq<bool>, off: nat, f0: seq<byte>, c0: u32)
    requires WellFormed(r0) && SecCount(r0) <= |allowed| && Fits(r0, Chosen(allowed, SecCount(r0)))
    requires off + |Filtered(r0, Chosen(allowed, SecCount(r0)))| <= |f0|
    ensures PutBackTo(r0, allowed, 0, r0) && |r0| >= HDR && SecCount(r0) == U16At(r0, SEC_CNT)
    ensures var base := DescAt(|Chosen(allowed, SecCount(r0))|);
            Room(r0, allowed, base, off, f0) && InPatch(r0, allowed, 0, base, off, f0, c0, 0, base, r0, f0, c0)
  {
    hide SecOffset, SecLen, Filtered, Patch, ByteSum, PatchedDesc, DescOf, SecOf, U32At, U16At;
    var all := Chosen(allowed, SecCount(r0));
    FilteredSize(r0, all);
    PatchEmpty(f0, off + HDR);
    PatchEmpty(f0, off + DescAt(|all|));
    NoneChosen(r0, allowed, DescAt(|all|));
    hide SecCount, WellFormed, Secs, Descs, Chosen;
  }

  lemma NoneChosen(r0: seq<byte>, allowed: seq<bool>, base: nat)
    requires base < TWO32
    ensures Chosen(allowed, 0) == [] && Inside(r0, []) && Secs(r0, []) == [] && Descs(r0, [], base) == [] && ByteSum([]) == 0
  {
  }

  /** What the loop relies on at section i. */
  lemma TurnFacts(r0: seq<byte>, allowed: seq<bool>, i: nat, base: nat, off: nat, f0: seq<byte>, c0: nat,
                  written: nat, next: nat, rec: seq<byte>, fb: seq<byte>, c: nat)
    requires InPatch(r0, allowed, i, base, off, f0, c0, written, next, rec, fb, c) && i < SecCount(r0) && Room(r0, allowed, base, off, f0)
    ensures i < |allowed| && |rec| == |r0| && |fb| == |f0| && next < TWO32 && PutBackTo(r0, allowed, i, rec)
    ensures WellFormed(rec) && SecCount(rec) == SecCount(r0) && DescAt(i) + DESC <= |rec|
    ensures SecLen(rec, i) == SecLen(r0, i)
    ensures allowed[i] ==> off + next + SecLen(rec, i) <= |fb| && off + HDR + DESC * written + DESC <= |fb|
    ensures allowed[i] ==> DESC * written + DESC + HDR <= base && next + SecLen(rec, i) < TWO32
  {
    hide SecOffset, SecLen, SecOf, DescOf, Patch, ByteSum, PutBack, Filtered, Descs;
    var idx, all := Chosen(allowed, i), Chosen(allowed, SecCount(r0));
    ChosenFacts(allowed, i);
    AllKeep(r0, idx, i);
    ChosenPrefix(allowed, i + 1, SecCount(r0));
    SecsPrefix(r0, Chosen(allowed, i + 1), all);
    FilteredSize(r0, all);
    if allowed[i] {
      assert Chosen(allowed, i + 1)[..|idx|] == idx;
    }
  }

  lemma FilteredSize(rec: seq<byte>, idx: seq<nat>)
    requires Fits(rec, idx)
    ensures |Filtered(rec, idx)| == DescAt(|idx|) + |Secs(rec, idx)|
  {
  }

  lemma TurnPutBack(r0: seq<byte>, allowed: seq<bool>, i: nat, r: seq<byte>, rec: seq<byte>)
    requires i < |allowed| && allowed[i] && DescAt(i) + DESC <= |r0| && PutBackTo(r0, allowed, i, r)
    requires rec == r || (DescAt(i) + DESC <= |r| && rec == PutBack(r, i))
    ensures PutBackTo(r0, allowed, i, rec) || PutBackTo(r0, allowed, i + 1, rec)
    ensures DescAt(i) + DESC <= |r| && (rec == PutBack(r, i) ==> PutBackTo(r0, allowed, i + 1, rec))
  {
    hide PutBack;
    var idx := Chosen(allowed, i);
    assert Chosen(allowed, i + 1)[..|idx|] == idx;
  }

  lemma TurnSkipped(r0: seq<byte>, allowed: seq<bool>, i: nat, base: nat, off: nat, f0: seq<byte>, c0: nat,
                    written: nat, next: nat, rec: seq<byte>, fb: seq<byte>, c: nat)
    requires InPatch(r0, allowed, i, base, off, f0, c0, written, next, rec, fb, c) && i < SecCount(r0) && !allowed[i]
    ensures InPatch(r0, allowed, i + 1, base, off, f0, c0, written, next, rec, fb, c)
  {
    hide WellFormed, SecCount, SecOffset, SecLen, SecOf, DescOf, Patch, ByteSum, PutBackAll;
    assert Chosen(allowed, i + 1) == Chosen(allowed, i);
  }

  /** Two blocks, each longer by what was written behind it. */
  lemma BothGrow(f: seq<byte>, a: nat, x: seq<byte>, dx: seq<byte>, b: nat, y: seq<byte>, dy: seq<byte>)
    requires a + |x| + |dx| <= b && b + |y| + |dy| <= |f|
    ensures Patch(Patch(Patch(Patch(f, a, x), b, y), b + |y|, dy), a + |x|, dx) == Patch(Patch(f, a, x + dx), b, y + dy)
  {
    PatchTwice(Patch(f, a, x), b, y, dy);
    PatchSwap(Patch(f, a, x), b, y + dy, a + |x|, dx);
    PatchTwice(f, a, x, dx);
  }

  lemma PatchSwap(f: seq<byte>, b: nat, y: seq<byte>, a: nat, x: seq<byte>)
    requires a + |x| <= b && b + |y| <= |f|
    ensures Patch(Patch(f, b, y), a, x) == Patch(Patch(f, a, x), b, y)
  {
    hide Patch;
    var u, v := Patch(f, b, y), Patch(f, a, x);
    forall o | 0 <= o < |f|
      ensures Patch(u, a, x)[o] == Patch(v, b, y)[o]
    {
      PatchIndex(f, b, y, o);
      PatchIndex(u, a, x, o);
      PatchIndex(f, a, x, o);
      PatchIndex(v, b, y, o);
    }
  }

  lemma TurnTaken(r0: seq<byte>, allowed: seq<bool>, i: nat, base: nat, off: nat, f0: seq<byte>, c0: nat, written: nat, next: nat,
                  r: seq<byte>, f: seq<byte>, c: nat, rec: seq<byte>, fb: seq<byte>, c1: nat)
    requires InPatch(r0, allowed, i, base, off, f0, c0, written, next, r, f, c) && i < SecCount(r0) && allowed[i]
    requires Room(r0, allowed, base, off, f0)
    requires DescAt(i) + DESC <= |r| && WellFormed(r) && SecCount(r) == SecCount(r0) && |f| == |f0| && |r| == |r0|
    requires off + next + SecLen(r, i) <= |f| && DESC * written + DESC + HDR <= base && next + SecLen(r, i) < TWO32
    requires rec == PutBack(r, i)
    requires fb == Patch(Patch(f, off + next, SecOf(r, i)), off + HDR + DESC * written, PatchedDesc(DescOf(r, i), next))
    requires c1 == (c + ByteSum(SecOf(r, i)) + ByteSum(PatchedDesc(DescOf(r, i), next))) % TWO32
    ensures |rec| == |r| && InPatch(r0, allowed, i + 1, base, off, f0, c0, written + 1, next + U32At(rec, DescAt(i) + 4), rec, fb, c1)
  {
    hide SecOffset, SecLen, SecOf, DescOf, Patch, ByteSum, PatchedDesc, PutBack, PutBackTo, WellFormed, SecCount, Chosen, Inside, Secs, Descs;
    var idx := Chosen(allowed, i);
    TurnSame(r0, allowed, i, r, rec);
    MoreChosen(r0, allowed, i, base);
    TurnPutBack(r0, allowed, i, r, rec);
    var x, y, dx, dy := Descs(r0, idx, base), Secs(r0, idx), PatchedDesc(DescOf(r0, i), next), SecOf(r0, i);
    BothGrow(f0, off + HDR, x, dx, off + base, y, dy);
    TurnSums(x, dx, y, dy, c0, c, c1);
  }

  lemma TurnSums(x: seq<byte>, dx: seq<byte>, y: seq<byte>, dy: seq<byte>, c0: nat, c: nat, c1: nat)
    requires c == (c0 + ByteSum(x) + ByteSum(y)) % TWO32 && c1 == (c + ByteSum(dy) + ByteSum(dx)) % TWO32
    ensures c1 == (c0 + ByteSum(x + dx) + ByteSum(y + dy)) % TWO32
  {
    hide ByteSum;
    ByteSumAppend(x, dx);
    ByteSumAppend(y, dy);
    SumInts(c0, ByteSum(x), ByteSum(y), ByteSum(dx), ByteSum(dy), c, c1, ByteSum(x + dx), ByteSum(y + dy));
  }

  lemma SumInts(c0: nat, x: nat, y: nat, dx: nat, dy: nat, c: nat, c1: nat, tx: nat, ty: nat)
    requires c == (c0 + x + y) % TWO32 && c1 == (c + dy + dx) % TWO32 && tx == x + dx && ty == y + dy
    ensures c1 == (c0 + tx + ty) % TWO32
  {
    FourSums(c0, x, y, dx, dy);
  }

  lemma FourSums(c: nat, x: nat, y: nat, dx: nat, dy: nat)
    ensures ((c + x + y) % TWO32 + dy + dx) % TWO32 == (c + (x + dx) + (y + dy)) % TWO32
  {
    SumsAdd(c, x + y, dy + dx);
  }

  /** One more section chosen: what that adds to the lists. */
  lemma MoreChosen(r0: seq<byte>, allowed: seq<bool>, i: nat, base: nat)
    requires WellFormed(r0) && i < SecCount(r0) <= |allowed| && allowed[i] && Inside(r0, Chosen(allowed, i))
    requires DescAt(i) + DESC <= |r0| && SecOffset(r0, i) + SecLen(r0, i) <= |r0|
    requires base + |Secs(r0, Chosen(allowed, i))| + SecLen(r0, i) < TWO32
    ensures var idx, more := Chosen(allowed, i), Chosen(allowed, i + 1);
            && Inside(r0, more) && |more| == |idx| + 1 && Secs(r0, more) == Secs(r0, idx) + SecOf(r0, i)
            && Descs(r0, more, base) == Descs(r0, idx, base) + PatchedDesc(DescOf(r0, i), base + |Secs(r0, idx)|)
  {
    hide SecOf, DescOf, PatchedDesc, SecCount, SecOffset, SecLen;
    var idx := Chosen(allowed, i);
    var more := Chosen(allowed, i + 1);
    assert more[..|idx|] == idx && more[|idx|] == i;
    InsideMore(r0, idx, i, more);
  }

  lemma SumsAdd(a: nat, b: nat, d: nat)
    ensures ((a + b) % TWO32 + d) % TWO32 == (a + b + d) % TWO32
  {
  }

  lemma InsideMore(rec: seq<byte>, idx: seq<nat>, i: nat, idx1: seq<nat>)
    requires WellFormed(rec) && i < SecCount(rec) && Inside(rec, idx) && idx1 == idx + [i]
    ensures Inside(rec, idx1)
  {
  }

  /** Section and descriptor i read the same from the partly put back record. */
  lemma TurnSame(r0: seq<byte>, allowed: seq<bool>, i: nat, r: seq<byte>, rec: seq<byte>)
    requires WellFormed(r0) && i < SecCount(r0) <= |allowed| && PutBackTo(r0, allowed, i, r)
    requires DescAt(i) + DESC <= |r| == |r0| && rec == PutBack(r, i)
    ensures WellFormed(r) && DescAt(i) + DESC <= |r0|
    ensures SecLen(r, i) == SecLen(r0, i) && SecOffset(r, i) + SecLen(r, i) <= |r| && SecOffset(r0, i) + SecLen(r0, i) <= |r0|
    ensures SecOf(r, i) == SecOf(r0, i) && DescOf(r, i) == DescOf(r0, i)
    ensures U32At(rec, DescAt(i) + 4) == SecLen(r0, i)
  {
    hide SecOf, DescOf, PutBack;
    ChosenFacts(allowed, i);
    AllKeep(r0, Chosen(allowed, i), i);
    PutBackKeeps(r, i, i);
  }

  /** All sections done: with the header in front, the area holds the filtered record. */
  lemma PatchReady(r0: seq<byte>, allowed: seq<bool>, base: nat, off: nat, f0: seq<byte>, c0: nat, written: nat, next: nat,
                   rec: seq<byte>, fb: seq<byte>, c: nat)
    requires WellFormed(r0) && InPatch(r0, allowed, SecCount(r0), base, off, f0, c0, written, next, rec, fb, c) && Room(r0, allowed, base, off, f0)
    ensures |rec| == |r0| && |rec| >= HDR && written < 65536 && next < TWO32 && |fb| == |f0| && off + HDR <= |fb|
    ensures written == |Chosen(allowed, SecCount(r0))|
    ensures var idx := Chosen(allowed, SecCount(r0));
            var h := PatchedHeader(rec[..HDR], written, next);
            && next == |Filtered(r0, idx)|
            && Patch(fb, off, h) == Patch(f0, off, Filtered(r0, idx))
            && (c + ByteSum(h)) % TWO32 == (c0 + ByteSum(Filtered(r0, idx))) % TWO32
  {
    hide SecOffset, SecLen, SecOf, DescOf, ByteSum, PatchedHeader, WellFormed, SecCount;
    var idx := Chosen(allowed, SecCount(r0));
    assert rec[..HDR] == r0[..HDR] by { HeaderKept(r0, idx, rec); }
    var h, x, y := PatchedHeader(rec[..HDR], written, next), Descs(r0, idx, base), Secs(r0, idx);
    FilteredSize(r0, idx);
    hide Patch;
    PatchTwice(f0, off + HDR, x, y);
    FrontBlock(f0, off, h, x + y);
    assert h + (x + y) == h + x + y;
    ByteSumAppend(h + x, y);
    ByteSumAppend(h, x);
    SumsAdd(c0, ByteSum(x) + ByteSum(y), ByteSum(h));
  }

  lemma FrontBlock(f: seq<byte>, off: nat, h: seq<byte>, z: seq<byte>)
    requires off + |h| + |z| <= |f|
    ensures Patch(Patch(f, off + |h|, z), off, h) == Patch(f, off, h + z)
  {
  }

  lemma {:induction false} HeaderKept(r0: seq<byte>, idx: seq<nat>, rec: seq<byte>)
    requires |r0| >= HDR && (forall k :: 0 <= k < |idx| ==> DescAt(idx[k]) + DESC <= |r0|) && rec == PutBackAll(r0, idx)
    ensures rec[..HDR] == r0[..HDR]
    decreases |idx|
  {
    if idx != [] {
      HeaderKept(r0, idx[..|idx| - 1], PutBackAll(r0, idx[..|idx| - 1]));
    }
  }
}
