/**
 * The migration file of gim_mig.c: the copy loops over the message, the dirty framebuffer and the
 * ring, on either end, proved against the page-by-page steps of MigTransfer.
 */
module MigFile {
  import opened Arith
  import opened Bytes
  import opened Bitmap
  import opened MigPages
  import opened MigMessage
  import opened MigRing
  import opened MigTransfer
  import opened MigRuns
  import opened MigCalls

  class MigFile {
    const c: Cfg
    const isTarget: bool
    const msg: array<byte>
    const ring: array<byte>
    const fb: array<byte>
    var bitPos: nat
    var off: nat
    var copied: nat
    var rptr: nat
    var wptr: nat
    var nextMask: set<Section>
    var copiedMask: set<Section>
    var running: bool
    var abnormal: bool
    var shadow: seq<bool>
    var seqNo: nat

    ghost predicate Shaped()
      reads this, msg
    {
      && c.Valid()
      && msg.Length == c.MsgSize() && ring.Length == c.ring && fb.Length == c.bits * c.page
      && msg != ring && msg != fb && ring != fb
      && |shadow| == c.bits && seqNo < TWO64
      && off == 0 && bitPos <= c.bits
      && Below(bitPos, BitmapOf(c, msg[..]))
    }

    ghost predicate Valid()
      reads this, msg, ring
    {
      && Shaped()
      && (copied < msg.Length ==> bitPos == 0)
      && View().Ok(c)
      && RingView().Ok(c.page)
      && Mult(if isTarget then rptr else wptr, c.page)
    }

    /** copied_size_thread counts the whole round; the message part of it is what matters here. */
    ghost function View(): Side
      reads this, msg
    {
      Side(msg[..], if copied < msg.Length then copied else msg.Length)
    }

    /** The message in place, as the framebuffer part of the round finds it. */
    ghost function Whole(): Side
      reads this, msg
    {
      Side(msg[..], msg.Length)
    }

    ghost function RingView(): Ring
      reads this, ring
    {
      Ring(ring[..], wptr, rptr)
    }

    ghost function TargetView(): Target
      reads this, msg, fb
    {
      Target(View(), copiedMask, fb[..], !abnormal)
    }

    ghost function WholeTarget(): Target
      reads this, msg, fb
    {
      Target(Whole(), copiedMask, fb[..], !abnormal)
    }

    /** gim_mig_setup_copy: an empty ring, nothing copied; only the target's thread starts at once. */
    constructor (c: Cfg, isTarget: bool, fb: array<byte>)
      requires c.Valid() && fb.Length == c.bits * c.page
      ensures Valid() && fresh(msg) && fresh(ring) && this.c == c && this.isTarget == isTarget && this.fb == fb
      ensures View() == Fresh(c) && RingView().Contents() == [] && shadow == NoBits(c.bits)
      ensures nextMask == {} && copiedMask == {} && running == isTarget && !abnormal
    {
      this.c, this.isTarget, this.fb := c, isTarget, fb;
      msg := new byte[c.MsgSize()](_ => 0);
      ring := new byte[c.ring](_ => 0);
      bitPos, off, copied, rptr, wptr, seqNo := 0, 0, 0, 0, 0, 0;
      nextMask, copiedMask, running, abnormal := {}, {}, isTarget, false;
      shadow := NoBits(c.bits);
      new;
      assert msg[..] == Zeros(c.MsgSize());
    }

    /** bitmap_clear on the bitmap inside the message buffer. */
    method BitmapClear(start: nat, cnt: nat)
      requires c.Valid() && msg.Length == c.MsgSize() && start + cnt <= c.bits
      modifies msg
      ensures msg[..] == ClearMsgRange(c, old(msg[..]), start, cnt)
    {
      BitmapFits(c);
      ghost var m0 := msg[..];
      var i := 0;
      while i < cnt
        invariant i <= cnt
        invariant ClearMsgRange(c, m0, start, cnt) == ClearMsgRange(c, msg[..], start + i, cnt - i)
      {
        var at := c.BitmapOffset() + (start + i) / 8;
        ghost var m := msg[..];
        msg[at] := ClearBit(msg[at], (start + i) % 8);
        assert msg[..] == ClearMsgBit(m, c.BitmapOffset(), start + i);
        i := i + 1;
      }
    }

    /** find_next_bit on the bitmap inside the message buffer. */
    method FindNextBit(from: nat) returns (i: nat)
      requires c.Valid() && msg.Length == c.MsgSize()
      ensures i == NextBit(BitmapOf(c, msg[..]), from)
    {
      BitmapFits(c);
      i := from;
      if i >= c.bits {
        return c.bits;
      }
      while i < c.bits && !Bit(msg[c.BitmapOffset() + i / 8], i % 8)
        invariant from <= i <= c.bits
        invariant NextBit(BitmapOf(c, msg[..]), from) == NextBit(BitmapOf(c, msg[..]), i)
      {
        i := i + 1;
      }
    }

    /** amdgv_vf_fb_copy: a block between framebuffer and ring, direction by end. */
    method VfFbCopy(fbAt: nat, size: nat, ringAt: nat)
      requires ring != fb && fbAt + size <= fb.Length && ringAt + size <= ring.Length
      modifies if isTarget then {fb} else {ring}
      ensures isTarget ==> fb[..] == Patch(old(fb[..]), fbAt, ring[ringAt..ringAt + size])
      ensures !isTarget ==> ring[..] == Patch(old(ring[..]), ringAt, fb[fbAt..fbAt + size])
    {
      if isTarget {
        CopyBytes(fb, fbAt, ring, ringAt, size);
      } else {
        CopyBytes(ring, ringAt, fb, fbAt, size);
      }
    }

    /** How many of the pages from bitCur on are dirty in a row, as far as the loop looks ahead. */
    method CountRun(bitCur: nat, bitsLeft: nat, leftSize: nat) returns (cnt: nat)
      requires c.Valid() && msg.Length == c.MsgSize() && bitCur < c.bits && BitmapOf(c, msg[..])[bitCur]
      requires bitsLeft > 0 && c.page <= leftSize
      ensures 0 < cnt <= bitsLeft && cnt * c.page <= leftSize && bitCur + cnt <= c.bits
      ensures forall i :: bitCur <= i < bitCur + cnt ==> BitmapOf(c, msg[..])[i]
      ensures cnt < bitsLeft && bitCur + cnt < c.bits && BitmapOf(c, msg[..])[bitCur + cnt] ==> leftSize <= (cnt + 1) * c.page
    {
      cnt := 1;
      var rest := bitsLeft - 1;
      var bitNext := bitCur + 1;
      while rest > 0
        invariant 0 < cnt && cnt + rest == bitsLeft && bitCur + cnt <= c.bits && cnt * c.page <= leftSize
        invariant bitNext == bitCur + cnt
        invariant forall i :: bitCur <= i < bitCur + cnt ==> BitmapOf(c, msg[..])[i]
      {
        bitNext := FindNextBit(bitNext);
        if bitNext >= c.bits {
          break;
        }
        if bitNext == bitCur + cnt && (cnt + 1) * c.page < leftSize {
          cnt := cnt + 1;
          bitNext := bitNext + 1;
          rest := rest - 1;
        } else {
          break;
        }
      }
    }

    /** One block of `cnt` consecutive dirty pages: copied, cleared in the bitmap, position advanced. */
    method CopyBatch(bitCur: nat, cnt: nat, ringAt: nat) returns (size: nat)
      requires Shaped() && cnt > 0 && RunAt(BitmapOf(c, msg[..]), bitCur, cnt)
      requires ringAt + cnt * c.page <= ring.Length
      modifies this`bitPos, this`off, msg, if isTarget then {fb} else {ring}
      ensures Shaped() && size == cnt * c.page && bitCur * c.page + size <= fb.Length
      ensures msg[..] == ClearMsgRange(c, old(msg[..]), bitCur, cnt)
      ensures isTarget ==> fb[..] == Patch(old(fb[..]), bitCur * c.page, ring[ringAt..ringAt + size])
      ensures !isTarget ==> ring[..] == Patch(old(ring[..]), ringAt, fb[bitCur * c.page..bitCur * c.page + size])
    {
      hide BitmapOf, ClearMsgRange, Below, Cfg.MsgSize, Cfg.Granularity, Pow2;
      size := cnt * c.page;
      PageInside(c.bits, c.page, bitCur, cnt);
      VfFbCopy(bitCur * c.page + off, size, ringAt);
      MulDiv(cnt, c.page);
      var bitCnt := (off + size) / c.page;
      off := (off + size) % c.page;
      ClearedBits(c, msg[..], bitCur, cnt);
      BitmapClear(bitCur, bitCnt);
      bitPos := bitCur + bitCnt;
    }

    /** The end of a round: the buffer is cleared and an idle source pauses. */
    method FinishRound()
      requires Shaped()
      modifies this`bitPos, this`off, this`running, msg
      ensures Shaped() && bitPos == 0 && msg[..] == Zeros(msg.Length)
      ensures running == if !isTarget && nextMask == {} then false else old(running)
    {
      ClearThreadCopyInfo();
      if !isTarget && nextMask == {} {
        running := false;
      }
    }

    /** Inside the copy loop: k pages, n bytes, were moved and `left` bytes of room remain. */
    ghost predicate InLoop(m0: seq<byte>, fb0: seq<byte>, ring0: seq<byte>, at: nat, k: nat, n: nat, left: nat)
      reads this, msg, fb, ring
    {
      && Shaped() && |m0| == c.MsgSize() && |fb0| == c.bits * c.page
      && at + n + left <= |ring0| && |ring0| == ring.Length
      && Mult(n, c.page) && Mult(left, c.page) && k == Quot(n, c.page) && n == k * c.page
      && k <= Count(BitmapOf(c, m0))
      && msg[..] == DropMsg(c, m0, k) && BitmapOf(c, msg[..]) == Drop(BitmapOf(c, m0), k)
      && Moved(isTarget, BitmapOf(c, m0), c.page, fb0, ring0, at, k, n, fb[..], ring[..])
    }

    /** One turn of the copy loop: find the run that starts at bitCur and move it. */
    method CopyRun(ringAt: nat, bitCur: nat, bitsCnt: nat, leftSize: nat, copiedSize: nat,
                   ghost m0: seq<byte>, ghost fb0: seq<byte>, ghost ring0: seq<byte>, ghost k: nat)
      returns (size: nat, cnt: nat)
      requires InLoop(m0, fb0, ring0, ringAt, k, copiedSize, leftSize)
      requires leftSize > 0 && bitsCnt == Quot(leftSize, c.page)
      requires bitCur == NextBit(BitmapOf(c, msg[..]), 0) < c.bits
      modifies this`bitPos, this`off, msg, if isTarget then {fb} else {ring}
      ensures 0 < size <= leftSize && cnt <= bitsCnt && Shaped()
      ensures InLoop(m0, fb0, ring0, ringAt, k + cnt, copiedSize + size, leftSize - size)
      ensures bitsCnt - cnt == Quot(leftSize - size, c.page)
    {
      hide Cfg.MsgSize, Cfg.Granularity, Pow2, BitmapOf, Count, DropMsg, Drop, ClearMsgRange, Moved, RunAt, Below, NextBit, Mult, Quot;
      ghost var bits0 := BitmapOf(c, m0);
      RoomForOne(leftSize, c.page);
      cnt := CountRun(bitCur, bitsCnt, leftSize);
      RunFound(BitmapOf(c, msg[..]), bitCur, cnt);
      MulMono(1, cnt, c.page);
      ghost var fb1, ring1 := fb[..], ring[..];
      size := CopyBatch(bitCur, cnt, ringAt + copiedSize);
      BatchBits(c, m0, k, bitCur, cnt);
      DropMsgBits(c, m0, k + cnt);
      MovedStep(isTarget, bits0, c.page, fb0, ring0, ringAt, k, copiedSize, fb1, ring1, bitCur, cnt, fb[..], ring[..]);
      BatchCounts(bits0, c.page, k, copiedSize, leftSize, bitCur, cnt);
    }

    /** One turn of the copy loop, with the search for a dirty page before and after the block. */
    method LoopTurn(ringAt: nat, bitsCnt: nat, leftSize: nat, copiedSize: nat,
                    ghost m0: seq<byte>, ghost fb0: seq<byte>, ghost ring0: seq<byte>, ghost k: nat)
      returns (size: nat, cnt: nat, isDone: bool)
      requires InLoop(m0, fb0, ring0, ringAt, k, copiedSize, leftSize)
      requires leftSize > 0 && bitsCnt == Quot(leftSize, c.page)
      modifies this`bitPos, this`off, msg, if isTarget then {fb} else {ring}
      ensures size <= leftSize && cnt <= bitsCnt && (size == 0 ==> isDone)
      ensures InLoop(m0, fb0, ring0, ringAt, k + cnt, copiedSize + size, leftSize - size)
      ensures bitsCnt - cnt == Quot(leftSize - size, c.page)
      ensures isDone == NoneLeft()
    {
      hide Mult, Quot, BitmapOf, Cfg.Granularity, Pow2, Cfg.MsgSize, Below, DropMsg, Drop, Moved, Count;
      size, cnt, isDone := 0, 0, false;
      var bitCur := NextDirty();
      if bitCur >= c.bits {
        isDone := true;
      } else {
        size, cnt := CopyRun(ringAt, bitCur, bitsCnt, leftSize, copiedSize, m0, fb0, ring0, k);
        bitCur := NextDirty();
        isDone := bitCur >= c.bits;
      }
    }

    ghost predicate NoneLeft()
      reads this, msg
    {
      Shaped() && Empty(BitmapOf(c, msg[..]))
    }

    lemma PositivePage(m0: seq<byte>, fb0: seq<byte>, ring0: seq<byte>, at: nat, k: nat, n: nat, left: nat)
      requires InLoop(m0, fb0, ring0, at, k, n, left)
      ensures c.page > 0
    {
    }

    /** The copy loop: blocks of consecutive dirty pages until the room or the bitmap is used up. */
    method MoveDirtyPages(ringAt: nat, len: nat, bits: nat, ghost m0: seq<byte>, ghost fb0: seq<byte>, ghost ring0: seq<byte>)
      returns (copiedSize: nat, isDone: bool, ghost k: nat)
      requires len > 0 && InLoop(m0, fb0, ring0, ringAt, 0, 0, len) && bits == Quot(len, c.page)
      modifies this`bitPos, this`off, msg, if isTarget then {fb} else {ring}
      ensures copiedSize <= len && InLoop(m0, fb0, ring0, ringAt, k, copiedSize, len - copiedSize)
      ensures isDone == NoneLeft() && (!isDone ==> copiedSize == len)
    {
      hide InLoop, NoneLeft, Mult, Quot, BitmapOf, Cfg.Valid, Cfg.MsgSize, Below, Shaped;
      k := 0;
      copiedSize := 0;
      isDone := false;
      var leftSize: nat, bitsCnt: nat := len, bits;
      PositivePage(m0, fb0, ring0, ringAt, 0, 0, len);
      while leftSize > 0 && !isDone
        invariant copiedSize + leftSize == len && bitsCnt == Quot(leftSize, c.page)
        invariant InLoop(m0, fb0, ring0, ringAt, k, copiedSize, leftSize)
        invariant leftSize < len || isDone ==> isDone == NoneLeft()
        decreases leftSize, !isDone
      {
        var size, cnt;
        size, cnt, isDone := LoopTurn(ringAt, bitsCnt, leftSize, copiedSize, m0, fb0, ring0, k);
        k, bitsCnt := k + cnt, bitsCnt - cnt;
        leftSize, copiedSize := leftSize - size, copiedSize + size;
      }
    }

    /** The loop and, when the bitmap is used up, the end of the round. */
    method CopyDirtyPages(ringAt: nat, len: nat) returns (copiedSize: nat, isDone: bool, ghost k: nat)
      requires Shaped() && Mult(len, c.page) && len > 0 && ringAt + len <= ring.Length
      modifies this`bitPos, this`off, this`running, msg, if isTarget then {fb} else {ring}
      ensures Shaped() && copiedSize <= len && Mult(copiedSize, c.page) && k == Quot(copiedSize, c.page)
      ensures k <= Count(BitmapOf(c, old(msg[..])))
      ensures Moved(isTarget, BitmapOf(c, old(msg[..])), c.page, old(fb[..]), old(ring[..]), ringAt, k, copiedSize, fb[..], ring[..])
      ensures isDone == Empty(Drop(BitmapOf(c, old(msg[..])), k)) && (if isDone then bitPos == 0 else copiedSize == len)
      ensures msg[..] == (if isDone then Zeros(msg.Length) else DropMsg(c, old(msg[..]), k))
      ensures running == (if isDone && !isTarget && nextMask == {} then false else old(running))
    {
      hide InLoop, Mult, Quot, DropMsg, Drop, Moved, BitmapOf, Cfg.Valid, Cfg.MsgSize, Below, Count, NoneLeft;
      ghost var m0, fb0, ring0 := msg[..], fb[..], ring[..];
      EnterLoop(ringAt, len);
      copiedSize, isDone, k := MoveDirtyPages(ringAt, len, len / c.page, m0, fb0, ring0);
      LoopFacts(m0, fb0, ring0, ringAt, k, copiedSize, len - copiedSize);
      DoneIs(m0, k, isDone);
      if isDone {
        FinishRound();
      }
    }

    lemma DoneIs(m0: seq<byte>, k: nat, isDone: bool)
      requires Shaped() && |m0| == c.MsgSize() && BitmapOf(c, msg[..]) == Drop(BitmapOf(c, m0), k) && isDone == NoneLeft()
      ensures isDone == Empty(Drop(BitmapOf(c, m0), k))
    {
    }

    lemma EnterLoop(ringAt: nat, len: nat)
      requires Shaped() && Mult(len, c.page) && ringAt + len <= ring.Length
      ensures InLoop(msg[..], fb[..], ring[..], ringAt, 0, 0, len)
      ensures c.page > 0 && len / c.page == Quot(len, c.page) && |msg[..]| == c.MsgSize() && c.Valid()
    {
      MultMod(len, c.page);
      NothingMoved(isTarget, BitmapOf(c, msg[..]), c.page, fb[..], ring[..], ringAt);
    }

    lemma LoopFacts(m0: seq<byte>, fb0: seq<byte>, ring0: seq<byte>, at: nat, k: nat, n: nat, left: nat)
      requires InLoop(m0, fb0, ring0, at, k, n, left)
      ensures Shaped() && Mult(n, c.page) && k == Quot(n, c.page) && |m0| == c.MsgSize() && |fb0| == c.bits * c.page
      ensures k <= Count(BitmapOf(c, m0)) && at + n <= |ring0|
      ensures Moved(isTarget, BitmapOf(c, m0), c.page, fb0, ring0, at, k, n, fb[..], ring[..])
      ensures msg[..] == DropMsg(c, m0, k) && BitmapOf(c, msg[..]) == Drop(BitmapOf(c, m0), k)
    {
    }

    /** The search from the stored position; everything before it is already clear. */
    method NextDirty() returns (i: nat)
      requires Shaped()
      ensures i == NextBit(BitmapOf(c, msg[..]), 0)
      ensures i >= c.bits <==> Empty(BitmapOf(c, msg[..]))
    {
      i := FindNextBit(bitPos);
      NextFrom(BitmapOf(c, msg[..]), bitPos);
    }

    /** The dirty pages behind the message: up to len bytes of them between framebuffer and ring. */
    method VfDirtyFbCopy(ringAt: nat, len: nat) returns (copiedSize: nat, isDone: bool)
      requires Shaped() && Whole().Ok(c)
      requires Mult(len, c.page) && len > 0 && ringAt + len <= ring.Length
      modifies this`bitPos, this`off, this`running, msg, if isTarget then {fb} else {ring}
      ensures Shaped() && copiedSize <= len && (isDone ==> bitPos == 0 && msg[..] == Zeros(msg.Length))
      ensures running == (if isDone && !isTarget && nextMask == {} then false else old(running))
      ensures !isTarget ==>
                FbEmitted(c, old(Whole()), fb[..], old(ring[..]), ringAt, len, copiedSize, isDone, msg[..], ring[..])
      ensures isTarget ==>
                FbAbsorbed(c, old(WholeTarget()), ring[ringAt..ringAt + len], copiedSize, isDone, msg[..], fb[..])
    {
      ghost var s0, t0, fb0, ring0, k := Whole(), WholeTarget(), fb[..], ring[..], 0;
      copiedSize, isDone, k := CopyDirtyPages(ringAt, len);
      hide Cfg.MsgSize, Cfg.Granularity, Pow2, BitmapOf, AbsorbMany, EmitMany, Apply, Stream, DropMsg, Below, Moved, Drop;
      if isTarget {
        MovedAbsorbs(c, t0, ring0, ringAt, len, k, copiedSize, isDone, msg[..], fb[..], ring[..]);
      } else {
        MovedEmits(c, s0, fb0, ring0, ringAt, len, k, copiedSize, isDone, msg[..], fb[..], ring[..]);
      }
    }

    method ClearThreadCopyInfo()
      modifies this`bitPos, this`off, msg
      ensures bitPos == 0 && off == 0 && msg[..] == Zeros(msg.Length)
    {
      bitPos := 0;
      off := 0;
      forall i | 0 <= i < msg.Length {
        msg[i] := 0;
      }
    }

    // ---- message ----

    method WriteBytes(at: nat, data: seq<byte>)
      requires at + |data| <= msg.Length
      modifies msg
      ensures msg[..] == Patch(old(msg[..]), at, data)
    {
      forall i | 0 <= i < |data| {
        msg[at + i] := data[i];
      }
    }

    /** One section of gim_mig_vf_data_export: its data, its place in the header, its mask bits. */
    method ExportSection(s: Section, at: nat, data: seq<byte>) returns (sec: Sec)
      requires at + |data| <= msg.Length && s != FbData
      requires SecOf(c, s).offset == at && SecOf(c, s).length == |data|
      modifies this`nextMask, this`copiedMask, msg
      ensures sec == SecIf(c, old(nextMask), s)
      ensures msg[..] == PatchIf(s in old(nextMask), old(msg[..]), at, data)
      ensures nextMask == old(nextMask) - {s}
      ensures copiedMask == old(copiedMask) + (if s in old(nextMask) then {s} else {})
    {
      sec := NO_SEC;
      if s in nextMask {
        WriteBytes(at, data);
        sec := Sec(true, if s == FbBitmap then c.Granularity() else 0, |data|, at);
        copiedMask := copiedMask + {s};
        nextMask := nextMask - {s};
      }
    }

    /** gim_mig_vf_data_export; `p` is what the device hands out, its bitmap the shadow bitmap. */
    method VfDataExport(p: Payload)
      requires c.Valid() && msg.Length == c.MsgSize() && seqNo < TWO64
      requires p.Fits(c) && p.shadow == shadow && msg[..] == Zeros(msg.Length) && FbData !in nextMask
      modifies this`nextMask, this`copiedMask, this`shadow, this`seqNo, msg
      ensures |shadow| == c.bits && seqNo < TWO64 && nextMask == {}
      ensures old(nextMask) == {} ==> msg[..] == old(msg[..]) && unchanged(this)
      ensures old(nextMask) != {} ==>
                && msg[..] == Export(c, old(nextMask), p, old(seqNo))
                && copiedMask == old(copiedMask) + old(nextMask)
                && seqNo == (old(seqNo) + 1) % TWO64
                && shadow == if FbBitmap in old(nextMask) then NoBits(c.bits) else old(shadow)
    {
      if nextMask == {} {
        return;
      }
      hide Export, Patch, Written, Cfg.Granularity, Pow2, Zeros, HeaderBytes, RoundLength, Cfg.MsgSize, SecIf;
      ghost var secs := nextMask;
      var length, sec := ExportSections(p);
      SealHeader(secs, p, length, sec);
      ExportByWrites(c, secs, p, seqNo);
      seqNo := (seqNo + 1) % TWO64;
    }

    /** The four sections in their fixed places; hdr->length grows from zero. */
    method ExportSections(p: Payload) returns (length: nat, sec: seq<Sec>)
      requires c.Valid() && msg.Length == c.MsgSize() && p.Fits(c) && p.shadow == shadow && FbData !in nextMask
      modifies this`nextMask, this`copiedMask, this`shadow, msg
      ensures nextMask == {} && copiedMask == old(copiedMask) + old(nextMask)
      ensures shadow == if FbBitmap in old(nextMask) then NoBits(c.bits) else old(shadow)
      ensures length == RoundLength(c, old(nextMask), p.shadow)
      ensures sec == [SecIf(c, old(nextMask), Ctx), SecIf(c, old(nextMask), Static), SecIf(c, old(nextMask), Dynamic), NO_SEC,
                      SecIf(c, old(nextMask), FbBitmap)]
      ensures msg[..] == Written(c, old(nextMask), p, old(msg[..]))
    {
      hide Patch, PatchIf, Cfg.Granularity, Pow2, BitmapBytes, Count;
      length := 0;
      var offset := HDR_LEN;
      var s0 := ExportSection(Ctx, offset, p.ctx);
      offset := offset + c.ctxLen;
      var s1 := ExportSection(Static, offset, p.fwS);
      offset := offset + c.fwS;
      var s2 := ExportSection(Dynamic, offset, p.fwD);
      if FbBitmap in nextMask {
        length := length + c.page * Count(shadow);
        shadow := NoBits(c.bits);
      }
      var s4 := ExportSection(FbBitmap, c.BitmapOffset(), BitmapBytes(p.shadow, c.BitmapSize()));
      length := length + c.MsgSize();
      sec := [s0, s1, s2, NO_SEC, s4];
      assert forall s :: s in old(nextMask) ==> s == Ctx || s == Static || s == Dynamic || s == FbBitmap;
    }

    /** The header fields and, last of all, the checksum over them. */
    method SealHeader(ghost secs: set<Section>, ghost p: Payload, length: nat, sec: seq<Sec>)
      requires c.Valid() && msg.Length == c.MsgSize() && seqNo < TWO64
      requires p.Fits(c) && length == RoundLength(c, secs, p.shadow)
      requires sec == [SecIf(c, secs, Ctx), SecIf(c, secs, Static), SecIf(c, secs, Dynamic), NO_SEC, SecIf(c, secs, FbBitmap)]
      modifies msg
      ensures msg[..] == Patch(old(msg[..]), 0, HeaderBytes(c, secs, p.shadow, seqNo))
    {
      ghost var h := ExportHeader(c, secs, p.shadow, seqNo, 0);
      var hdr := Header(MIG_VERSION, length, seqNo, sec, 0);
      assert hdr == h;
      var sum := ComputeChecksum(HeaderWords(hdr));
      WriteBytes(0, WordBytes(HeaderWords(hdr.(checksum := sum))));
    }

    // ---- message import and the combined copy ----

    /** The header check of import: version and checksum. */
    method HeaderCheck() returns (ok: bool)
      requires c.Valid() && msg.Length == c.MsgSize()
      ensures msg.Length >= HDR_LEN && ok == MsgCheck(WordsAt(msg[..]))
    {
      assert c.MsgSize() >= HDR_LEN;
      var w := WordsAt(msg[..]);
      var sum := ComputeChecksum(w);
      ok := w[0] == MIG_VERSION && w[CHECKSUM_WORD] == sum;
    }

    /** One section of gim_mig_vf_data_import, unless an earlier one made it fail. */
    method ImportOne(going: bool, sec: Sec, s: Section, dev: Device, ghost st: Import) returns (ok: bool, ghost r: Import)
      requires going == st.Imported? && st.mask == copiedMask
      modifies this`copiedMask
      ensures r == ImportSection(msg[..], sec, s, dev, st)
      ensures ok == r.Imported? && copiedMask == r.mask && (ok ==> st.Imported? && r.bitmapAt == st.bitmapAt)
    {
      ok := going;
      r := ImportSection(msg[..], sec, s, dev, st);
      if going && sec.valid {
        ok := s !in copiedMask && sec.offset + sec.length <= msg.Length;
        if ok {
          ok := dev(s, msg[sec.offset..sec.offset + sec.length]);
        }
        if ok {
          copiedMask := copiedMask + {s};
        }
      }
    }

    /** gim_mig_vf_data_import; `bitmapAt` is where the copy loops look for the bitmap from now on. */
    method VfDataImport(dev: Device) returns (ok: bool, bitmapAt: nat)
      requires c.Valid() && msg.Length == c.MsgSize()
      modifies this`copiedMask
      ensures var r := ImportMsg(c, msg[..], old(copiedMask), dev);
              ok == r.Imported? && copiedMask == r.mask && (ok ==> bitmapAt == r.bitmapAt)
    {
      hide ImportSection, HeaderOf, MsgCheck, WordsAt, Cfg.MsgSize, Cfg.Valid;
      bitmapAt := c.BitmapOffset();
      ok := HeaderCheck();
      if ok {
        var h := HeaderOf(WordsAt(msg[..]));
        ghost var st := Imported(copiedMask, map[], bitmapAt);
        ok, st := ImportOne(ok, h.sec[0], Ctx, dev, st);
        ok, st := ImportOne(ok, h.sec[1], Static, dev, st);
        ok, st := ImportOne(ok, h.sec[2], Dynamic, dev, st);
        ok, bitmapAt := ImportPlace(ok, h.sec[4], st);
      }
    }

    /** The bitmap section of gim_mig_vf_data_import. */
    method ImportPlace(going: bool, sec: Sec, ghost st: Import) returns (ok: bool, bitmapAt: nat)
      requires c.Valid() && going == st.Imported? && (going ==> st.bitmapAt == c.BitmapOffset())
      ensures var r := ImportBitmap(c, msg[..], sec, st);
              ok == r.Imported? && (ok ==> bitmapAt == r.bitmapAt) && r.mask == st.mask
    {
      ok, bitmapAt := going, c.BitmapOffset();
      if going && sec.valid {
        ok := sec.offset + sec.length <= msg.Length && c.page == Pow2(sec.granularity) * PAGE_SIZE;
        bitmapAt := sec.offset;
      }
    }

    /** What the source works on in this call: the round under way, or the message exported first thing. */
    ghost function Start(p: Payload): (s: Side)
      requires Shaped() && View().Ok(c) && p.Fits(c)
      reads this, msg
      ensures CanEmit(c, s, fb[..])
    {
      if copied == 0 then Side(Export(c, nextMask, p, seqNo), 0) else View()
    }

    /** What a call on the source needs: room in the ring, and a payload if it exports. */
    ghost predicate CallOk(p: Payload, ringAt: nat, len: nat)
      reads this, msg, ring
    {
      && Valid() && Mult(len, c.page) && len > 0 && ringAt + len <= ring.Length && p.Fits(c)
      && (!isTarget && copied == 0 ==> p.shadow == shadow && FbData !in nextMask && nextMask != {})
    }

    /** The bytes at ringAt that still belong to the message. */
    ghost function Part(ringAt: nat, len: nat): seq<byte>
      requires ringAt + len <= ring.Length && View().copied <= msg.Length
      reads this, msg, ring
    {
      ring[ringAt..ringAt + MsgPart(c, View(), len)]
    }

    /** What a call on the target needs: if it completes a message, the bitmap lies where export puts it. */
    ghost predicate TakeOk(ringAt: nat, len: nat)
      reads this, msg, ring, fb
    {
      && isTarget && Valid() && Mult(len, c.page) && len > 0 && ringAt + len <= ring.Length
      && var r := Arrival(c, TargetView(), Part(ringAt, len)); (r.Imported? ==> r.bitmapAt == c.BitmapOffset())
    }

    /** gim_mig_msg_copy on the source */
    method MsgOut(p: Payload, ringAt: nat, len: nat) returns (size: nat)
      requires CallOk(p, ringAt, len) && copied < msg.Length && !isTarget
      modifies this`nextMask, this`copiedMask, this`shadow, this`seqNo, msg, ring
      ensures |shadow| == c.bits && seqNo < TWO64
      ensures size == old(MsgPart(c, View(), len))
      ensures msg[..] == old(Start(p)).msg
      ensures ring[..] == Patch(old(ring[..]), ringAt, msg[copied..copied + size])
      ensures Booked(old(copied) == 0, old(nextMask), old(copiedMask), old(shadow), old(seqNo))
    {
      hide Export, Cfg.MsgSize, Cfg.Granularity, Pow2, BitmapOf, Below, Cfg.Valid, Booked, Start, Patch, Zeros, Mult, Ring.Ok;
      size := if len < msg.Length - copied then len else msg.Length - copied;
      ExportIfFirst(p);
      CopyBytes(ring, ringAt, msg, copied, size);
    }

    /** gim_mig_msg_copy on the target */
    method MsgIn(ringAt: nat, len: nat, ghost t: Target) returns (size: nat, ok: bool)
      requires TakeOk(ringAt, len) && copied < msg.Length && t == TargetView()
      modifies this`copiedMask, msg
      ensures size == MsgPart(c, t.side, len) && t.side.copied + size <= |t.side.msg|
      ensures msg[..] == Patch(t.side.msg, copied, ring[ringAt..ringAt + size])
      ensures var r := Arrival(c, t, ring[ringAt..ringAt + size]); ok == r.Imported? && copiedMask == r.mask
    {
      hide ImportMsg, Cfg.MsgSize, Cfg.Granularity, Pow2, BitmapOf, Below, Cfg.Valid;
      size := if len < msg.Length - copied then len else msg.Length - copied;
      CopyBytes(msg, copied, ring, ringAt, size);
      ok := ImportIfComplete(size);
    }

    /** Before the first byte of a round leaves the source, the message is exported. */
    method ExportIfFirst(p: Payload)
      requires Shaped() && View().Ok(c) && p.Fits(c) && (copied == 0 ==> p.shadow == shadow && FbData !in nextMask && nextMask != {})
      modifies this`nextMask, this`copiedMask, this`shadow, this`seqNo, msg
      ensures |shadow| == c.bits && seqNo < TWO64
      ensures msg[..] == old(Start(p)).msg
      ensures Booked(old(copied) == 0, old(nextMask), old(copiedMask), old(shadow), old(seqNo))
    {
      hide Export, Cfg.Granularity, Pow2, BitmapOf, Below;
      if copied == 0 {
        VfDataExport(p);
      }
    }

    /** When the last byte of the message has arrived, the target imports it. */
    method ImportIfComplete(size: nat) returns (ok: bool)
      requires c.Valid() && msg.Length == c.MsgSize()
      modifies this`copiedMask
      ensures var r := if copied + size == msg.Length then ImportMsg(c, msg[..], old(copiedMask), ACCEPT_ALL)
                       else Imported(old(copiedMask), map[], c.BitmapOffset());
              ok == r.Imported? && copiedMask == r.mask
    {
      hide ImportMsg;
      ok := true;
      if copied + size == msg.Length {
        var at;
        ok, at := VfDataImport(ACCEPT_ALL);
      }
    }

    /** Between the two parts of a call on the source: the message bytes are out, m of them. */
    ghost predicate MsgSent(ringAt: nat, len: nat, m: nat, s: Side, r0: Ring, c0: nat)
      reads this, msg, ring, fb
    {
      && !isTarget && Shaped() && Whole().Ok(c) && CanEmit(c, s, fb[..]) && m == MsgPart(c, s, len) && msg[..] == s.msg
      && m <= len && len > 0 && s.copied + m <= |s.msg| && Mult(len, c.page) && Mult(len - m, c.page)
      && ringAt + len <= ring.Length == |r0.data| && ring[..] == Patch(r0.data, ringAt, s.msg[s.copied..s.copied + m])
      && r0.Ok(c.page) && r0.put == wptr && r0.get == rptr && Mult(wptr, c.page) && Mult(s.copied + m, c.page)
      && copied == c0 && s.copied == (if c0 < msg.Length then c0 else msg.Length) && (m == len ==> bitPos == 0)
    }

    /** The message part of a call on the source; afterwards the dirty pages can follow. */
    method SourceMsgPart(p: Payload, ringAt: nat, len: nat, ghost s: Side) returns (n: nat)
      requires CallOk(p, ringAt, len) && !isTarget && s == Start(p)
      modifies this`nextMask, this`copiedMask, this`shadow, this`seqNo, msg, ring
      ensures MsgSent(ringAt, len, n, s, old(RingView()), copied)
      ensures Booked(old(copied) == 0, old(nextMask), old(copiedMask), old(shadow), old(seqNo))
    {
      hide Booked, Zeros, Cfg.MsgSize, Cfg.Valid, BitmapOf, Patch, Mult, Ring.Ok, Shaped, Whole, CanEmit, Shape, Start, CallOk, Valid,
           View, Side.Ok, MsgPart;
      StartFacts(p, ringAt, len);
      n := 0;
      if copied < msg.Length {
        n := MsgOut(p, ringAt, len);
        ShapedAgain();
      } else {
        NoMsgPart(p, ringAt, len);
        PatchNothing(ring[..], ringAt, s.msg[s.copied..s.copied + n]);
      }
      MsgPartPages(c, s, len);
      MsgPartIs(c, s, len);
    }

    lemma StartFacts(p: Payload, ringAt: nat, len: nat)
      requires CallOk(p, ringAt, len) && !isTarget
      ensures Shaped() && Whole().Ok(c) && c.Valid() && msg.Length == c.MsgSize() && Mult(len, c.page) && len > 0
      ensures ringAt + len <= ring.Length
      ensures ring.Length == c.ring && fb.Length == c.bits * c.page && |shadow| == c.bits && seqNo < TWO64 && off == 0
      ensures Shape(c, Start(p)) && |Start(p).msg| == msg.Length && CanEmit(c, Start(p), fb[..])
      ensures Start(p).copied == View().copied == if copied < msg.Length then copied else msg.Length
      ensures copied < msg.Length ==> bitPos == 0
      ensures MsgPart(c, Start(p), len) == MsgPart(c, View(), len)
      ensures RingView().Ok(c.page) && Mult(wptr, c.page) && msg != fb && ring != fb && msg != ring
    {
      hide Export, Cfg.Granularity, Pow2, BitmapOf;
    }

    lemma ShapedAgain()
      requires c.Valid() && msg.Length == c.MsgSize() && ring.Length == c.ring && fb.Length == c.bits * c.page
      requires msg != ring && msg != fb && ring != fb && |shadow| == c.bits && seqNo < TWO64 && off == 0 && bitPos == 0
      ensures Shaped() && Whole().Ok(c)
    {
    }

    lemma NoMsgPart(p: Payload, ringAt: nat, len: nat)
      requires CallOk(p, ringAt, len) && copied >= msg.Length
      ensures Start(p).msg == msg[..] && MsgPart(c, Start(p), len) == 0 && copied > 0 && Booked(false, nextMask, copiedMask, shadow, seqNo)
    {
    }

    /** gim_mig_ringbuffer_data_copy on the source */
    method SourceCopy(p: Payload, ringAt: nat, len: nat) returns (n: nat, ghost done: bool)
      requires CallOk(p, ringAt, len) && !isTarget
      modifies this`bitPos, this`off, this`copied, this`running, this`nextMask, this`copiedMask, this`shadow, this`seqNo, msg, ring
      ensures Valid()
      ensures SourceCall(c, old(Start(p)), fb[..], old(ring[..]), ringAt, len, n, done, View(), ring[..])
      ensures Booked(old(copied) == 0, old(nextMask), old(copiedMask), old(shadow), old(seqNo))
      ensures running == (if done && nextMask == {} then false else old(running))
    {
      hide MsgSent, SourceCall, EmitMany, Cfg.Valid, Cfg.MsgSize, View, Start, Ring.Ok, Shaped, Side.Ok, Mult, Payload.Fits;
      ghost var s, r0, c0 := Start(p), RingView(), copied;
      n := SourceMsgPart(p, ringAt, len, s);
      n, done := SourceTail(ringAt, len, n, s, r0, c0);
    }

    /** The dirty-page part of a call and the thread's count of the round. */
    method SourceTail(ringAt: nat, len: nat, m: nat, ghost s: Side, ghost r0: Ring, ghost c0: nat) returns (n: nat, ghost done: bool)
      requires MsgSent(ringAt, len, m, s, r0, c0)
      modifies this`bitPos, this`off, this`copied, this`running, msg, ring
      ensures Valid()
      ensures SourceCall(c, s, fb[..], r0.data, ringAt, len, n, done, View(), ring[..])
      ensures running == (if done && nextMask == {} then false else old(running))
    {
      hide Cfg.MsgSize, Cfg.Granularity, Pow2, BitmapOf, Below, Cfg.Valid, EmitMany, MsgPart, SourceCall, CanEmit,
           Shape, View, Side.Ok, Ring.Ok, Mult, Valid, Zeros;
      MsgPartIs(c, s, len);
      var k, isDone := SourceFbPart(ringAt, len, m, s, r0);
      done := isDone;
      copied := if isDone then 0 else copied + m + k;
      AfterCall(r0, c0, s.copied, m, k, len, isDone);
      n := m + k;
    }

    /** The dirty pages behind the message part, as far as the room goes. */
    method SourceFbPart(ringAt: nat, len: nat, n: nat, ghost s: Side, ghost r0: Ring) returns (k: nat, isDone: bool)
      requires MsgSent(ringAt, len, n, s, r0, copied)
      modifies this`bitPos, this`off, this`running, msg, ring
      ensures Shaped() && n + k <= len && (isDone ==> bitPos == 0) && (n == len ==> k == 0 && bitPos == old(bitPos))
      ensures isDone ==> msg[..] == Zeros(msg.Length)
      ensures running == (if isDone && nextMask == {} then false else old(running))
      ensures SourceCall(c, s, fb[..], r0.data, ringAt, len, n + k, isDone, Side(msg[..], if isDone then 0 else s.copied + n), ring[..])
    {
      hide *;
      ghost var ring1 := ring[..];
      SentFacts(ringAt, len, n, s, r0);
      k, isDone := 0, false;
      if n < len {
        k, isDone := VfDirtyFbCopy(ringAt + n, len - n);
      }
      SourceJoin(c, s, fb[..], r0.data, ringAt, len, n, k, isDone, ring1, msg[..], ring[..]);
    }

    lemma SentFacts(ringAt: nat, len: nat, n: nat, s: Side, r0: Ring)
      requires MsgSent(ringAt, len, n, s, r0, copied)
      ensures !isTarget && Shaped() && Whole() == Side(s.msg, |s.msg|) && Whole().Ok(c) && msg[..] == s.msg
      ensures CanEmit(c, s, fb[..]) && Mult(len, c.page) && Mult(len - n, c.page) && n == MsgPart(c, s, len) && n <= len
      ensures s.copied + n <= |s.msg| && ringAt + len <= ring.Length == |r0.data|
      ensures ring[..] == Patch(r0.data, ringAt, s.msg[s.copied..s.copied + n])
      ensures msg != ring && msg != fb && ring != fb
    {
      hide Cfg.Valid, Cfg.MsgSize, BitmapOf, CanEmit, Patch, Mult;
    }

    lemma AfterCall(r: Ring, c0: nat, start: nat, n: nat, k: nat, len: nat, isDone: bool)
      requires Shaped() && len > 0 && start == if c0 < msg.Length then c0 else msg.Length
      requires r.Ok(c.page) && |r.data| == ring.Length && r.put == wptr && r.get == rptr
      requires Mult(if isTarget then rptr else wptr, c.page) && Mult(start + n, c.page)
      requires copied == (if isDone then 0 else c0 + n + k) && start + n <= msg.Length
      requires isDone ==> bitPos == 0 && msg[..] == Zeros(msg.Length)
      requires if n < len then start + n == msg.Length else k == 0 && (isDone || bitPos == 0)
      ensures Valid() && View() == Side(msg[..], if isDone then 0 else start + n)
    {
      hide BitmapOf, Cfg.Granularity, Pow2, Cfg.MsgSize;
    }

    /** Between the two parts of a call on the target: the message bytes are in place and, if complete, imported. */
    ghost predicate MsgTaken(ringAt: nat, len: nat, n: nat, t: Target, c0: nat)
      reads this, msg, ring, fb
    {
      && isTarget && Shaped() && Whole().Ok(c) && t.Ok(c) && n <= len && len > 0 && ringAt + len <= ring.Length
      && n == MsgPart(c, t.side, len) && t.side.copied + n <= |t.side.msg| == msg.Length
      && Mult(n, c.page) && Mult(len - n, c.page) && Mult(t.side.copied + n, c.page)
      && TakenAs(c, t, ring[ringAt..ringAt + n], Target(Side(msg[..], t.side.copied + n), copiedMask, fb[..], !abnormal))
      && RingView().Ok(c.page) && Mult(rptr, c.page)
      && copied == c0 && t.side.copied == (if c0 < msg.Length then c0 else msg.Length) && (n == len ==> bitPos == 0)
    }

    /** The message part of a call on the target. */
    method TargetMsgPart(ringAt: nat, len: nat, ghost t: Target) returns (n: nat, ok: bool)
      requires TakeOk(ringAt, len) && t == TargetView()
      modifies this`copiedMask, msg
      ensures ok == old(Arrival(c, t, Part(ringAt, len))).Imported?
      ensures ok ==> MsgTaken(ringAt, len, n, t, copied)
    {
      hide Zeros, Cfg.MsgSize, Cfg.Valid, BitmapOf, Patch, Mult, Ring.Ok, Shaped, Whole, TakeOk, Valid, View, Side.Ok, MsgPart, Arrival,
           WithPart, Welcome, Shape, Target.Ok, Cfg.BitmapOffset, ImportMsg, TargetView, Part;
      TakeFacts(ringAt, len);
      n := 0;
      ok := true;
      if copied < msg.Length {
        n, ok := MsgIn(ringAt, len, t);
        ShapedAgain();
      }
      MsgPartPages(c, t.side, len);
      MsgPartIs(c, t.side, len);
      PartArrived(c, t, ring[ringAt..ringAt + n], msg[..]);
    }

    /** gim_mig_ringbuffer_data_copy on the target; ok is false when the message that it completed was rejected. */
    method TargetCopy(ringAt: nat, len: nat) returns (n: nat, ok: bool, ghost done: bool)
      requires TakeOk(ringAt, len)
      modifies this`bitPos, this`off, this`copied, this`running, this`copiedMask, msg, fb
      ensures ok == old(Arrival(c, TargetView(), Part(ringAt, len))).Imported?
      ensures ok ==> Valid() && TargetCall(c, old(TargetView()), ring[ringAt..ringAt + len], n, done, TargetView())
      ensures !ok ==> n == 0 && fb[..] == old(fb[..]) && copied == old(copied)
      ensures running == old(running)
    {
      hide MsgTaken, TakeOk, Valid, Mult, TargetCall, Arrival, Target.Ok, Part;
      ghost var t, c0 := TargetView(), copied;
      TakeFacts(ringAt, len);
      done := false;
      n, ok := TargetMsgPart(ringAt, len, t);
      if ok {
        n, done := TargetTail(ringAt, len, n, t, c0);
      } else {
        n := 0;
      }
    }

    /** The dirty-page part of a call and the thread's count of the round. */
    method TargetTail(ringAt: nat, len: nat, m: nat, ghost t: Target, ghost c0: nat) returns (n: nat, ghost done: bool)
      requires MsgTaken(ringAt, len, m, t, c0)
      modifies this`bitPos, this`off, this`copied, this`running, msg, fb
      ensures Valid()
      ensures TargetCall(c, t, ring[ringAt..ringAt + len], n, done, TargetView())
      ensures running == old(running)
    {
      hide Cfg.MsgSize, Cfg.Granularity, Pow2, BitmapOf, Below, Cfg.Valid, AbsorbMany, MsgPart, TargetCall, Welcome, WithPart,
           Shape, View, Side.Ok, Ring.Ok, Mult, Valid, Zeros;
      MsgPartIs(c, t.side, len);
      var k, isDone := TargetFbPart(ringAt, len, m, t);
      done := isDone;
      copied := if isDone then 0 else copied + m + k;
      AfterCall(RingView(), c0, t.side.copied, m, k, len, isDone);
      n := m + k;
    }

    /** The dirty pages behind the message part, as far as the bytes go. */
    method TargetFbPart(ringAt: nat, len: nat, n: nat, ghost t: Target) returns (k: nat, isDone: bool)
      requires MsgTaken(ringAt, len, n, t, copied)
      modifies this`bitPos, this`off, this`running, msg, fb
      ensures Shaped() && n + k <= len && (isDone ==> bitPos == 0) && (n == len ==> k == 0 && bitPos == old(bitPos))
      ensures isDone ==> msg[..] == Zeros(msg.Length)
      ensures running == old(running)
      ensures TargetCall(c, t, ring[ringAt..ringAt + len], n + k, isDone,
                         Target(Side(msg[..], if isDone then 0 else t.side.copied + n), copiedMask, fb[..], !abnormal))
    {
      hide *;
      ghost var t1 := Target(Side(msg[..], t.side.copied + n), copiedMask, fb[..], !abnormal);
      TakenFacts(ringAt, len, n, t, t1);
      k, isDone := 0, false;
      if n < len {
        k, isDone := VfDirtyFbCopy(ringAt + n, len - n);
      }
      TargetJoin(c, t, ring[ringAt..ringAt + n], ring[ringAt + n..ringAt + len], k, isDone, t1, msg[..], fb[..]);
    }

    lemma TakenFacts(ringAt: nat, len: nat, n: nat, t: Target, t1: Target)
      requires MsgTaken(ringAt, len, n, t, copied)
      requires t1 == Target(Side(msg[..], t.side.copied + n), copiedMask, fb[..], !abnormal)
      ensures t.Ok(c) && t1.Ok(c) && n <= len && ringAt + len <= ring.Length && isTarget
      ensures Shaped() && Whole().Ok(c) && Mult(n, c.page) && Mult(len - n, c.page)
      ensures n < len ==> WholeTarget() == t1
      ensures var a, b := ring[ringAt..ringAt + n], ring[ringAt + n..ringAt + len];
              && |a| == n && |b| == len - n && a + b == ring[ringAt..ringAt + len] && |a| == MsgPart(c, t.side, |a| + |b|)
              && t.side.copied + |a| <= |t.side.msg| && Welcome(c, t, a) && t1 == WithPart(c, t, a)
      ensures ring != fb && ring != msg && fb != msg
    {
      hide Cfg.MsgSize, Cfg.Valid, BitmapOf, Welcome, Arrival;
    }

    lemma TakeFacts(ringAt: nat, len: nat)
      requires TakeOk(ringAt, len)
      ensures var t := TargetView();
              && t.Ok(c) && Shape(c, t.side) && |t.side.msg| == msg.Length && t.side.msg == msg[..] && t.fb == fb[..]
              && t.ok == !abnormal && t.mask == copiedMask && isTarget
              && t.side.copied == if copied < msg.Length then copied else msg.Length
      ensures Shaped() && Whole().Ok(c) && c.Valid() && msg.Length == c.MsgSize() && Mult(len, c.page) && len > 0
      ensures ringAt + len <= ring.Length
      ensures ring.Length == c.ring && fb.Length == c.bits * c.page && |shadow| == c.bits && seqNo < TWO64 && off == 0
      ensures copied < msg.Length ==> bitPos == 0
      ensures Part(ringAt, len) == ring[ringAt..ringAt + MsgPart(c, TargetView().side, len)]
      ensures copied >= msg.Length ==> MsgPart(c, TargetView().side, len) == 0 && copied > 0
      ensures copied < msg.Length ==> MsgPart(c, TargetView().side, len) > 0
      ensures var r := Arrival(c, TargetView(), Part(ringAt, len)); r.Imported? ==> r.bitmapAt == c.BitmapOffset()
      ensures RingView().Ok(c.page) && Mult(rptr, c.page) && msg != fb && ring != fb && msg != ring
    {
      hide ImportMsg, Cfg.Granularity, Pow2, BitmapOf, Roundup, Patch, Below;
    }

    /** The bookkeeping of an export, when there was one. */
    ghost predicate Booked(exported: bool, next0: set<Section>, copied0: set<Section>, shadow0: seq<bool>, seq0: nat)
      reads this
    {
      if exported then
        && nextMask == {} && copiedMask == copied0 + next0 && seqNo == (seq0 + 1) % TWO64
        && shadow == if FbBitmap in next0 then NoBits(c.bits) else shadow0
      else nextMask == next0 && copiedMask == copied0 && seqNo == seq0 && shadow == shadow0
    }

    // ---- the copy thread and user space ----

    /** gim_mig_thread_check_ringbuffer_space, and how much of the space one call is given. */
    method ThreadSpace() returns (space: nat, len: nat)
      requires RingView().Ok(c.page)
      ensures space == if isTarget then RingView().Fill() else ring.Length - c.page - RingView().Fill()
      ensures len == ThreadRoom(RingView(), c.page, isTarget)
    {
      hide Ring.Fill, ThreadRoom, Ring.Ok;
      RingPositive();
      RoomFormula(RingView(), c.page, isTarget);
      var ptr := if isTarget then rptr else wptr;
      space := if isTarget then (wptr + ring.Length - rptr) % ring.Length
               else (ring.Length + rptr - wptr - c.page) % ring.Length;
      var wrapped := if space + ptr > ring.Length then space + ptr - ring.Length else 0;
      len := Rounddown(space - wrapped, c.page);
    }

    /** One turn of gim_mig_data_copy_thread on the source, once a page of room is free. */
    method SourceThread(p: Payload) returns (n: nat, ghost done: bool)
      requires CallReady(p) && !isTarget && c.page <= ring.Length - c.page - RingView().Fill()
      modifies this`bitPos, this`off, this`copied, this`running, this`nextMask, this`copiedMask, this`shadow, this`seqNo,
               this`rptr, this`wptr, msg, ring
      ensures Valid()
      ensures SourceTurn(c, old(Start(p)), fb[..], old(RingView()), n, done, View(), RingView())
      ensures Booked(old(copied) == 0, old(nextMask), old(copiedMask), old(shadow), old(seqNo))
      ensures running == (if done && nextMask == {} then false else old(running))
    {
      hide Cfg.Valid, Cfg.MsgSize, Shaped, View, Start, SourceCall, SourceTurn, Mult, Ring.Ok, ThreadRoom, Side.Ok, Payload.Fits;
      ghost var r, s := RingView(), Start(p);
      var space, len := ThreadSpace();
      ReadyFacts(p);
      RoomFacts(r, c.page, false);
      n, done := SourceCopy(p, wptr, len);
      SourceTurned(c, s, fb[..], r, n, done, View(), ring[..]);
      Advance(n);
    }

    /** The thread's pointer moves on, round the end of the buffer. */
    method Advance(n: nat)
      requires Valid() && n < ring.Length
      requires var q := if isTarget then Ring(ring[..], wptr, Wrap(rptr + n, ring.Length)) else Ring(ring[..], Wrap(wptr + n, ring.Length), rptr);
               q.Ok(c.page) && Mult(if isTarget then q.get else q.put, c.page)
      modifies this`rptr, this`wptr
      ensures Valid() && View() == old(View())
      ensures RingView() == if isTarget then Ring(ring[..], old(wptr), Wrap(old(rptr) + n, ring.Length))
                            else Ring(ring[..], Wrap(old(wptr) + n, ring.Length), old(rptr))
    {
      hide Cfg.Valid, Cfg.MsgSize, BitmapOf, Mult;
      WrapMod(if isTarget then rptr + n else wptr + n, ring.Length);
      if isTarget {
        rptr := (rptr + n) % ring.Length;
      } else {
        wptr := (wptr + n) % ring.Length;
      }
    }

    lemma RingPositive()
      requires RingView().Ok(c.page)
      ensures ring.Length > 0 && c.page > 0
    {
    }

    /** One turn of gim_mig_data_copy_thread on the target, once a page of bytes is there. */
    method TargetThread() returns (n: nat, ok: bool, ghost done: bool)
      requires TurnOk()
      modifies this`bitPos, this`off, this`copied, this`running, this`copiedMask, this`rptr, this`wptr, this`abnormal, msg, fb
      ensures ok ==> Valid() && TargetTurn(c, old(TargetView()), old(RingView()), n, done, TargetView(), RingView())
      ensures !ok ==> abnormal && RingView() == old(RingView()) && fb[..] == old(fb[..])
      ensures ok ==> abnormal == old(abnormal)
      ensures running == old(running)
    {
      hide Cfg.Valid, Cfg.MsgSize, Shaped, View, TargetCall, TargetTurn, Mult, Ring.Ok, Ring.Fill, ThreadRoom, Side.Ok, Target.Ok,
           Arrival, Part, Valid, TakeOk, TurnOk;
      ghost var r, t := RingView(), TargetView();
      TurnFacts();
      var space, len := ThreadSpace();
      RoomFacts(r, c.page, true);
      n, ok, done := TargetCopy(rptr, len);
      if ok {
        TargetTurned(c, t, r, n, done, TargetView());
        Advance(n);
      } else {
        abnormal := true;
      }
    }

    /** What a turn of the target thread needs; see TakeOk. */
    ghost predicate TurnOk()
      reads this, msg, ring, fb
    {
      && isTarget && Valid() && c.page <= RingView().Fill()
      && TakeOk(rptr, ThreadRoom(RingView(), c.page, true))
    }

    lemma TurnFacts()
      requires TurnOk()
      ensures Mult(ring.Length, c.page) && TargetView().Ok(c) && RingView().Ok(c.page) && fb != ring && msg != ring && fb != msg
      ensures Mult(rptr, c.page) && isTarget && Valid() && c.page <= RingView().Fill()
      ensures TakeOk(rptr, ThreadRoom(RingView(), c.page, true))
    {
    }

    /** What a turn of the source thread needs. */
    ghost predicate CallReady(p: Payload)
      reads this, msg, ring
    {
      && Valid() && p.Fits(c)
      && (!isTarget && copied == 0 ==> p.shadow == shadow && FbData !in nextMask && nextMask != {})
    }

    lemma ReadyFacts(p: Payload)
      requires CallReady(p)
      ensures Mult(ring.Length, c.page) && CanEmit(c, Start(p), fb[..]) && RingView().Ok(c.page)
    {
    }

    /** gim_mig_user_ringbuffer_data_copy: a bytes up to the end of the ring, then b from its start. */
    method UserSegments(ptr: nat, space: nat, buf: array<byte>, at: nat, len: nat) returns (a: nat, b: nat)
      requires buf != ring && at + len <= buf.Length && ptr < ring.Length && space < ring.Length
      modifies if isTarget then ring else buf
      ensures a + b == (if len < space then len else space) && ptr + a <= ring.Length && (b > 0 ==> ptr + a == ring.Length)
      ensures isTarget ==> ring[..] == Patch(Patch(old(ring[..]), ptr, buf[at..at + a]), 0, buf[at + a..at + a + b])
      ensures !isTarget ==> buf[..] == Patch(Patch(old(buf[..]), at, ring[ptr..ptr + a]), at + a, ring[0..b])
    {
      hide Patch;
      a, b := SegmentSizes(ptr, space, len);
      UserBlock(buf, at, ptr, a);
      UserBlock(buf, at + a, 0, b);
    }

    method SegmentSizes(ptr: nat, space: nat, len: nat) returns (a: nat, b: nat)
      requires ptr < ring.Length && space < ring.Length
      ensures a + b == (if len < space then len else space) && ptr + a <= ring.Length && (b > 0 ==> ptr + a == ring.Length)
    {
      var wrapped := if space + ptr > ring.Length then space + ptr - ring.Length else 0;
      var upToEnd := space - wrapped;
      a := if upToEnd < len then upToEnd else len;
      b := if wrapped < len - a then wrapped else len - a;
    }

    /** gim_mig_user_ringbuffer_do_data_copy */
    method UserBlock(buf: array<byte>, at: nat, ptr: nat, n: nat)
      requires buf != ring && at + n <= buf.Length && ptr + n <= ring.Length
      modifies if isTarget then ring else buf
      ensures if isTarget then ring[..] == Patch(old(ring[..]), ptr, buf[at..at + n])
              else buf[..] == Patch(old(buf[..]), at, ring[ptr..ptr + n])
    {
      if isTarget {
        CopyBytes(ring, ptr, buf, at, n);
      } else {
        CopyBytes(buf, at, ring, ptr, n);
      }
    }

    /** gim_mig_user_check_ringbuffer_space, for user space's pointer at ptr. */
    method UserSpace(ptr: nat) returns (space: nat)
      requires UserRing(ptr).Ok(c.page)
      ensures space == UserRoom(UserRing(ptr), c.page, isTarget)
    {
      SpaceFormulas(UserRing(ptr), c.page);
      hide Ring.Fill;
      space := if isTarget then (ring.Length - c.page + rptr - ptr) % ring.Length
               else (wptr + ring.Length - ptr) % ring.Length;
    }

    /** The ring as it will be once user space's pointer is at ptr. */
    ghost function UserRing(ptr: nat): Ring
      reads this, ring
    {
      if isTarget then Ring(ring[..], ptr, rptr) else Ring(ring[..], wptr, ptr)
    }

    /** Inside the user loop: n bytes were moved, and either nothing yet or all that can be. */
    ghost predicate InUserLoop(r: Ring, buf0: seq<byte>, buf: array<byte>, len: nat, n: nat, ptr: nat)
      reads this, ring, buf
    {
      && r.Ok(c.page) && len <= |buf0| && n <= len && n <= UserRoom(r, c.page, isTarget)
      && UserMoved(isTarget, r, buf0, n, ring[..], ptr, buf[..]) && UserRing(ptr).Ok(c.page)
      && UserRoom(UserRing(ptr), c.page, isTarget) == UserRoom(r, c.page, isTarget) - n
      && (n == 0 || n == len || n == UserRoom(r, c.page, isTarget))
      && (n == 0 ==> UserRing(ptr) == r && buf[..] == buf0) && (if isTarget then rptr == r.get else wptr == r.put)
    }

    /** One turn of the user loop with its peer's pointer standing still. */
    method UserTurn(ghost r: Ring, ghost buf0: seq<byte>, buf: array<byte>, len: nat, ptr: nat, space: nat) returns (n: nat, to: nat)
      requires InUserLoop(r, buf0, buf, len, 0, ptr) && buf != ring && 0 < len <= buf.Length
      requires space == UserRoom(r, c.page, isTarget) > 0
      modifies if isTarget then ring else buf
      ensures InUserLoop(r, buf0, buf, len, n, to) && n == if len < space then len else space
    {
      hide UserMoved, Patch, Ring.Put, Ring.Contents, Ring.Fill;
      var a, b := UserSegments(ptr, space, buf, 0, len);
      n := a + b;
      to := (ptr + n) % ring.Length;
      WrapMod(ptr + n, ring.Length);
      SegmentsMoved(isTarget, r, buf0, a, b, ring[..], buf[..]);
      RoomAfter(isTarget, r, buf0, n, ring[..], to, buf[..], c.page);
    }

    /** gim_mig_ringbuffer_data_copy_user: as many of the next len bytes as there is room for. */
    method UserCopy(buf: array<byte>, len: nat) returns (n: nat)
      requires Valid() && buf != ring && buf != msg && len <= buf.Length
      modifies this`rptr, this`wptr, if isTarget then ring else buf
      ensures Valid() && View() == old(View())
      ensures var room := old(UserRoom(RingView(), c.page, isTarget)); n == if len < room then len else room
      ensures isTarget ==> RingView() == old(RingView()).Put(buf[..n]) && RingView().Contents() == old(RingView().Contents()) + buf[..n]
      ensures !isTarget ==>
                && RingView() == old(RingView()).Take(n)
                && buf[..] == Patch(old(buf[..]), 0, old(RingView().Contents())[..n])
    {
      hide InUserLoop, Cfg.Valid, Cfg.MsgSize, BitmapOf, Ring.Ok, Ring.Put, Ring.Contents, UserRoom, Mult;
      ghost var r, buf0 := RingView(), buf[..];
      n := 0;
      var ptr: nat := if isTarget then wptr else rptr;
      EnterUserLoop(buf, len, ptr);
      while n < len
        invariant InUserLoop(r, buf0, buf, len, n, ptr)
        decreases n == 0
      {
        UserLoopFacts(r, buf0, buf, len, n, ptr);
        var space := UserSpace(ptr);
        if space == 0 {
          break;
        }
        n, ptr := UserTurn(r, buf0, buf, len, ptr, space);
      }
      UserLoopFacts(r, buf0, buf, len, n, ptr);
      SetUserPointer(ptr);
    }

    lemma EnterUserLoop(buf: array<byte>, len: nat, ptr: nat)
      requires Valid() && len <= buf.Length && ptr == if isTarget then wptr else rptr
      ensures InUserLoop(RingView(), buf[..], buf, len, 0, ptr)
      ensures Mult(if isTarget then rptr else wptr, c.page)
    {
      NoneMoved(isTarget, RingView(), buf[..]);
    }

    lemma UserLoopFacts(r: Ring, buf0: seq<byte>, buf: array<byte>, len: nat, n: nat, ptr: nat)
      requires InUserLoop(r, buf0, buf, len, n, ptr)
      ensures r.Ok(c.page) && UserRing(ptr).Ok(c.page) && n <= len <= |buf0| && n <= UserRoom(r, c.page, isTarget)
      ensures UserRoom(UserRing(ptr), c.page, isTarget) == UserRoom(r, c.page, isTarget) - n
      ensures n == 0 || n == len || n == UserRoom(r, c.page, isTarget)
      ensures isTarget ==> UserRing(ptr) == r.Put(buf0[..n]) && buf[..] == buf0 && UserRing(ptr).Contents() == r.Contents() + buf0[..n]
      ensures !isTarget ==> UserRing(ptr) == r.Take(n) && buf[..] == Patch(buf0, 0, r.Contents()[..n])
    {
      hide Ring.Contents, Patch, Ring.Fill;
      if isTarget {
        PutContents(r, buf0[..n], c.page);
      }
    }

    /** Only user space moves this pointer; the thread's side of the ring stays put. */
    method SetUserPointer(ptr: nat)
      requires Shaped() && (copied < msg.Length ==> bitPos == 0) && View().Ok(c) && UserRing(ptr).Ok(c.page)
      requires Mult(if isTarget then rptr else wptr, c.page)
      modifies this`rptr, this`wptr
      ensures Valid() && View() == old(View()) && RingView() == old(UserRing(ptr))
    {
      hide Cfg.Valid, Cfg.MsgSize, BitmapOf, Ring.Ok;
      if isTarget {
        wptr := ptr;
      } else {
        rptr := ptr;
      }
    }
  }

  /** Below the position nothing is dirty, so searching from it finds the first dirty page. */
  lemma NextFrom(bits: seq<bool>, pos: nat)
    requires Below(pos, bits)
    ensures NextBit(bits, pos) == NextBit(bits, 0)
  {
  }

  /** The bytes moved by the loop so far: k pages, n bytes. */
  ghost predicate Moved(isTarget: bool, bits: seq<bool>, page: nat, fb0: seq<byte>, ring0: seq<byte>, at: nat,
                        k: nat, n: nat, fb: seq<byte>, ring: seq<byte>)
    requires FbOk(fb0, bits, page) && at + n <= |ring0|
  {
    if isTarget then
      ring == ring0 && fb == Apply(bits, fb0, page, ring0[at..at + n])
    else
      fb == fb0 && |Stream(bits, fb0, page, k)| == n && ring == Patch(ring0, at, Stream(bits, fb0, page, k))
  }

  lemma NothingMoved(isTarget: bool, bits: seq<bool>, page: nat, fb: seq<byte>, ring: seq<byte>, at: nat)
    requires FbOk(fb, bits, page) && at <= |ring|
    ensures Moved(isTarget, bits, page, fb, ring, at, 0, 0, fb, ring)
  {
    assert ring[at..at] == [];
    assert Patch(ring, at, []) == ring;
  }

  lemma RunFound(bits: seq<bool>, p: nat, cnt: nat)
    requires p == NextBit(bits, 0) && p + cnt <= |bits| && cnt > 0
    requires forall i :: p <= i < p + cnt ==> bits[i]
    ensures RunAt(bits, p, cnt)
  {
  }

  lemma RoomForOne(left: nat, page: nat)
    requires Mult(left, page) && left > 0
    ensures page <= left && Quot(left, page) > 0
  {
  }

  lemma MovedStep(isTarget: bool, bits: seq<bool>, page: nat, fb0: seq<byte>, ring0: seq<byte>, at: nat,
                  k: nat, n: nat, fb1: seq<byte>, ring1: seq<byte>, p: nat, cnt: nat, fb2: seq<byte>, ring2: seq<byte>)
    requires FbOk(fb0, bits, page) && page > 0 && n == k * page && at + n + cnt * page <= |ring0|
    requires Moved(isTarget, bits, page, fb0, ring0, at, k, n, fb1, ring1)
    requires RunAt(Drop(bits, k), p, cnt)
    requires p * page + cnt * page <= |fb1| == |fb0| && |ring1| == |ring0|
    requires isTarget ==> ring2 == ring1 && fb2 == Patch(fb1, p * page, ring1[at + n..at + n + cnt * page])
    requires !isTarget ==> fb2 == fb1 && ring2 == Patch(ring1, at + n, fb1[p * page..p * page + cnt * page])
    ensures Moved(isTarget, bits, page, fb0, ring0, at, k + cnt, n + cnt * page, fb2, ring2)
  {
    if isTarget {
      MovedTarget(bits, page, fb0, ring0, at, k, n, p, cnt);
    } else {
      MovedSource(bits, page, fb0, ring0, at, k, n, p, cnt);
    }
  }

  lemma MovedTarget(bits: seq<bool>, page: nat, fb0: seq<byte>, ring0: seq<byte>, at: nat, k: nat, n: nat, p: nat, cnt: nat)
    requires FbOk(fb0, bits, page) && page > 0 && n == k * page && at + n + cnt * page <= |ring0|
    requires RunAt(Drop(bits, k), p, cnt) && p * page + cnt * page <= |fb0|
    ensures Apply(bits, fb0, page, ring0[at..at + (n + cnt * page)])
            == Patch(Apply(bits, fb0, page, ring0[at..at + n]), p * page, ring0[at + n..at + n + cnt * page])
  {
    var m := cnt * page;
    BatchApply(bits, fb0, page, k, p, cnt, ring0[at..at + n], ring0[at + n..at + n + m]);
    assert ring0[at..at + n] + ring0[at + n..at + n + m] == ring0[at..at + (n + m)];
  }

  lemma MovedSource(bits: seq<bool>, page: nat, fb0: seq<byte>, ring0: seq<byte>, at: nat, k: nat, n: nat, p: nat, cnt: nat)
    requires FbOk(fb0, bits, page) && at + n + cnt * page <= |ring0| && |Stream(bits, fb0, page, k)| == n
    requires RunAt(Drop(bits, k), p, cnt) && p * page + cnt * page <= |fb0|
    ensures |Stream(bits, fb0, page, k + cnt)| == n + cnt * page
    ensures Patch(Patch(ring0, at, Stream(bits, fb0, page, k)), at + n, fb0[p * page..p * page + cnt * page])
            == Patch(ring0, at, Stream(bits, fb0, page, k + cnt))
  {
    BatchStream(bits, fb0, page, k, p, cnt);
    PatchTwice(ring0, at, Stream(bits, fb0, page, k), fb0[p * page..p * page + cnt * page]);
  }

  lemma MovedEmits(c: Cfg, s: Side, fb0: seq<byte>, ring0: seq<byte>, at: nat, len: nat, k: nat,
                   n: nat, done: bool, msg: seq<byte>, fb: seq<byte>, ring: seq<byte>)
    requires s.Ok(c) && s.copied == |s.msg| && |fb0| == c.bits * c.page && Mult(len, c.page) && at + len <= |ring0| && n <= len
    requires Mult(n, c.page) && k == Quot(n, c.page)
    requires Moved(false, BitmapOf(c, s.msg), c.page, fb0, ring0, at, k, n, fb, ring)
    requires done == Empty(Drop(BitmapOf(c, s.msg), k)) && (!done ==> n == len)
    requires msg == if done then Zeros(c.MsgSize()) else DropMsg(c, s.msg, k)
    ensures fb == fb0 && FbEmitted(c, s, fb, ring0, at, len, n, done, msg, ring)
  {
    hide EmitMany, Cfg.MsgSize, BitmapOf, Cfg.Granularity, Pow2, SourceReady;
    QuotSum(n, len - n, c.page);
    EmitStops(c, s, fb0, k, Quot(len, c.page));
  }

  lemma MovedAbsorbs(c: Cfg, t: Target, ring0: seq<byte>, at: nat, len: nat, k: nat,
                     n: nat, done: bool, msg: seq<byte>, fb: seq<byte>, ring: seq<byte>)
    requires t.Ok(c) && t.side.copied == |t.side.msg| && at + len <= |ring0| && n <= len
    requires Mult(n, c.page) && k == Quot(n, c.page) <= Count(BitmapOf(c, t.side.msg))
    requires Moved(true, BitmapOf(c, t.side.msg), c.page, t.fb, ring0, at, k, n, fb, ring)
    requires done == Empty(Drop(BitmapOf(c, t.side.msg), k)) && (!done ==> n == len)
    requires msg == if done then Zeros(c.MsgSize()) else DropMsg(c, t.side.msg, k)
    ensures ring == ring0 && FbAbsorbed(c, t, ring[at..at + len], n, done, msg, fb)
  {
    hide AbsorbMany, Cfg.MsgSize, BitmapOf, Cfg.Granularity, Pow2, Side.Exhausted;
    var data := ring0[at..at + len];
    assert data[..n] == ring0[at..at + n];
    AbsorbStops(c, t, data, n);
  }

  lemma TimesSum(a: nat, b: nat, m: nat)
    ensures (a + b) * m == a * m + b * m
  {
  }

  lemma BatchCounts(bits: seq<bool>, page: nat, k: nat, n: nat, left: nat, p: nat, cnt: nat)
    requires page > 0 && k <= Count(bits) && RunAt(Drop(bits, k), p, cnt)
    requires Mult(n, page) && Mult(left, page) && k == Quot(n, page) && n == k * page && cnt * page <= left
    ensures k + cnt <= Count(bits)
    ensures var m := cnt * page;
            && Mult(n + m, page) && Quot(n + m, page) == k + cnt && n + m == (k + cnt) * page
            && Mult(left - m, page) && Quot(left - m, page) == Quot(left, page) - cnt
  {
    hide Mult, Quot, Drop, RunAt;
    var m := cnt * page;
    RunDrop(Drop(bits, k), p, cnt);
    DropCount(bits, k);
    TimesSum(k, cnt, page);
    MultTimes(cnt, page);
    MultSum(n, m, page);
    QuotSum(n, m, page);
    MultDiff(left, m, page);
    QuotSum(m, left - m, page);
  }

  lemma ClearedBits(c: Cfg, msg: seq<byte>, p: nat, cnt: nat)
    requires c.Valid() && |msg| == c.MsgSize() && RunAt(BitmapOf(c, msg), p, cnt)
    ensures Below(p + cnt, BitmapOf(c, ClearMsgRange(c, msg, p, cnt)))
  {
    assert DropMsg(c, msg, 0) == msg;
    BatchBits(c, msg, 0, p, cnt);
  }

  ghost predicate Below(pos: nat, bits: seq<bool>) {
    forall i :: 0 <= i < pos && i < |bits| ==> !bits[i]
  }
}
