/** Building a log of blocks, relocating cached logs, and collecting them into one file (amdgv_diag_data.c). */
module DiagFile {
  import opened Arith
  import opened Bytes
  import opened DiagRing
  import opened DiagBlocks

  /** amd_sriov_msg_checksum with key and checksum 0. */
  method Checksum(data: array<byte>, at: nat, len: nat) returns (sum: u32)
    requires at + len <= data.Length
    ensures sum == ByteSum(data[at..at + len]) % TWO32
  {
    sum := 0;
    var i := 0;
    while i < len
      invariant i <= len && sum == ByteSum(data[at..at + i]) % TWO32
    {
      assert data[at..at + (i + 1)][..i] == data[at..at + i];
      sum := (sum + data[at + i]) % TWO32;
      i := i + 1;
    }
  }

  method WriteBytes(dst: array<byte>, at: nat, data: seq<byte>)
    requires at + |data| <= dst.Length
    modifies dst
    ensures dst[..] == Patch(old(dst[..]), at, data)
  {
    forall i | 0 <= i < |data| {
      dst[at + i] := data[i];
    }
  }

  predicate Sum(b: Block) {
    b.checksum == ByteSum(b.data) % TWO32
  }

  /** struct amdgv_diag_data_file_info with the buffer it describes. */
  class DiagFile {
    const buff: array<byte>
    const size: nat
    var cur: nat
    var last: nat
    ghost var blocks: seq<Block>

    ghost predicate Valid()
      reads this, buff
    {
      && size <= buff.Length && size < TWO32 && cur <= size
      && AllOk(blocks) && cur == Size(blocks) && buff[..cur] == Encode(blocks, 0)
      && (blocks != [] ==> last == Size(blocks[..|blocks| - 1]))
    }

    constructor (buff: array<byte>, size: nat)
      requires size <= buff.Length && size < TWO32
      ensures Valid() && blocks == [] && this.buff == buff && this.size == size
    {
      this.buff, this.size, cur, last, blocks := buff, size, 0, 0, [];
    }

    /** What the header generator checks: some data, no 32-bit overflow, room for header and data. */
    predicate HasRoom(len: nat)
      reads this
    {
      len > 0 && len + HDR < TWO32 && len + HDR <= size - cur
    }

    lemma RoomIs(len: nat)
      ensures HasRoom(len) <==> 0 < len && len + 64 < TWO32 && cur + 64 + len <= size
    {
    }

    /** amdgv_diag_data_gen_blk_file_hdr */
    method GenBlkFileHdr(id: u32, stamp: seq<u32>, flags: u32, checksum: u32, len: u32) returns (ok: bool)
      requires cur <= size <= buff.Length && size < TWO32 && |stamp| == STAMP
      modifies this`cur, this`last, buff
      ensures ok == old(HasRoom(len))
      ensures if ok then
                cur == old(cur) + HDR && last == old(cur)
                && buff[..] == Patch(old(buff[..]), old(cur), WordBytes(Words(id, stamp, flags, checksum, len, old(cur))))
              else cur == old(cur) && last == old(last) && buff[..] == old(buff[..])
    {
      if len == 0 || len > (len + HDR) % TWO32 || len + HDR > size - cur {
        return false;
      }
      WriteBytes(buff, cur, WordBytes(Words(id, stamp, flags, checksum, len, cur)));
      last := cur;
      cur := cur + HDR;
      ok := true;
    }

    /** amdgv_diag_data_add_blk: header and data of one more block. */
    method AddBlk(id: u32, stamp: seq<u32>, flags: u32, mem: array<byte>, used: u32) returns (ok: bool)
      requires Valid() && |stamp| == STAMP && mem != buff
      modifies this, buff
      ensures Valid()
      ensures ok == (0 < used <= mem.Length && used + 64 < TWO32 && old(cur) + 64 + used <= size)
      ensures blocks == if ok then old(blocks) + [Block(id, stamp, flags, ByteSum(mem[..used]) % TWO32, mem[..used])] else old(blocks)
      ensures !ok ==> buff[..] == old(buff[..])
    {
      hide Encode, Patch, Words, WordBytes, ByteSum, Size;
      if used > mem.Length {
        return false;
      }
      var checksum := Checksum(mem, 0, used);
      ghost var f0, c0 := buff[..], cur;
      ok := GenBlkFileHdr(id, stamp, flags, checksum, used);
      if ok {
        CopyBytes(buff, cur, mem, 0, used);
        cur := cur + used;
        Appended(f0, c0, blocks, Block(id, stamp, flags, checksum, mem[..used]), buff[..]);
        blocks := blocks + [Block(id, stamp, flags, checksum, mem[..used])];
      }
    }

    /** amdgv_diag_data_add_blk_without_hdr: more data for the block added last. */
    method AddBlkWithoutHdr(mem: array<byte>, used: u32, genCksum: bool) returns (ok: bool)
      requires Valid() && blocks != [] && mem != buff
      modifies this, buff
      ensures Valid()
      ensures ok == (0 < used <= mem.Length && used <= size - old(cur))
      ensures var n := old(|blocks|) - 1;
              var data := old(blocks)[n].data + mem[..if ok then used else 0];
              blocks == if ok then old(blocks)[..n]
                                   + [old(blocks)[n].(data := data, checksum := if genCksum then ByteSum(data) % TWO32 else old(blocks)[n].checksum)]
                        else old(blocks)
      ensures !ok ==> buff[..] == old(buff[..])
    {
      hide Encode, Patch, WordBytes, ByteSum, U32Bytes, U32At, Size;
      if used == 0 || used > mem.Length || used > size - cur {
        return false;
      }
      ghost var f0, c0, bs, b := buff[..], cur, blocks[..|blocks| - 1], blocks[|blocks| - 1];
      Snoc(blocks);
      CopyBytes(buff, cur, mem, 0, used);
      cur := cur + used;
      ghost var f1 := buff[..];
      PatchKeepsPrefix(f0, c0, mem[..used]);
      LastHeader(f1, c0, bs, b);
      var blockSize := HeaderWord(2);
      var next := HeaderWord(6);
      WriteBytes(buff, last + 8, U32Bytes(blockSize + used));
      WriteBytes(buff, last + 24, U32Bytes(next + used));
      ghost var f3 := buff[..];
      ghost var sum := b.checksum;
      if genCksum {
        var checksum := Checksum(buff, cur - (blockSize + used), blockSize + used);
        ExtendedData(f0, last, c0, bs, b, mem[..used], f1, f3);
        WriteBytes(buff, last + 28, U32Bytes(checksum));
        sum := checksum;
      }
      Extended(f0, last, c0, bs, b, mem[..used], sum, genCksum, f1, f3, buff[..]);
      blocks := bs + [b.(data := b.data + mem[..used], checksum := sum)];
      ok := true;
    }

    /** memcpy to the current offset. */
    method Emit(mem: array<byte>, from: nat, n: nat)
      requires mem != buff && from + n <= mem.Length && cur + n <= buff.Length
      modifies this`cur, buff
      ensures cur == old(cur) + n && buff[..] == Patch(old(buff[..]), old(cur), mem[..][from..from + n])
    {
      CopyBytes(buff, cur, mem, from, n);
      assert mem[from..from + n] == mem[..][from..from + n];
      cur := cur + n;
    }

    /** amdgv_diag_data_copy: the ring in order, kept entries first. */
    method Copy(mem: array<byte>, entrySize: nat, total: nat, w: nat, keep: nat)
      requires mem != buff && keep < total && total * entrySize <= mem.Length
      requires cur + RingUsed(entrySize, total, w) <= buff.Length
      modifies this`cur, buff
      ensures |LinearBytes(mem[..], entrySize, total, w, keep)| == RingUsed(entrySize, total, w)
      ensures cur == old(cur) + RingUsed(entrySize, total, w)
      ensures buff[..] == Patch(old(buff[..]), old(cur), LinearBytes(mem[..], entrySize, total, w, keep))
    {
      hide KeepIndex, RbIndex, Patch, LinearBytes, RingBytes;
      LinearSize(mem[..], entrySize, total, w, keep);
      if w == 0 {
        NoEntries(mem[..], entrySize, total, keep);
        PatchEmpty(buff[..], cur);
      } else if w <= total {
        AllEntries(mem[..], entrySize, total, w, keep);
        Emit(mem, 0, w * entrySize);
      } else {
        var i := if keep > 0 then KeepIndex(w, total, keep) else RbIndex(w, total);
        var kept, oldest, newest := WrappedParts(mem[..], entrySize, total, w, keep, i);
        ghost var f0 := buff[..];
        if keep > 0 {
          Emit(mem, 0, keep * entrySize);
        } else {
          PatchEmpty(buff[..], cur);
          assert kept == [];
        }
        Emit(mem, i * entrySize, (total - i) * entrySize);
        Emit(mem, keep * entrySize, (i - keep) * entrySize);
        PatchTwice(f0, old(cur), kept, oldest);
        PatchTwice(f0, old(cur), kept + oldest, newest);
      }
    }

    /** amdgv_diag_data_add_ring_buffer: a ring log as one block. */
    method AddRingBuffer(id: u32, stamp: seq<u32>, flags: u32, mem: array?<byte>, entrySize: nat, total: nat, w: nat, keep: nat) returns (ok: bool)
      requires Valid() && |stamp| == STAMP && keep < total && entrySize > 0 && total * entrySize < TWO32
      requires mem != null ==> mem != buff && total * entrySize <= mem.Length
      modifies this, buff
      ensures ok == (w == 0 || old(HasRoom(RingUsed(entrySize, total, w))))
      ensures w == 0 || !ok ==> Valid() && blocks == old(blocks) && buff[..] == old(buff[..])
      ensures mem != null && w > 0 && ok ==>
                && Valid() && |blocks| == old(|blocks|) + 1 && blocks[..|blocks| - 1] == old(blocks)
                && var b := blocks[|blocks| - 1];
                && b.id == id && b.stamp == stamp && b.flags == flags && Sum(b)
                && b.data == LinearBytes(mem[..], entrySize, total, w, keep)
      ensures mem == null && w > 0 && ok ==>
                && cur == old(cur) + HDR && cur <= buff.Length
                && WordAt(buff[..], old(cur), 6) == cur + RingUsed(entrySize, total, w) > cur
                && Walk(buff[..cur], old(cur)) == []
    {
      hide LinearBytes, Patch, Encode, ByteSum, Words, WordBytes, WordAt, Size, RingUsed, HasRoom, Walk;
      if w == 0 {
        return true;
      }
      RingUsedFits(entrySize, total, w);
      var used := RingUsed(entrySize, total, w);
      RoomIs(used);
      var checksum: u32 := 0;
      if mem != null {
        checksum := Checksum(mem, 0, used);
      }
      ghost var f0, c0 := buff[..], cur;
      ok := GenBlkFileHdr(id, stamp, flags, checksum, used);
      if ok && mem != null {
        CopyRing(id, stamp, flags, checksum, mem, entrySize, total, w, keep, f0);
      } else if ok {
        HeaderInPlace(f0, c0, id, stamp, flags, checksum, used);
        WalkCut(buff[..], c0, cur);
      }
    }

    /** The ring's bytes behind the header just written. */
    method CopyRing(id: u32, stamp: seq<u32>, flags: u32, checksum: u32, mem: array<byte>, entrySize: nat, total: nat, w: nat, keep: nat, ghost f0: seq<byte>)
      requires |stamp| == STAMP && keep < total && entrySize > 0 && w > 0 && mem != buff && total * entrySize <= mem.Length
      requires size <= buff.Length && size < TWO32 && AllOk(blocks) && cur == Size(blocks) + HDR && last == Size(blocks)
      requires 0 < RingUsed(entrySize, total, w) <= size - cur && |f0| == buff.Length && f0[..last] == Encode(blocks, 0)
      requires RingUsed(entrySize, total, w) <= mem.Length && checksum == ByteSum(mem[0..0 + RingUsed(entrySize, total, w)]) % TWO32
      requires buff[..] == Patch(f0, last, WordBytes(Words(id, stamp, flags, checksum, RingUsed(entrySize, total, w), last)))
      modifies this, buff
      ensures Valid() && |blocks| == old(|blocks|) + 1 && blocks[..|blocks| - 1] == old(blocks)
      ensures var b := blocks[|blocks| - 1];
              b.id == id && b.stamp == stamp && b.flags == flags && Sum(b) && b.data == LinearBytes(mem[..], entrySize, total, w, keep)
    {
      hide LinearBytes, Patch, Encode, ByteSum, Words, WordBytes, Size, RingUsed;
      ghost var used := RingUsed(entrySize, total, w);
      RingChecksum(mem[..], entrySize, total, w, keep);
      assert mem[0..0 + used] == mem[..][..used];
      Copy(mem, entrySize, total, w, keep);
      ghost var b := Block(id, stamp, flags, checksum, LinearBytes(mem[..], entrySize, total, w, keep));
      Appended(f0, last, blocks, b, buff[..]);
      blocks := blocks + [b];
    }

    /** Word i of the last block's header. */
    method HeaderWord(i: nat) returns (v: u32)
      requires last + 4 * i + 4 <= buff.Length
      ensures v == WordAt(buff[..], last, i)
    {
      v := U32At(buff[..], last + 4 * i);
    }
  }

  /** Data appended behind the last block, whose header is updated in place, extends that block. */
  lemma Extended(f0: seq<byte>, last: nat, cur: nat, bs: seq<Block>, b: Block, more: seq<byte>, sum: u32, gen: bool,
                 f1: seq<byte>, f3: seq<byte>, f: seq<byte>)
    requires AllOk(bs) && b.Ok() && last == Size(bs) && cur == last + HDR + |b.data| && cur + |more| < TWO32 && cur + |more| <= |f0|
    requires f0[..cur] == Encode(bs + [b], 0) && f1 == Patch(f0, cur, more)
    requires f3 == Patch(Patch(f1, last + 8, U32Bytes(|b.data| + |more|)), last + 24, U32Bytes(cur + |more|))
    requires if gen then f == Patch(f3, last + 28, U32Bytes(sum)) else f == f3 && sum == b.checksum
    ensures var b1 := b.(data := b.data + more, checksum := sum);
            && b1.Ok() && AllOk(bs + [b1]) && Size(bs + [b1]) == cur + |more| && f[..cur + |more|] == Encode(bs + [b1], 0)
            && (bs + [b1])[..|bs + [b1]| - 1] == bs
  {
    hide Encode, Size, WordBytes, Patch, U32Bytes;
    var b1 := b.(data := b.data + more, checksum := sum);
    EncodeSnoc(bs, b, 0);
    EncodeSnoc(bs, b1, 0);
    var p, w, w3, t := SplitHeader(f0, last, cur, bs, b, more, f1, f3);
    PatchHeader(p, w3, t, 7, sum);
    assert w3[7 := b.checksum] == w3;
    assert HeaderOf(b1, last) == w3[7 := sum];
    JoinFile(p, WordBytes(HeaderOf(b1, last)), b.data, more, f0[cur + |more|..]);
  }

  /** The file as prefix, last header and tail, before and after size and next offset were updated. */
  lemma SplitHeader(f0: seq<byte>, last: nat, cur: nat, bs: seq<Block>, b: Block, more: seq<byte>, f1: seq<byte>, f3: seq<byte>)
    returns (p: seq<byte>, w: seq<u32>, w3: seq<u32>, t: seq<byte>)
    requires AllOk(bs) && b.Ok() && last == Size(bs) && cur == last + HDR + |b.data| && cur + |more| < TWO32 && cur + |more| <= |f0|
    requires f0[..cur] == Encode(bs + [b], 0) && f1 == Patch(f0, cur, more)
    requires f3 == Patch(Patch(f1, last + 8, U32Bytes(|b.data| + |more|)), last + 24, U32Bytes(cur + |more|))
    ensures p == Encode(bs, 0) && w == HeaderOf(b, last) && t == b.data + more + f0[cur + |more|..]
    ensures |w| == |w3| == 16 && w3 == Words(b.id, b.stamp, b.flags, b.checksum, |b.data| + |more|, last)
    ensures f1 == p + WordBytes(w) + t && f3 == p + WordBytes(w3) + t
  {
    hide Encode, Size, WordBytes, Patch, U32Bytes;
    EncodeSnoc(bs, b, 0);
    p, w, t := Encode(bs, 0), HeaderOf(b, last), b.data + more + f0[cur + |more|..];
    SplitFile(f0, cur, p, WordBytes(w), b.data, more);
    PatchHeader(p, w, t, 2, |b.data| + |more|);
    PatchHeader(p, w[2 := |b.data| + |more|], t, 6, cur + |more|);
    w3 := w[2 := |b.data| + |more|][6 := cur + |more|];
  }

  /** The bytes the new checksum is taken over. */
  lemma ExtendedData(f0: seq<byte>, last: nat, cur: nat, bs: seq<Block>, b: Block, more: seq<byte>, f1: seq<byte>, f3: seq<byte>)
    requires AllOk(bs) && b.Ok() && last == Size(bs) && cur == last + HDR + |b.data| && cur + |more| < TWO32 && cur + |more| <= |f0|
    requires f0[..cur] == Encode(bs + [b], 0) && f1 == Patch(f0, cur, more)
    requires f3 == Patch(Patch(f1, last + 8, U32Bytes(|b.data| + |more|)), last + 24, U32Bytes(cur + |more|))
    ensures last + HDR <= cur + |more| <= |f3| && f3[last + HDR..cur + |more|] == b.data + more
  {
    hide Encode, Size, WordBytes, Patch, U32Bytes;
    var p, w, w3, t := SplitHeader(f0, last, cur, bs, b, more, f1, f3);
    var h, d := WordBytes(w3), b.data + more;
    assert f3 == (p + h) + (d + f0[cur + |more|..]);
    assert |p + h| == last + HDR;
  }

  lemma RingUsedFits(size: nat, total: nat, w: nat)
    requires 0 < size && 0 < w && total * size < TWO32 && 0 < total
    ensures 0 < RingUsed(size, total, w) <= total * size
  {
    if w <= total {
      MulMono(w, total, size);
      MulMono(1, w, size);
    } else {
      MulMono(1, total, size);
    }
  }

  lemma NoEntries(mem: seq<byte>, size: nat, total: nat, keep: nat)
    requires keep < total && total * size <= |mem|
    ensures LinearBytes(mem, size, total, 0, keep) == []
  {
  }

  lemma AllEntries(mem: seq<byte>, size: nat, total: nat, w: nat, keep: nat)
    requires keep < total && total * size <= |mem| && w <= total
    ensures w * size <= |mem| && LinearBytes(mem, size, total, w, keep) == mem[0..0 + w * size]
  {
    MulMono(w, total, size);
  }

  lemma WrappedParts(mem: seq<byte>, size: nat, total: nat, w: nat, keep: nat, i: nat) returns (a: seq<byte>, b: seq<byte>, c: seq<byte>)
    requires keep < total < w && total * size <= |mem| && i == if keep > 0 then KeepIndex(w, total, keep) else RbIndex(w, total)
    ensures keep <= i < total && (total - i) * size >= 0 && (i - keep) * size >= 0
    ensures keep * size <= |mem| && a == mem[0..0 + keep * size]
    ensures i * size + (total - i) * size <= |mem| && b == mem[i * size..i * size + (total - i) * size]
    ensures keep * size + (i - keep) * size <= |mem| && c == mem[keep * size..keep * size + (i - keep) * size]
    ensures LinearBytes(mem, size, total, w, keep) == a + b + c
  {
    hide KeepIndex, RbIndex, RingBytes;
    IndexIsModulo(w, total);
    RingSlice(mem, size, total, 0, keep);
    RingSlice(mem, size, total, i, total);
    RingSlice(mem, size, total, keep, i);
    a, b, c := RingBytes(mem, size, total, 0, keep), RingBytes(mem, size, total, i, total), RingBytes(mem, size, total, keep, i);
  }

  lemma RingSlice(mem: seq<byte>, size: nat, total: nat, a: nat, b: nat)
    requires a <= b <= total && total * size <= |mem|
    ensures (b - a) * size >= 0 && a * size + (b - a) * size <= |mem|
    ensures RingBytes(mem, size, total, a, b) == mem[a * size..a * size + (b - a) * size]
  {
    MulMono(a, b, size);
    MulMono(b, total, size);
    assert (b - a) * size == b * size - a * size;
  }

  /** The checksum taken over the raw memory is right for the bytes as they stand in the file. */
  lemma RingChecksum(mem: seq<byte>, size: nat, total: nat, w: nat, keep: nat)
    requires keep < total && total * size <= |mem|
    ensures RingUsed(size, total, w) <= |mem|
    ensures ByteSum(LinearBytes(mem, size, total, w, keep)) == ByteSum(mem[..RingUsed(size, total, w)])
  {
    LinearSize(mem, size, total, w, keep);
    if w <= total {
      AllEntries(mem, size, total, w, keep);
    } else {
      LinearKeepsChecksum(mem, size, total, w, keep);
    }
  }

  lemma HeaderInPlace(f0: seq<byte>, at: nat, id: u32, stamp: seq<u32>, flags: u32, checksum: u32, len: nat)
    requires |stamp| == STAMP && at + HDR + len < TWO32 && at + HDR + len <= |f0|
    ensures var f := Patch(f0, at, WordBytes(Words(id, stamp, flags, checksum, len, at))); WordAt(f, at, 6) == at + HDR + len
  {
    hide WordBytes, WordAt;
    var w := Words(id, stamp, flags, checksum, len, at);
    HeaderWordsAt(Patch(f0, at, WordBytes(w)), at, w);
  }

  /** In a file that ends behind a header whose block does not, a reader finds no block there. */
  lemma WalkCut(f: seq<byte>, at: nat, end: nat)
    requires end == at + HDR <= |f| && WordAt(f, at, 6) > end
    ensures Walk(f[..end], at) == []
  {
    assert f[..end][at + 24..at + 28] == f[at + 24..at + 28];
  }

  /** What the last header says before it is updated. */
  lemma LastHeader(f: seq<byte>, cur: nat, bs: seq<Block>, b: Block)
    requires AllOk(bs) && b.Ok() && cur == Size(bs + [b]) < TWO32 && cur <= |f| && f[..cur] == Encode(bs + [b], 0)
    ensures cur == Size(bs) + HDR + |b.data|
    ensures WordAt(f, Size(bs), 2) == |b.data| && WordAt(f, Size(bs), 6) == cur
  {
    hide Encode, Size, WordBytes, WordAt;
    SizeConcat(bs, [b]);
    SizeSingle(b);
    EncodeSnoc(bs, b, 0);
    var last := Size(bs);
    var x, h := Encode(bs, 0), WordBytes(HeaderOf(b, last));
    assert f[..cur] == x + (h + b.data);
    assert f[last..last + HDR] == f[..cur][last..last + HDR] == h by { SubSlice(f, 0, cur, last, last + HDR); }
    HeaderWordsAt(f, last, HeaderOf(b, last));
  }

  lemma SplitFile(f0: seq<byte>, cur: nat, p: seq<byte>, h: seq<byte>, d: seq<byte>, more: seq<byte>)
    requires cur + |more| <= |f0| && cur == |p| + |h| + |d| && f0[..cur] == p + (h + d)
    ensures Patch(f0, cur, more) == p + h + (d + more + f0[cur + |more|..])
  {
  }

  lemma JoinFile(p: seq<byte>, h: seq<byte>, d: seq<byte>, more: seq<byte>, t: seq<byte>)
    ensures (p + h + (d + more + t))[..|p| + |h| + |d| + |more|] == p + (h + (d + more))
  {
  }

  /** Header and data written behind a log extend it by one block. */
  lemma Appended(f0: seq<byte>, cur: nat, bs: seq<Block>, b: Block, f: seq<byte>)
    requires AllOk(bs) && b.Ok() && cur == Size(bs) && cur + HDR + |b.data| < TWO32 && cur + HDR + |b.data| <= |f0|
    requires f0[..cur] == Encode(bs, 0)
    requires f == Patch(Patch(f0, cur, WordBytes(HeaderOf(b, cur))), cur + HDR, b.data)
    ensures AllOk(bs + [b]) && Size(bs + [b]) == cur + HDR + |b.data|
    ensures f[..cur + HDR + |b.data|] == Encode(bs + [b], 0)
    ensures (bs + [b])[..|bs + [b]| - 1] == bs
  {
    hide Encode, Size, WordBytes, HeaderOf;
    EncodeSnoc(bs, b, 0);
    assert f[..cur + HDR + |b.data|] == f0[..cur] + (WordBytes(HeaderOf(b, cur)) + b.data);
  }
}
