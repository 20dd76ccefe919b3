/** Reading and writing guest memory through its chunks, page by page (gim_os_service.c). */
module GpaExchange {
  import opened Bytes
  import opened GpaMap

  const PAGE: nat := 4096

  /**
   * What the kernel answers: IOMMU translation (0 if unmapped), whether a frame is valid, and the folio a
   * physical address lies in.
   */
  datatype Mmu = Mmu(iova: nat -> nat, valid: nat -> bool, folio: nat -> nat, folioSize: nat -> nat) {
    predicate Fails(gpa: nat) {
      iova(gpa) == 0 || !valid(iova(gpa))
    }

    /** A valid frame lies inside its folio, and the folio inside memory. */
    ghost predicate Sane(size: nat) {
      forall a: nat :: valid(a) ==> folio(a) <= a < folio(a) + folioSize(a) <= size
    }
  }

  class GpaExchange {
    const phys: array<byte>
    const mmu: Mmu
    const gpaBase: nat
    const size: u32
    var chunks: seq<Chunk>

    constructor (phys: array<byte>, mmu: Mmu, gpaBase: nat, size: u32)
      ensures this.phys == phys && this.mmu == mmu && this.gpaBase == gpaBase && this.size == size && chunks == []
    {
      this.phys, this.mmu, this.gpaBase, this.size, chunks := phys, mmu, gpaBase, size, [];
    }

    /** The chunks partition the range: no gap, no overlap, every chunk where translation put its first byte. */
    ghost predicate Mapped()
      reads this
    {
      Sum(chunks) == size && Covers(mmu, gpaBase, chunks) && Inside(chunks, phys.Length)
    }

    /** gim_init_gpa_chunks */
    method InitGpaChunks() returns (ret: int)
      requires mmu.Sane(phys.Length)
      modifies this
      ensures ret == 0 ==> Mapped()
      ensures forall i :: 0 <= i < |chunks| ==> var a := mmu.iova(gpaBase + Sum(chunks[..i])); a != 0 && mmu.valid(a)
      ensures ret != 0 ==> ret == -1 && Sum(chunks) < size && Covers(mmu, gpaBase, chunks)
      ensures ret != 0 ==> var a := mmu.iova(gpaBase + Sum(chunks)); a == 0 || !mmu.valid(a)
    {
      hide Sum, Covers;
      var current, end := gpaBase, gpaBase + size;
      chunks := [];
      CoversNone(mmu, gpaBase);
      while current < end
        invariant Covers(mmu, gpaBase, chunks) && Inside(chunks, phys.Length)
        invariant if current < end then current == gpaBase + Sum(chunks) else Sum(chunks) == size
        invariant forall i :: 0 <= i < |chunks| ==> !mmu.Fails(gpaBase + Sum(chunks[..i]))
        decreases end - current
      {
        if mmu.Fails(current) {
          return -1;
        }
        var a := mmu.iova(current);
        var offset := a - mmu.folio(a);
        var chunkSize := mmu.folioSize(a) - offset;
        var chunk := Chunk(mmu.folio(a), offset, if current + chunkSize > end then end - current else chunkSize);
        CoversMore(mmu, gpaBase, chunks, chunk);
        ghost var before := chunks;
        chunks := chunks + [chunk];
        assert forall i :: 0 <= i <= |before| ==> chunks[..i] == before[..i];
        assert before[..|before|] == before;
        current := current + chunkSize;
      }
      ret := 0;
    }

    /** One block inside a page. */
    method CopyBlock(at: nat, buf: array<byte>, copied: nat, n: nat, isWrite: bool)
      requires buf != phys && at + n <= phys.Length && copied + n <= buf.Length
      modifies if isWrite then phys else buf
      ensures isWrite ==> phys[..] == Patch(old(phys[..]), at, buf[copied..copied + n])
      ensures !isWrite ==> buf[..] == Patch(old(buf[..]), copied, phys[at..at + n])
    {
      if isWrite {
        CopyBytes(phys, at, buf, copied, n);
      } else {
        CopyBytes(buf, copied, phys, at, n);
      }
    }

    /** The page loop inside one chunk: n bytes, a page at a time. */
    method CopyInChunk(c: Chunk, chunkOffset: nat, buf: array<byte>, copied: nat, n: nat, isWrite: bool)
      requires buf != phys && chunkOffset + n <= c.size && c.Base() + c.size <= phys.Length && copied + n <= buf.Length
      modifies if isWrite then phys else buf
      ensures isWrite ==> phys[..] == Patch(old(phys[..]), c.Base() + chunkOffset, buf[..][copied..copied + n])
      ensures !isWrite ==> buf[..] == Patch(old(buf[..]), copied, phys[..][c.Base() + chunkOffset..c.Base() + chunkOffset + n])
    {
      hide Patch;
      ghost var p0, b0 := phys[..], buf[..];
      var done := 0;
      PatchEmpty(p0, c.Base() + chunkOffset);
      PatchEmpty(b0, copied);
      NoSlice(b0, copied);
      NoSlice(p0, c.Base() + chunkOffset);
      while done < n
        invariant done <= n
        invariant isWrite ==> buf[..] == b0 && phys[..] == Patch(p0, c.Base() + chunkOffset, b0[copied..copied + done])
        invariant !isWrite ==> phys[..] == p0 && buf[..] == Patch(b0, copied, p0[c.Base() + chunkOffset..c.Base() + chunkOffset + done])
        decreases n - done
      {
        var mapOffset := c.offset + chunkOffset + done;
        var pageOffset := mapOffset % PAGE;
        var pageCopy := if n - done < PAGE - pageOffset then n - done else PAGE - pageOffset;
        ghost var p1, b1 := phys[..], buf[..];
        CopyBlock(c.folio + mapOffset, buf, copied + done, pageCopy, isWrite);
        if isWrite {
          assert buf[copied + done..copied + done + pageCopy] == b0[copied + done..copied + done + pageCopy];
          NextBlock(p0, c.Base() + chunkOffset, b0, copied, done, pageCopy);
        } else {
          assert phys[c.folio + mapOffset..c.folio + mapOffset + pageCopy] == p0[c.folio + mapOffset..c.folio + mapOffset + pageCopy];
          NextBlock(b0, copied, p0, c.Base() + chunkOffset, done, pageCopy);
        }
        done := done + pageCopy;
      }
    }

    /** gim_access_vf_sysmem_xchg; an access past the end stops there and reports failure. */
    method Access(buf: array<byte>, offset: u32, len: u32, isWrite: bool) returns (ret: int)
      requires Mapped() && buf != phys && len <= buf.Length
      modifies if isWrite then phys else buf
      ensures ret == if offset + len <= size || len == 0 then 0 else -1
      ensures Before(size, offset, len) == 0 || offset + Before(size, offset, len) <= Sum(chunks)
      ensures Accessed(isWrite, old(phys[..]), old(buf[..]), chunks, offset, Before(size, offset, len), phys[..], buf[..])
    {
      hide InAccess, Accessed, Inside, Sum;
      ghost var p0, b0 := phys[..], buf[..];
      var current, copied, i := 0, 0, 0;
      AccessFirst(isWrite, p0, b0, chunks, offset, len);
      var stop := false;
      while i < |chunks| && !stop
        invariant InAccess(isWrite, p0, b0, chunks, i, current, copied, offset, len, phys[..], buf[..])
        invariant i <= |chunks| && (stop ==> copied == len)
        decreases |chunks| - i
      {
        current, copied, stop := ChunkTurn(buf, i, current, copied, offset, len, isWrite, p0, b0);
        i := i + 1;
      }
      AccessLast(isWrite, p0, b0, chunks, i, current, copied, offset, len, phys[..], buf[..]);
      ret := if copied == len then 0 else -1;
    }

    /** One chunk of an access. */
    method ChunkTurn(buf: array<byte>, i: nat, current: nat, copied: nat, offset: u32, len: u32, isWrite: bool,
                     ghost p0: seq<byte>, ghost b0: seq<byte>) returns (next: nat, done: nat, stop: bool)
      requires InAccess(isWrite, p0, b0, chunks, i, current, copied, offset, len, phys[..], buf[..])
      requires i < |chunks| && chunks[i].size > 0 && buf != phys && len <= buf.Length
      modifies if isWrite then phys else buf
      ensures InAccess(isWrite, p0, b0, chunks, i + 1, next, done, offset, len, phys[..], buf[..])
      ensures stop ==> done == len
    {
      hide InAccess, Accessed, Inside, Sum, Patch;
      AccessFacts(isWrite, p0, b0, chunks, i, current, copied, offset, len, phys[..], buf[..]);
      var chunk := chunks[i];
      next, done, stop := current + chunk.size, copied, false;
      if next > offset {
        var chunkOffset := if current < offset then offset - current else 0;
        var available := chunk.size - chunkOffset;
        var copySize := if len - copied < available then len - copied else available;
        ghost var p, b := phys[..], buf[..];
        CopyInChunk(chunk, chunkOffset, buf, copied, copySize, isWrite);
        done := copied + copySize;
        stop := done >= len;
        AccessNext(isWrite, p0, b0, chunks, i, current, copied, offset, len, p, b, copySize, phys[..], buf[..]);
      } else {
        AccessSkip(isWrite, p0, b0, chunks, i, current, copied, offset, len, phys[..], buf[..]);
      }
    }

    /** gim_vf_sysmem_xchg_gpa_to_spa: where a chunk starts in physical memory, and its size. */
    method GpaToSpa(i: u32) returns (ret: int, base: nat, len: nat)
      requires Mapped()
      ensures ret == if i < |chunks| then 0 else -1
      ensures ret == 0 ==>
                && base == mmu.iova(gpaBase + Sum(chunks[..i])) && len > 0
                && Sum(chunks[..i]) + len <= size && base + len <= phys.Length
    {
      hide Sum;
      ret, base, len := -1, 0, 0;
      if i < |chunks| {
        SumPrefix(chunks, i);
        ret, base, len := 0, chunks[i].folio + chunks[i].offset, chunks[i].size;
      }
    }

    /** The wrappers' range check, in 32 bits, before the access. */
    method Checked(buf: array<byte>, offset: u32, len: u32, isWrite: bool) returns (ret: int)
      requires Mapped() && buf != phys && len <= buf.Length
      modifies if isWrite then phys else buf
      ensures ret == if Refused(size, offset, len) || (offset + len > size && len > 0) then -1 else 0
      ensures Moved(size, offset, len) == 0 || offset + Moved(size, offset, len) <= Sum(chunks)
      ensures Moved(size, offset, len) > 0 && isWrite ==>
                && buf[..] == old(buf[..])
                && phys[..] == WriteFlat(old(phys[..]), chunks, offset, buf[..Moved(size, offset, len)])
      ensures Moved(size, offset, len) > 0 && !isWrite ==>
                && phys[..] == old(phys[..])
                && buf[..] == Patch(old(buf[..]), 0, ReadFlat(phys[..], chunks, offset, Moved(size, offset, len)))
      ensures Moved(size, offset, len) == 0 ==> phys[..] == old(phys[..]) && buf[..] == old(buf[..])
    {
      hide Covers, Inside, Sum, WriteFlat, ReadFlat, Patch;
      if (offset + len) % TWO32 > size {
        return -1;
      }
      ret := Access(buf, offset, len, isWrite);
    }
  }

  // ---- what the range check lets through ----

  predicate Refused(size: u32, offset: u32, len: u32) {
    (offset + len) % TWO32 > size
  }

  /** How many bytes a checked access moves. */
  function Moved(size: u32, offset: u32, len: u32): (m: nat)
    ensures m <= len
  {
    if Refused(size, offset, len) then 0 else Before(size, offset, len)
  }

  /** The sum of offset and length passes 2^32 and comes out small, and the offset itself is in range. */
  predicate Wraps(size: u32, offset: u32, len: u32) {
    offset < size && (offset + len) % TWO32 <= size < offset + len
  }

  /** All of it if the range holds it, the rest of the range if the check wraps, and otherwise nothing. */
  lemma MovedIs(size: u32, offset: u32, len: u32)
    ensures Moved(size, offset, len) ==
            if offset + len <= size then len else if Wraps(size, offset, len) then size - offset else 0
  {
  }

  /** No memory and no buffer is changed by an access that fails. */
  ghost predicate FailsCleanly(isWrite: bool, cs: seq<Chunk>, size: u32, offset: u32, len: u32, memory: nat)
    requires Inside(cs, memory) && Sum(cs) == size
  {
    forall p0: seq<byte>, b0: seq<byte>, p: seq<byte>, b: seq<byte> ::
      |p0| == memory && |b0| == len && AccessedBytes(isWrite, p0, b0, cs, offset, Moved(size, offset, len), p, b) ==> p == p0 && b == b0
  }

  ghost predicate AccessedBytes(isWrite: bool, p0: seq<byte>, b0: seq<byte>, cs: seq<Chunk>, offset: nat, m: nat, p: seq<byte>, b: seq<byte>) {
    Inside(cs, |p0|) && (m == 0 || offset + m <= Sum(cs)) && m <= |b0| && Accessed(isWrite, p0, b0, cs, offset, m, p, b)
  }

  /** A failing access leaves everything as it was, whatever is in memory and in the buffer, iff the check does not wrap. */
  lemma FailsCleanlyIff(isWrite: bool, cs: seq<Chunk>, size: u32, offset: u32, len: u32, memory: nat)
    requires Inside(cs, memory) && Sum(cs) == size && offset + len > size && len > 0
    ensures FailsCleanly(isWrite, cs, size, offset, len, memory) <==> !Wraps(size, offset, len)
  {
    hide Inside, Sum, Accessed, WriteFlat, ReadFlat, Refused;
    var m := Moved(size, offset, len);
    MovedIs(size, offset, len);
    if Wraps(size, offset, len) {
      var p0: seq<byte> := seq(memory, _ => if isWrite then 0 else 1);
      var b0: seq<byte> := seq(len, _ => if isWrite then 1 else 0);
      SomethingMoves(isWrite, p0, b0, cs, offset, m);
    } else {
      NothingMoves();
    }
  }

  lemma NothingMoves()
    ensures forall isWrite: bool, p0: seq<byte>, b0: seq<byte>, cs: seq<Chunk>, offset: nat, p: seq<byte>, b: seq<byte> ::
              AccessedBytes(isWrite, p0, b0, cs, offset, 0, p, b) ==> p == p0 && b == b0
  {
    hide Inside, Sum;
  }

  lemma SomethingMoves(isWrite: bool, p0: seq<byte>, b0: seq<byte>, cs: seq<Chunk>, offset: nat, m: nat)
    requires Inside(cs, |p0|) && 0 < m <= |b0| && offset + m <= Sum(cs)
    requires forall i, j :: 0 <= i < |p0| && 0 <= j < |b0| ==> p0[i] != b0[j]
    ensures exists p: seq<byte>, b: seq<byte> :: AccessedBytes(isWrite, p0, b0, cs, offset, m, p, b) && (p != p0 || b != b0)
  {
    hide Inside, Sum, WriteFlat, ReadFlat;
    if isWrite {
      var p := WriteFlat(p0, cs, offset, b0[..m]);
      ReadAt(p0, cs, offset, m, m - 1);
      WrittenAt(p0, cs, offset, b0[..m], m - 1);
      assert p[Loc(cs, offset, m - 1)] == b0[m - 1] != p0[Loc(cs, offset, m - 1)];
      assert AccessedBytes(isWrite, p0, b0, cs, offset, m, p, b0);
    } else {
      var b := Patch(b0, 0, ReadFlat(p0, cs, offset, m));
      ReadAt(p0, cs, offset, m, 0);
      assert b[0] == p0[Loc(cs, offset, 0)] != b0[0];
      assert AccessedBytes(isWrite, p0, b0, cs, offset, m, p0, b);
    }
  }

  /** One such access: a page of guest memory, and a length that passes the check with 0x100 for the end. */
  lemma WrappingAccess()
    ensures !Refused(0x1000, 0x800, 0xffff_f900) && Wraps(0x1000, 0x800, 0xffff_f900) && Moved(0x1000, 0x800, 0xffff_f900) == 0x800
  {
  }

  /** How much of an access lies before offset `cur` of the range. */
  function Before(cur: nat, offset: nat, size: nat): (m: nat)
    ensures m <= size
  {
    if cur <= offset then 0 else if cur - offset < size then cur - offset else size
  }

  /** After the first i chunks: what lies in them was copied. */
  ghost predicate Accessed(isWrite: bool, p0: seq<byte>, b0: seq<byte>, cs: seq<Chunk>, offset: nat, m: nat, p: seq<byte>, b: seq<byte>)
    requires Inside(cs, |p0|) && (m == 0 || offset + m <= Sum(cs)) && m <= |b0|
  {
    if m == 0 then p == p0 && b == b0
    else if isWrite then b == b0 && p == WriteFlat(p0, cs, offset, b0[..m])
    else p == p0 && b == Patch(b0, 0, ReadFlat(p0, cs, offset, m))
  }

  /** Between two chunks of an access. */
  ghost predicate InAccess(isWrite: bool, p0: seq<byte>, b0: seq<byte>, cs: seq<Chunk>, i: nat, current: nat, copied: nat,
                           offset: nat, len: nat, p: seq<byte>, b: seq<byte>) {
    && i <= |cs| && Inside(cs, |p0|) && current == Sum(cs[..i]) && len <= |b0| && |p| == |p0| && |b| == |b0|
    && copied == Before(current, offset, len) && (copied == 0 || offset + copied <= Sum(cs))
    && Accessed(isWrite, p0, b0, cs, offset, copied, p, b)
    && (forall k :: 0 <= k < i ==> cs[k].size > 0)
  }

  lemma AccessFirst(isWrite: bool, p0: seq<byte>, b0: seq<byte>, cs: seq<Chunk>, offset: nat, len: nat)
    requires Inside(cs, |p0|) && len <= |b0|
    ensures InAccess(isWrite, p0, b0, cs, 0, 0, 0, offset, len, p0, b0)
  {
    assert cs[..0] == [];
  }

  lemma AccessFacts(isWrite: bool, p0: seq<byte>, b0: seq<byte>, cs: seq<Chunk>, i: nat, current: nat, copied: nat,
                    offset: nat, len: nat, p: seq<byte>, b: seq<byte>)
    requires InAccess(isWrite, p0, b0, cs, i, current, copied, offset, len, p, b) && i < |cs|
    ensures Inside(cs, |p0|) && |p| == |p0| && |b| == |b0| && len <= |b0| && copied == Before(current, offset, len)
    ensures cs[i].Base() + cs[i].size <= |p0|
  {
  }

  lemma AccessSkip(isWrite: bool, p0: seq<byte>, b0: seq<byte>, cs: seq<Chunk>, i: nat, current: nat, copied: nat,
                   offset: nat, len: nat, p: seq<byte>, b: seq<byte>)
    requires InAccess(isWrite, p0, b0, cs, i, current, copied, offset, len, p, b) && i < |cs| && cs[i].size > 0
    requires current + cs[i].size <= offset
    ensures InAccess(isWrite, p0, b0, cs, i + 1, current + cs[i].size, copied, offset, len, p, b)
  {
    hide Accessed, Inside;
    SumPrefix(cs, i);
  }

  lemma AccessNext(isWrite: bool, p0: seq<byte>, b0: seq<byte>, cs: seq<Chunk>, i: nat, current: nat, copied: nat,
                   offset: nat, len: nat, p: seq<byte>, b: seq<byte>, n: nat, p1: seq<byte>, b1: seq<byte>)
    requires InAccess(isWrite, p0, b0, cs, i, current, copied, offset, len, p, b) && i < |cs| && cs[i].size > 0
    requires offset < current + cs[i].size
    requires var d := if current < offset then offset - current else 0;
             && n == (if len - copied < cs[i].size - d then len - copied else cs[i].size - d)
             && cs[i].Base() + d + n <= |p| && copied + n <= |b|
             && (isWrite ==> b1 == b && p1 == Patch(p, cs[i].Base() + d, b[copied..copied + n]))
             && (!isWrite ==> p1 == p && b1 == Patch(b, copied, p[cs[i].Base() + d..cs[i].Base() + d + n]))
    ensures InAccess(isWrite, p0, b0, cs, i + 1, current + cs[i].size, copied + n, offset, len, p1, b1)
  {
    hide Accessed, Inside, Sum, Patch;
    SumPrefix(cs, i);
    var d := if current < offset then offset - current else 0;
    if n > 0 {
      AccessMore(isWrite, p0, b0, cs, i, d, offset, copied, n, p, b, p1, b1);
    } else {
      PatchEmpty(p, cs[i].Base() + d);
      PatchEmpty(b, copied);
      assert b[copied..copied + n] == [] && p[cs[i].Base() + d..cs[i].Base() + d + n] == [];
    }
  }

  lemma AccessLast(isWrite: bool, p0: seq<byte>, b0: seq<byte>, cs: seq<Chunk>, i: nat, current: nat, copied: nat,
                   offset: nat, len: nat, p: seq<byte>, b: seq<byte>)
    requires InAccess(isWrite, p0, b0, cs, i, current, copied, offset, len, p, b) && (i == |cs| || copied == len)
    ensures Inside(cs, |p0|) && copied == Before(Sum(cs), offset, len) && (copied == 0 || offset + copied <= Sum(cs))
    ensures len <= |b0| && Accessed(isWrite, p0, b0, cs, offset, copied, p, b)
  {
    hide Accessed, Inside;
    SumPrefix(cs, i);
    assert cs[..|cs|] == cs;
  }

  lemma AccessMore(isWrite: bool, p0: seq<byte>, b0: seq<byte>, cs: seq<Chunk>, i: nat, d: nat, offset: nat, m: nat, n: nat,
                   p: seq<byte>, b: seq<byte>, p1: seq<byte>, b1: seq<byte>)
    requires Inside(cs, |p0|) && i < |cs| && n > 0 && d + n <= cs[i].size && m + n <= |b0| && offset + m == Sum(cs[..i]) + d
    requires m == 0 || offset + m <= Sum(cs)
    requires Accessed(isWrite, p0, b0, cs, offset, m, p, b)
    requires cs[i].Base() + d + n <= |p| == |p0| && |b| == |b0|
    requires isWrite ==> b1 == b && p1 == Patch(p, cs[i].Base() + d, b[m..m + n])
    requires !isWrite ==> p1 == p && b1 == Patch(b, m, p[cs[i].Base() + d..cs[i].Base() + d + n])
    ensures offset + m + n <= Sum(cs) && Accessed(isWrite, p0, b0, cs, offset, m + n, p1, b1)
  {
    hide WriteFlat, ReadFlat, Sum, Patch;
    BlockInside(cs, i, d, n, |p0|);
    NothingFlat(p0, b0, cs, offset);
    if isWrite {
      WriteMore(p0, b0, cs, i, d, offset, m, n, p);
    } else {
      ReadMore(p0, b0, cs, i, d, offset, m, n, b);
    }
  }

  lemma NothingFlat(p0: seq<byte>, b0: seq<byte>, cs: seq<Chunk>, offset: nat)
    requires Inside(cs, |p0|) && offset <= Sum(cs)
    ensures b0[..0] == [] && WriteFlat(p0, cs, offset, b0[..0]) == p0
    ensures Patch(b0, 0, ReadFlat(p0, cs, offset, 0)) == b0
  {
    assert ReadFlat(p0, cs, offset, 0) == [];
  }

  lemma WriteMore(p0: seq<byte>, b0: seq<byte>, cs: seq<Chunk>, i: nat, d: nat, offset: nat, m: nat, n: nat, p: seq<byte>)
    requires Inside(cs, |p0|) && i < |cs| && d + n <= cs[i].size && m + n <= |b0| && offset + m == Sum(cs[..i]) + d
    requires offset + m + n <= Sum(cs) && cs[i].Base() + d + n <= |p0|
    requires p == WriteFlat(p0, cs, offset, b0[..m])
    ensures |p| == |p0| && Patch(p, cs[i].Base() + d, b0[m..m + n]) == WriteFlat(p0, cs, offset, b0[..m + n])
  {
    hide Sum, Patch, WriteFlat, Inside;
    assert b0[..m] + b0[m..m + n] == b0[..m + n];
    StillInside(cs, p0, p);
    WriteAppend(p0, cs, offset, b0[..m], b0[m..m + n]);
    WriteBlock(p, cs, i, d, b0[m..m + n]);
  }

  lemma ReadMore(p0: seq<byte>, b0: seq<byte>, cs: seq<Chunk>, i: nat, d: nat, offset: nat, m: nat, n: nat, b: seq<byte>)
    requires Inside(cs, |p0|) && i < |cs| && d + n <= cs[i].size && m + n <= |b0| && offset + m == Sum(cs[..i]) + d
    requires offset + m + n <= Sum(cs) && cs[i].Base() + d + n <= |p0|
    requires b == Patch(b0, 0, ReadFlat(p0, cs, offset, m))
    ensures |b| == |b0|
    ensures Patch(b, m, p0[cs[i].Base() + d..cs[i].Base() + d + n]) == Patch(b0, 0, ReadFlat(p0, cs, offset, m + n))
  {
    hide Sum, ReadFlat, Inside, Patch;
    ReadAppend(p0, cs, offset, m, n);
    ReadBlock(p0, cs, i, d, n);
    PatchTwice(b0, 0, ReadFlat(p0, cs, offset, m), ReadFlat(p0, cs, offset + m, n));
  }

  /** Each chunk is not empty and starts where translation puts the first byte it covers. */
  ghost predicate Covers(mmu: Mmu, gpa: nat, cs: seq<Chunk>) {
    forall i :: 0 <= i < |cs| ==> cs[i].size > 0 && cs[i].Base() == mmu.iova(gpa + Sum(cs[..i]))
  }

  /** Inside each chunk translation goes on as it began. */
  ghost predicate Contiguous(mmu: Mmu, gpa: nat, cs: seq<Chunk>) {
    forall i, d: nat :: 0 <= i < |cs| && d < cs[i].size ==> Translated(mmu, gpa, cs, i, d)
  }

  ghost predicate Translated(mmu: Mmu, gpa: nat, cs: seq<Chunk>, i: nat, d: nat)
    requires i < |cs|
  {
    mmu.iova(gpa + Sum(cs[..i]) + d) == mmu.iova(gpa + Sum(cs[..i])) + d
  }

  /** Every byte of the range is where translation puts it. */
  ghost predicate AllTranslated(mmu: Mmu, gpa: nat, cs: seq<Chunk>) {
    forall o: nat :: o < Sum(cs) ==> Addr(cs, o) == mmu.iova(gpa + o)
  }

  /** Only the first byte of a chunk is translated, so the chunks stand for the guest's memory iff folios map as a whole. */
  lemma AllTranslatedIff(mmu: Mmu, gpa: nat, cs: seq<Chunk>)
    requires Covers(mmu, gpa, cs)
    ensures AllTranslated(mmu, gpa, cs) <==> Contiguous(mmu, gpa, cs)
  {
    hide Sum, Addr;
    if AllTranslated(mmu, gpa, cs) {
      forall i, d: nat | 0 <= i < |cs| && d < cs[i].size
        ensures Translated(mmu, gpa, cs, i, d)
      {
        AddrIn(cs, i, d);
      }
    }
    if Contiguous(mmu, gpa, cs) {
      forall o: nat | o < Sum(cs)
        ensures Addr(cs, o) == mmu.iova(gpa + o)
      {
        var i := ChunkOf(cs, o);
        var d := o - Sum(cs[..i]);
        AddrIn(cs, i, d);
        assert Translated(mmu, gpa, cs, i, d);
      }
    }
  }

  lemma CoversNone(mmu: Mmu, gpa: nat)
    ensures Covers(mmu, gpa, []) && Sum([]) == 0
  {
  }

  lemma CoversMore(mmu: Mmu, gpa: nat, cs: seq<Chunk>, c: Chunk)
    requires Covers(mmu, gpa, cs) && c.size > 0 && c.Base() == mmu.iova(gpa + Sum(cs))
    ensures Covers(mmu, gpa, cs + [c]) && Sum(cs + [c]) == Sum(cs) + c.size
  {
    SumSnoc(cs, c);
    hide Sum;
    var ds := cs + [c];
    forall i | 0 <= i < |ds|
      ensures ds[i].size > 0 && ds[i].Base() == mmu.iova(gpa + Sum(ds[..i]))
    {
      assert ds[..i] == cs[..i];
    }
    assert cs[..|cs|] == cs;
  }

  lemma SumSnoc(cs: seq<Chunk>, c: Chunk)
    ensures Sum(cs + [c]) == Sum(cs) + c.size
  {
    assert (cs + [c])[..|cs + [c]| - 1] == cs;
  }

  lemma NoSlice(s: seq<byte>, at: nat)
    requires at <= |s|
    ensures s[at..at + 0] == []
  {
  }

  /** A block copied behind another extends it. */
  lemma NextBlock(dst: seq<byte>, at: nat, src: seq<byte>, from: nat, m: nat, n: nat)
    requires at + m + n <= |dst| && from + m + n <= |src|
    ensures Patch(Patch(dst, at, src[from..from + m]), at + m, src[from + m..from + m + n])
            == Patch(dst, at, src[from..from + (m + n)])
  {
    PatchTwice(dst, at, src[from..from + m], src[from + m..from + m + n]);
    assert src[from..from + m] + src[from + m..from + m + n] == src[from..from + (m + n)];
  }
}
