/** Cached logs relocated in place and concatenated behind a file header (amdgv_diag_data.c, collection). */
module DiagCollect {
  import opened Arith
  import opened Bytes
  import opened DiagBlocks
  import opened DiagFile

  const FILE_SIGNATURE: u32 := 0x42445241
  const FILE_VERSION: u32 := 0x100

  // ---- relocation ----

  /** The type of the cache goes into bits 24 to 31 of the flags. */
  function TagFlags(flags: u32, typ: nat): u32
    requires typ < 256
  {
    Pow2Word();
    OrBound(flags, typ * 0x100_0000, 32);
    Or(flags, typ * 0x100_0000)
  }

  /** The flags keep their bits and gain those of the type, from bit 24 on. */
  lemma TagFlagsBits(flags: u32, typ: nat, k: nat)
    requires typ < 256
    ensures Bit(TagFlags(flags, typ), k) == (Bit(flags, k) || (k >= 24 && Bit(typ, k - 24)))
  {
    hide Or;
    OrBits(flags, typ * 0x100_0000, k);
    PowTwentyFour();
    ShiftedBit(typ, 24, k);
  }

  lemma PowTwentyFour()
    ensures Pow2(24) == 0x100_0000
  {
    assert Pow2(8) == 256;
    assert Pow2(12) == 16 * Pow2(8);
    assert Pow2(16) == 16 * Pow2(12);
    assert Pow2(20) == 16 * Pow2(16);
    assert Pow2(24) == 16 * Pow2(20);
  }

  lemma {:induction false} ShiftedBit(v: nat, n: nat, k: nat)
    ensures Bit(v * Pow2(n), k) == (k >= n && Bit(v, k - n))
    decreases n
  {
    if n > 0 {
      var w := v * Pow2(n - 1);
      assert v * Pow2(n) == 2 * w by { Doubled(v, Pow2(n - 1)); }
      if k > 0 {
        ShiftedBit(v, n - 1, k - 1);
      }
    } else {
      assert v * Pow2(0) == v;
    }
  }

  lemma Doubled(v: nat, p: nat)
    ensures v * (2 * p) == 2 * (v * p)
  {
  }

  /** b is the block a of a log of this type: the same but for the flags, which gained the bits of the type. */
  ghost predicate CameFrom(b: Block, a: Block, typ: nat) {
    && b.id == a.id && b.stamp == a.stamp && b.checksum == a.checksum && b.data == a.data
    && (forall k: nat :: k < 24 ==> Bit(b.flags, k) == Bit(a.flags, k))
    && (forall k: nat :: 24 <= k < 32 ==> Bit(b.flags, k) == (Bit(a.flags, k) || Bit(typ, k - 24)))
  }

  lemma TaggedCameFrom(a: Block, typ: nat)
    requires typ < 256
    ensures CameFrom(Tagged(a, typ), a, typ)
  {
    hide Bit, TagFlags;
    forall k: nat
      ensures Bit(Tagged(a, typ).flags, k) == (Bit(a.flags, k) || (k >= 24 && Bit(typ, k - 24)))
    {
      TagFlagsBits(a.flags, typ, k);
    }
  }

  /** All blocks of a log, in order. */
  ghost predicate AllCameFrom(bs: seq<Block>, from: seq<Block>, typ: nat) {
    |bs| == |from| && forall i :: 0 <= i < |bs| ==> CameFrom(bs[i], from[i], typ)
  }

  lemma TagAllCameFrom(bs: seq<Block>, typ: nat)
    requires typ < 256
    ensures AllCameFrom(TagAll(bs, typ), bs, typ)
  {
    hide CameFrom, TagFlags;
    forall i | 0 <= i < |bs|
      ensures CameFrom(TagAll(bs, typ)[i], bs[i], typ)
    {
      TaggedCameFrom(bs[i], typ);
    }
  }

  function Tagged(b: Block, typ: nat): Block
    requires typ < 256
  {
    b.(flags := TagFlags(b.flags, typ))
  }

  function TagAll(bs: seq<Block>, typ: nat): (r: seq<Block>)
    requires typ < 256
    ensures |r| == |bs|
  {
    seq(|bs|, i requires 0 <= i < |bs| => Tagged(bs[i], typ))
  }

  lemma {:induction false} TagAllSize(bs: seq<Block>, typ: nat)
    requires typ < 256 && AllOk(bs)
    ensures AllOk(TagAll(bs, typ)) && Size(TagAll(bs, typ)) == Size(bs)
    decreases |bs|
  {
    if bs != [] {
      var n := |bs| - 1;
      TagAllSize(bs[..n], typ);
      assert TagAll(bs, typ)[..n] == TagAll(bs[..n], typ);
    }
  }

  /** Half-way through: blocks before i are relocated, the others as they were. */
  ghost predicate Relocating(f: seq<byte>, f0: seq<byte>, bs: seq<Block>, i: nat, pos: nat, used: nat, off: nat, typ: nat) {
    && AllOk(bs) && i <= |bs| && typ < 256 && off + used < TWO32 && used == Size(bs) && |f| == |f0| && used <= |f|
    && pos == Size(bs[..i]) <= used && (i == |bs| ==> pos == used)
    && AllOk(TagAll(bs[..i], typ)) && Size(TagAll(bs[..i], typ)) == pos && f[..pos] == Encode(TagAll(bs[..i], typ), off)
    && pos + Size(bs[i..]) == used && f[pos..] == Encode(bs[i..], pos) + f0[used..]
  }

  lemma RelocateFirst(f: seq<byte>, bs: seq<Block>, used: nat, off: nat, typ: nat)
    requires AllOk(bs) && typ < 256 && off + used < TWO32 && used == Size(bs) && used <= |f| && f[..used] == Encode(bs, 0)
    ensures Relocating(f, f, bs, 0, 0, used, off, typ)
  {
    hide Encode, Size;
    assert bs[..0] == [] && bs[0..] == bs && TagAll([], typ) == [];
    EncodeNone(off);
    assert f == f[..used] + f[used..];
    if bs == [] {
      EncodeNone(0);
    }
  }

  /** What the loop reads at pos. */
  lemma RelocateHeader(f: seq<byte>, f0: seq<byte>, bs: seq<Block>, i: nat, pos: nat, used: nat, off: nat, typ: nat)
    requires Relocating(f, f0, bs, i, pos, used, off, typ) && pos < used
    ensures i < |bs| && bs[i].Ok() && pos + HDR + |bs[i].data| <= used <= |f|
    ensures AllOk(bs[i + 1..]) && pos + HDR + |bs[i].data| + Size(bs[i + 1..]) == used < TWO32
    ensures f[pos..] == WordBytes(HeaderOf(bs[i], pos)) + (bs[i].data + Encode(bs[i + 1..], pos + HDR + |bs[i].data|) + f0[used..])
    ensures WordAt(f, pos, 0) == SIGNATURE && WordAt(f, pos, 6) == pos + HDR + |bs[i].data| && WordAt(f, pos, 10) == bs[i].flags
  {
    hide Encode, Size, WordBytes, WordAt;
    var b, rest := bs[i], bs[i + 1..];
    assert bs[i..][1..] == rest;
    EncodeFront(bs[i..], pos);
    var h, e, t := WordBytes(HeaderOf(b, pos)), Encode(rest, pos + HDR + |b.data|), f0[used..];
    assert h + b.data + e + t == h + (b.data + e + t);
    SuffixParts(f, pos, h, b.data + e + t);
    HeaderWordsAt(f, pos, HeaderOf(b, pos));
  }

  lemma RelocateStep(f: seq<byte>, f0: seq<byte>, bs: seq<Block>, i: nat, pos: nat, used: nat, off: nat, typ: nat, g: seq<byte>)
    requires Relocating(f, f0, bs, i, pos, used, off, typ) && pos < used
    requires i < |bs| && bs[i].Ok() && pos + HDR + |bs[i].data| <= used <= |f|
    requires g == Patch(Patch(f, pos + 24, U32Bytes(pos + HDR + |bs[i].data| + off)), pos + 40, U32Bytes(TagFlags(bs[i].flags, typ)))
    ensures Relocating(g, f0, bs, i + 1, pos + HDR + |bs[i].data|, used, off, typ)
  {
    hide Encode, Size, WordBytes, WordAt, Patch, U32Bytes, TagFlags;
    RelocateHeader(f, f0, bs, i, pos, used, off, typ);
    var b, rest := bs[i], bs[i + 1..];
    var next := pos + HDR + |b.data|;
    var p, w, e, t := f[..pos], HeaderOf(b, pos), Encode(rest, next), f0[used..];
    assert f == p + WordBytes(w) + (b.data + e + t) by { SplitAt(f, pos, WordBytes(w), b.data + e + t); }
    PatchHeader(p, w, b.data + e + t, 6, next + off);
    var w1: seq<u32> := w[6 := next + off];
    PatchHeader(p, w1, b.data + e + t, 10, TagFlags(b.flags, typ));
    var h := HeaderOf(Tagged(b, typ), off + pos);
    assert h == w1[10 := TagFlags(b.flags, typ)];
    SplitThree(p, WordBytes(h), b.data, e + t, b.data + e + t);
    StepSizes(bs, i, typ, off);
  }

  lemma SplitAt(f: seq<byte>, pos: nat, h: seq<byte>, t: seq<byte>)
    requires pos <= |f| && f[pos..] == h + t
    ensures f == f[..pos] + h + t
  {
  }

  lemma SplitThree(p: seq<byte>, h: seq<byte>, d: seq<byte>, t: seq<byte>, dt: seq<byte>)
    requires dt == d + t
    ensures (p + h + dt)[..|p| + |h| + |d|] == p + (h + d) && (p + h + dt)[|p| + |h| + |d|..] == t
  {
  }

  lemma StepSizes(bs: seq<Block>, i: nat, typ: nat, off: nat)
    requires AllOk(bs) && i < |bs| && typ < 256 && off + Size(bs) < TWO32
    ensures var a, b := bs[..i], bs[i];
            && Size(bs[..i + 1]) == Size(a) + HDR + |b.data| && Size(bs[..i + 1]) + Size(bs[i + 1..]) == Size(bs)
            && Size(a) + Size(bs[i..]) == Size(bs) && Size(bs[i..]) == HDR + |b.data| + Size(bs[i + 1..])
            && AllOk(TagAll(bs[..i + 1], typ)) && Size(TagAll(bs[..i + 1], typ)) == Size(bs[..i + 1])
            && AllOk(TagAll(a, typ)) && Size(TagAll(a, typ)) == Size(a) && b.Ok()
            && Encode(TagAll(bs[..i + 1], typ), off) == Encode(TagAll(a, typ), off) + One(Tagged(b, typ), off + Size(a))
            && (i + 1 == |bs| ==> Size(bs[..i + 1]) == Size(bs))
  {
    hide Encode, Size, TagFlags, One;
    var a, b := bs[..i], bs[i];
    assert bs[..i + 1] == a + [b] && bs == bs[..i + 1] + bs[i + 1..] && bs == a + bs[i..];
    SizeConcat(a, [b]);
    SizeSingle(b);
    SizeConcat(bs[..i + 1], bs[i + 1..]);
    SizeConcat(a, bs[i..]);
    TagAllSize(bs[..i + 1], typ);
    TagAllSize(a, typ);
    assert TagAll(bs[..i + 1], typ) == TagAll(a, typ) + [Tagged(b, typ)];
    EncodeSnoc(TagAll(a, typ), Tagged(b, typ), off);
    if i + 1 == |bs| {
      assert bs[..i + 1] == bs;
    }
  }

  lemma RelocateLast(f: seq<byte>, f0: seq<byte>, bs: seq<Block>, i: nat, pos: nat, used: nat, off: nat, typ: nat)
    requires Relocating(f, f0, bs, i, pos, used, off, typ) && pos >= used
    ensures AllOk(TagAll(bs, typ)) && Size(TagAll(bs, typ)) == used && f[..used] == Encode(TagAll(bs, typ), off) && f[used..] == f0[used..]
  {
    hide Encode, Size, TagFlags;
    if i < |bs| {
      EncodeFront(bs[i..], pos);
    }
    assert bs[..i] == bs && bs[i..] == [];
    EncodeNone(pos);
  }

  /** amdgv_diag_data_update_cache_block_header: follows the chain and rewrites every header for its new place. */
  method UpdateCacheBlockHeader(buf: array<byte>, used: nat, off: nat, typ: nat, ghost bs: seq<Block>)
    requires used <= buf.Length && AllOk(bs) && used == Size(bs) && off + used < TWO32 && typ < 256
    requires buf[..used] == Encode(bs, 0)
    modifies buf
    ensures AllOk(TagAll(bs, typ)) && Size(TagAll(bs, typ)) == used && AllCameFrom(TagAll(bs, typ), bs, typ)
    ensures buf[..used] == Encode(TagAll(bs, typ), off) && buf[used..] == old(buf[used..])
  {
    hide Encode, Size, Relocating, WordAt, Patch, U32Bytes, TagFlags, TagAll, AllCameFrom;
    ghost var f0, i := buf[..], 0;
    TagAllCameFrom(bs, typ);
    var pos := 0;
    RelocateFirst(f0, bs, used, off, typ);
    while pos < used
      invariant Relocating(buf[..], f0, bs, i, pos, used, off, typ)
      decreases used - pos
    {
      ghost var f := buf[..];
      RelocateHeader(f, f0, bs, i, pos, used, off, typ);
      var next: nat := WordAt(buf[..], pos, 6);
      var flags := WordAt(buf[..], pos, 10);
      if WordAt(buf[..], pos, 0) != SIGNATURE {
        break;
      }
      WriteBytes(buf, pos + 24, U32Bytes(next + off));
      WriteBytes(buf, pos + 40, U32Bytes(TagFlags(flags, typ)));
      RelocateStep(f, f0, bs, i, pos, used, off, typ, buf[..]);
      pos := next;
      i := i + 1;
    }
    RelocateLast(buf[..], f0, bs, i, pos, used, off, typ);
    assert f0[used..] == old(buf[used..]);
  }

  // ---- the cached logs, one after the other ----

  datatype Cache = NoCache | Cache(buf: array<byte>, used: nat)

  datatype Log = NoLog | Log(blocks: seq<Block>)

  /** A cache holds the log it stands for, built from offset 0. */
  ghost predicate Stores(c: Cache, l: Log)
    reads if c.Cache? then {c.buf} else {}
  {
    match (c, l)
    case (Cache(buf, used), Log(bs)) =>
      used <= buf.Length && AllOk(bs) && used == Size(bs) && Size(bs) < TWO32 && buf[..used] == Encode(bs, 0)
    case (NoCache, NoLog) => true
    case _ => false
  }

  /** The blocks that end up in a file of `size` bytes, from log i on: each log that still fits, tagged with its type. */
  ghost function Chosen(logs: seq<Log>, i: nat, at: nat, size: nat): seq<Block>
    requires i <= |logs| < 256
    decreases |logs| - i
  {
    if i == |logs| then [] else if logs[i].Log? && at + Size(logs[i].blocks) < size then
      TagAll(logs[i].blocks, i + 1) + Chosen(logs, i + 1, at + Size(logs[i].blocks), size)
    else Chosen(logs, i + 1, at, size)
  }

  // ---- which logs, and which blocks ----

  /** Bytes of the first n logs that were taken. */
  ghost function TakenSize(logs: seq<Log>, picks: seq<bool>, n: nat): nat
    requires n <= |logs| == |picks|
  {
    if n == 0 then 0 else TakenSize(logs, picks, n - 1) + (if picks[n - 1] && logs[n - 1].Log? then Size(logs[n - 1].blocks) else 0)
  }

  /** A log is taken iff there is one and it fits behind those taken before it. */
  ghost predicate Fitting(logs: seq<Log>, picks: seq<bool>, at: nat, size: nat) {
    |picks| == |logs| && forall j :: 0 <= j < |logs| ==> FitsThere(logs, picks, j, at, size)
  }

  ghost predicate FitsThere(logs: seq<Log>, picks: seq<bool>, j: nat, at: nat, size: nat)
    requires j < |logs| == |picks|
  {
    picks[j] <==> logs[j].Log? && at + TakenSize(logs, picks, j) + Size(logs[j].blocks) < size
  }

  /** bs is what the taken logs from n on hold, in order, each with the bits of its type. */
  ghost predicate MadeOf(bs: seq<Block>, logs: seq<Log>, picks: seq<bool>, n: nat)
    requires n <= |logs| == |picks|
    decreases |logs| - n
  {
    if n == |logs| then bs == []
    else if picks[n] && logs[n].Log? then
      var k := |logs[n].blocks|;
      k <= |bs| && AllCameFrom(bs[..k], logs[n].blocks, n + 1) && MadeOf(bs[k..], logs, picks, n + 1)
    else MadeOf(bs, logs, picks, n + 1)
  }

  lemma {:induction false} SizesAgree(logs: seq<Log>, p: seq<bool>, q: seq<bool>, n: nat)
    requires n <= |logs| == |p| == |q| && p[..n] == q[..n]
    ensures TakenSize(logs, p, n) == TakenSize(logs, q, n)
    decreases n
  {
    hide Size;
    if n > 0 {
      assert p[..n - 1] == p[..n][..n - 1] == q[..n][..n - 1] == q[..n - 1];
      assert p[n - 1] == p[..n][n - 1] == q[..n][n - 1] == q[n - 1];
      SizesAgree(logs, p, q, n - 1);
    }
  }

  /** Which logs are taken, from the first to the last. */
  ghost function Picks(logs: seq<Log>, n: nat, at: nat, size: nat): (picks: seq<bool>)
    requires n <= |logs|
    ensures |picks| == |logs|
    ensures forall j :: 0 <= j < n ==> FitsThere(logs, picks, j, at, size)
  {
    if n == 0 then seq(|logs|, _ => false) else
      var p := Picks(logs, n - 1, at, size);
      var q := p[n - 1 := logs[n - 1].Log? && at + TakenSize(logs, p, n - 1) + Size(logs[n - 1].blocks) < size];
      PicksStep(logs, p, q, n - 1, at, size);
      q
  }

  lemma PicksStep(logs: seq<Log>, p: seq<bool>, q: seq<bool>, n: nat, at: nat, size: nat)
    requires n < |logs| == |p| && (forall j :: 0 <= j < n ==> FitsThere(logs, p, j, at, size))
    requires q == p[n := logs[n].Log? && at + TakenSize(logs, p, n) + Size(logs[n].blocks) < size]
    ensures forall j :: 0 <= j < n + 1 ==> FitsThere(logs, q, j, at, size)
  {
    hide Size, TakenSize;
    forall j | 0 <= j < n + 1
      ensures FitsThere(logs, q, j, at, size)
    {
      assert q[..j] == p[..j];
      SizesAgree(logs, p, q, j);
      if j < n {
        assert FitsThere(logs, p, j, at, size);
      }
    }
  }

  lemma {:induction false} ChosenMadeOf(logs: seq<Log>, picks: seq<bool>, n: nat, at: nat, size: nat)
    requires n <= |logs| == |picks| < 256 && Fitting(logs, picks, at, size)
    ensures MadeOf(Chosen(logs, n, at + TakenSize(logs, picks, n), size), logs, picks, n)
    decreases |logs| - n
  {
    hide Size, TagAll, AllCameFrom;
    if n < |logs| {
      assert FitsThere(logs, picks, n, at, size);
      ChosenMadeOf(logs, picks, n + 1, at, size);
      if picks[n] {
        var bs := logs[n].blocks;
        TagAllCameFrom(bs, n + 1);
        var more := Chosen(logs, n + 1, at + TakenSize(logs, picks, n + 1), size);
        assert (TagAll(bs, n + 1) + more)[..|bs|] == TagAll(bs, n + 1) && (TagAll(bs, n + 1) + more)[|bs|..] == more;
      }
    }
  }

  /**
   * A file of this size holds, in order and with the bits of its type, exactly each log that fits behind those taken
   * before it.
   */
  lemma ChosenIs(logs: seq<Log>, at: nat, size: nat) returns (picks: seq<bool>)
    requires |logs| < 256
    ensures Fitting(logs, picks, at, size) && MadeOf(Chosen(logs, 0, at, size), logs, picks, 0)
  {
    picks := Picks(logs, |logs|, at, size);
    ChosenMadeOf(logs, picks, 0, at, size);
  }

  function SizeAll(logs: seq<Log>, n: nat): nat
    requires n <= |logs|
  {
    if n == 0 then 0 else SizeAll(logs, n - 1) + (if logs[n - 1].Log? then Size(logs[n - 1].blocks) else 0)
  }

  lemma {:induction false} TakenAtMost(logs: seq<Log>, picks: seq<bool>, n: nat, m: nat)
    requires n <= m <= |logs| == |picks|
    ensures TakenSize(logs, picks, n) + SizeAll(logs, m) - SizeAll(logs, n) <= SizeAll(logs, m)
    ensures SizeAll(logs, n) <= SizeAll(logs, m)
    decreases m
  {
    hide Size;
    if n < m {
      TakenAtMost(logs, picks, n, m - 1);
    } else if n > 0 {
      TakenAtMost(logs, picks, n - 1, n - 1);
    }
  }

  /** If all logs fit together, all are taken. */
  lemma AllTaken(logs: seq<Log>, picks: seq<bool>, at: nat, size: nat, j: nat)
    requires Fitting(logs, picks, at, size) && at + SizeAll(logs, |logs|) < size && j < |logs|
    ensures picks[j] <==> logs[j].Log?
  {
    hide Size;
    assert FitsThere(logs, picks, j, at, size);
    TakenAtMost(logs, picks, j, j + 1);
    TakenAtMost(logs, picks, j + 1, |logs|);
  }

  /** What was copied so far and what the remaining logs will add. */
  ghost predicate Copying(logs: seq<Log>, i: nat, offset: nat, size: nat, f: seq<byte>, f0: seq<byte>, done: seq<Block>) {
    && i <= |logs| < 256 && AllOk(done) && offset + Size(done) < TWO32 && size < TWO32 && |f| == |f0|
    && (done == [] || offset + Size(done) < size) && size <= |f| && offset <= |f|
    && Chosen(logs, 0, offset, size) == done + Chosen(logs, i, offset + Size(done), size)
    && offset + Size(done) <= |f| && f[..offset] == f0[..offset]
    && f[offset..offset + Size(done)] == Encode(done, offset)
  }

  lemma CopyStep(logs: seq<Log>, i: nat, offset: nat, size: nat, f: seq<byte>, f0: seq<byte>, done: seq<Block>, bs: seq<Block>)
    requires Copying(logs, i, offset, size, f, f0, done) && i < |logs| && logs[i] == Log(bs) && AllOk(bs)
    requires AllOk(TagAll(bs, i + 1)) && Size(TagAll(bs, i + 1)) == Size(bs)
    requires offset + Size(done) + Size(bs) < size
    ensures Copying(logs, i + 1, offset, size,
                    Patch(f, offset + Size(done), Encode(TagAll(bs, i + 1), offset + Size(done))), f0, done + TagAll(bs, i + 1))
    ensures Size(done + TagAll(bs, i + 1)) == Size(done) + Size(bs)
  {
    hide Encode, Size, TagAll;
    var at, more := offset + Size(done), TagAll(bs, i + 1);
    EncodeConcat(done, more, offset);
    var e := Encode(more, at);
    SizeConcat(done, more);
    assert done + (more + Chosen(logs, i + 1, at + Size(bs), size)) == (done + more) + Chosen(logs, i + 1, at + Size(bs), size);
    PatchBehind(f, offset, at, Encode(done, offset), e);
  }

  lemma PatchBehind(f: seq<byte>, offset: nat, at: nat, x: seq<byte>, e: seq<byte>)
    requires offset <= at && at + |e| <= |f| && f[offset..at] == x
    ensures Patch(f, at, e)[..offset] == f[..offset]
    ensures Patch(f, at, e)[offset..at + |e|] == x + e
  {
    var g := Patch(f, at, e);
    assert g[offset..at] == x && g[at..at + |e|] == e;
    assert g[offset..at + |e|] == g[offset..at] + g[at..at + |e|];
  }

  lemma CopySkip(logs: seq<Log>, i: nat, offset: nat, size: nat, f: seq<byte>, f0: seq<byte>, done: seq<Block>)
    requires Copying(logs, i, offset, size, f, f0, done) && i < |logs|
    requires logs[i].Log? ==> offset + Size(done) + Size(logs[i].blocks) >= size
    ensures Copying(logs, i + 1, offset, size, f, f0, done)
  {
  }

  /** amdgv_diag_data_copy_cache_logs: relocates every cached log that still fits and appends it. */
  method CopyCacheLogs(caches: seq<Cache>, buff: array<byte>, size: nat, offset: nat, ghost logs: seq<Log>) returns (copied: nat)
    requires |caches| == |logs| < 256 && size <= buff.Length && size < TWO32 && offset <= buff.Length && offset < TWO32
    requires forall i :: 0 <= i < |caches| ==> Stores(caches[i], logs[i])
    requires forall i :: 0 <= i < |caches| && caches[i].Cache? ==> caches[i].buf != buff
    requires forall i, j :: 0 <= i < j < |caches| && caches[i].Cache? && caches[j].Cache? ==> caches[i].buf != caches[j].buf
    modifies buff, set i | 0 <= i < |caches| && caches[i].Cache? :: caches[i].buf
    ensures var all := Chosen(logs, 0, offset, size);
            && AllOk(all) && copied == Size(all) && offset + copied < TWO32 && offset + copied <= buff.Length
            && (all != [] ==> offset + copied < size)
            && buff[..offset] == old(buff[..offset]) && buff[offset..offset + copied] == Encode(all, offset)
  {
    hide Encode, Size, Copying, TagAll, Chosen;
    ghost var f0, done := buff[..], [];
    copied := 0;
    CopyFirst(logs, offset, size, f0);
    var i := 0;
    while i < |caches|
      invariant i <= |caches| && copied == Size(done)
      invariant Copying(logs, i, offset, size, buff[..], f0, done)
      invariant forall j :: i <= j < |caches| ==> Stores(caches[j], logs[j])
    {
      CopyingFacts(logs, i, offset, size, buff[..], f0, done);
      if caches[i].Cache? && offset + copied + caches[i].used < size {
        ghost var f, bs := buff[..], logs[i].blocks;
        CopyOne(caches[i], buff, i + 1, offset + copied, bs);
        CopyStep(logs, i, offset, size, f, f0, done, bs);
        done := done + TagAll(bs, i + 1);
        copied := copied + caches[i].used;
      } else {
        CopySkip(logs, i, offset, size, buff[..], f0, done);
      }
      i := i + 1;
    }
    CopyLast(logs, offset, size, buff[..], f0, done);
  }

  lemma CopyFirst(logs: seq<Log>, offset: nat, size: nat, f: seq<byte>)
    requires |logs| < 256 && size <= |f| && size < TWO32 && offset <= |f| && offset < TWO32
    ensures Size([]) == 0 && Copying(logs, 0, offset, size, f, f, [])
  {
    hide Chosen;
    assert [] + Chosen(logs, 0, offset, size) == Chosen(logs, 0, offset, size);
  }

  lemma CopyingFacts(logs: seq<Log>, i: nat, offset: nat, size: nat, f: seq<byte>, f0: seq<byte>, done: seq<Block>)
    requires Copying(logs, i, offset, size, f, f0, done)
    ensures AllOk(done) && offset + Size(done) < TWO32 && size < TWO32 && size <= |f|
  {
  }

  lemma CopyLast(logs: seq<Log>, offset: nat, size: nat, f: seq<byte>, f0: seq<byte>, done: seq<Block>)
    requires Copying(logs, |logs|, offset, size, f, f0, done)
    ensures Chosen(logs, 0, offset, size) == done && AllOk(done) && offset + Size(done) < TWO32 && offset + Size(done) <= |f|
    ensures done != [] ==> offset + Size(done) < size
    ensures f[..offset] == f0[..offset] && f[offset..offset + Size(done)] == Encode(done, offset)
  {
    hide Encode;
  }

  /** One log: relocated in its cache, then copied to its place. */
  method CopyOne(c: Cache, buff: array<byte>, typ: nat, at: nat, ghost bs: seq<Block>)
    requires c.Cache? && Stores(c, Log(bs)) && c.buf != buff && typ < 256 && at + c.used < TWO32 && at + c.used <= buff.Length
    modifies c.buf, buff
    ensures AllOk(TagAll(bs, typ)) && Size(TagAll(bs, typ)) == Size(bs) == c.used
    ensures buff[..] == Patch(old(buff[..]), at, Encode(TagAll(bs, typ), at))
  {
    hide Encode, Size, TagAll, Patch;
    UpdateCacheBlockHeader(c.buf, c.used, at, typ, bs);
    CopyBytes(buff, at, c.buf, 0, c.used);
    assert c.buf[0..0 + c.used] == c.buf[..c.used];
  }

  // ---- the file ----

  /** amdgv_diag_data_collect, with what the environment supplies as parameters; 0 when no cached log fits. */
  method Collect(caches: seq<Cache>, buff: array<byte>, size: nat, date: nat, asic: u32, bus: u32, ghost logs: seq<Log>)
    returns (ret: nat)
    requires |caches| == |logs| < 256 && size <= buff.Length && size < TWO32 && HDR <= buff.Length && date < TWO64
    requires forall i :: 0 <= i < |caches| ==> Stores(caches[i], logs[i])
    requires forall i :: 0 <= i < |caches| && caches[i].Cache? ==> caches[i].buf != buff
    requires forall i, j :: 0 <= i < j < |caches| && caches[i].Cache? && caches[j].Cache? ==> caches[i].buf != caches[j].buf
    modifies buff, set i | 0 <= i < |caches| && caches[i].Cache? :: caches[i].buf
    ensures var all := Chosen(logs, 0, HDR, size);
            if all == [] then ret == 0 else
              && ret == HDR + Size(all) < size
              && WordAt(buff[..ret], 0, 0) == 0x42445241 && WordAt(buff[..ret], 0, 6) == Size(all)
              && WordAt(buff[..ret], 0, 1) == 0x100 && WordAt(buff[..ret], 0, 2) + TWO32 * WordAt(buff[..ret], 0, 3) == date
              && WordAt(buff[..ret], 0, 4) == asic && WordAt(buff[..ret], 0, 5) == bus
              && WordAt(buff[..ret], 0, 7) == HDR && (forall i :: 8 <= i < 16 ==> WordAt(buff[..ret], 0, i) == 0)
              && Walk(buff[..ret], HDR) == all
              && exists picks :: Fitting(logs, picks, HDR, size) && MadeOf(Walk(buff[..ret], HDR), logs, picks, 0)
  {
    hide Encode, Size, Walk, WordAt, Chosen, Patch, Fitting, MadeOf;
    ghost var picks := ChosenIs(logs, HDR, size);
    var copied := CopyCacheLogs(caches, buff, size, HDR, logs);
    ghost var all := Chosen(logs, 0, HDR, size);
    SizePositive(all);
    ret := 0;
    if copied > 0 {
      ghost var f := buff[..];
      var hdr: seq<u32> := [FILE_SIGNATURE, FILE_VERSION, date % TWO32, date / TWO32, asic, bus, copied, HDR, 0, 0, 0, 0, 0, 0, 0, 0];
      WriteBytes(buff, 0, WordBytes(hdr));
      ret := copied + HDR;
      FileReads(f, buff[..], hdr, all);
      assert buff[..ret] == buff[..][..HDR + Size(all)];
      assert forall i :: 0 <= i < 16 ==> WordAt(buff[..ret], 0, i) == hdr[i];
    }
  }

  lemma SizePositive(bs: seq<Block>)
    ensures Size(bs) == 0 <==> bs == []
  {
  }

  lemma FileReads(f: seq<byte>, g: seq<byte>, hdr: seq<u32>, all: seq<Block>)
    requires |hdr| == 16 && HDR <= |f| && AllOk(all) && HDR + Size(all) < TWO32 && HDR + Size(all) <= |f|
    requires f[HDR..HDR + Size(all)] == Encode(all, HDR) && g == Patch(f, 0, WordBytes(hdr))
    ensures forall i :: 0 <= i < 16 ==> WordAt(g[..HDR + Size(all)], 0, i) == hdr[i]
    ensures Walk(g[..HDR + Size(all)], HDR) == all
  {
    hide Encode, Size, Walk, WordAt, WordBytes;
    var file := g[..HDR + Size(all)];
    assert file[0..0 + HDR] == WordBytes(hdr);
    HeaderWordsAt(file, 0, hdr);
    assert file[HDR..] == f[HDR..HDR + Size(all)];
    WalkEncoded(file, HDR, all);
  }
}
