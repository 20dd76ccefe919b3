/** The chain of blocks in a diagnosis file: how blocks lie in memory, and what a reader following the offsets finds. */
module DiagBlocks {
  import opened Arith
  import opened Bytes

  const SIGNATURE: u32 := 0x4B434C42
  const HDR: nat := 64
  const STAMP: nat := 9

  /**
   * One block. `stamp` holds what comes from the environment: version, GPU and CPU time and md5, nine words.
   * The header's block size and next offset are not part of it: they follow from the data and the position.
   */
  datatype Block = Block(id: u32, stamp: seq<u32>, flags: u32, checksum: u32, data: seq<byte>) {
    predicate Ok() {
      |stamp| == STAMP && |data| > 0
    }
  }

  ghost predicate AllOk(bs: seq<Block>) {
    forall i :: 0 <= i < |bs| ==> bs[i].Ok()
  }

  /** The sixteen words of a block header at file offset `at`. */
  function Words(id: u32, stamp: seq<u32>, flags: u32, checksum: u32, len: nat, at: nat): (w: seq<u32>)
    requires |stamp| == STAMP && at + HDR + len < TWO32
    ensures |w| == 16
  {
    [SIGNATURE, id, len, stamp[0], stamp[1], stamp[2], at + HDR + len, checksum, stamp[3], stamp[4], flags,
     stamp[5], stamp[6], stamp[7], stamp[8], 0]
  }

  function HeaderOf(b: Block, at: nat): (w: seq<u32>)
    requires b.Ok() && at + HDR + |b.data| < TWO32
    ensures |w| == 16
  {
    Words(b.id, b.stamp, b.flags, b.checksum, |b.data|, at)
  }

  function One(b: Block, at: nat): (s: seq<byte>)
    requires b.Ok() && at + HDR + |b.data| < TWO32
    ensures |s| == HDR + |b.data|
  {
    WordBytes(HeaderOf(b, at)) + b.data
  }

  function Size(bs: seq<Block>): nat {
    if bs == [] then 0 else Size(bs[..|bs| - 1]) + HDR + |bs[|bs| - 1].data|
  }

  /** A log of blocks that starts at offset `at` of its file. */
  ghost function Encode(bs: seq<Block>, at: nat): (s: seq<byte>)
    requires AllOk(bs) && at + Size(bs) < TWO32
    ensures |s| == Size(bs)
  {
    if bs == [] then [] else
      var n := |bs| - 1;
      Encode(bs[..n], at) + One(bs[n], at + Size(bs[..n]))
  }

  lemma {:induction false} SizeConcat(a: seq<Block>, b: seq<Block>)
    ensures Size(a + b) == Size(a) + Size(b)
    decreases |b|
  {
    if b == [] {
      assert a + b == a;
    } else {
      assert (a + b)[..|a + b| - 1] == a + b[..|b| - 1];
      SizeConcat(a, b[..|b| - 1]);
    }
  }

  lemma EncodeSnoc(bs: seq<Block>, b: Block, at: nat)
    requires AllOk(bs) && b.Ok() && at + Size(bs) + HDR + |b.data| < TWO32
    ensures Size(bs + [b]) == Size(bs) + HDR + |b.data| && AllOk(bs + [b])
    ensures Encode(bs + [b], at) == Encode(bs, at) + One(b, at + Size(bs))
  {
    hide One;
    assert (bs + [b])[..|bs + [b]| - 1] == bs;
  }

  lemma EncodeNone(at: nat)
    requires at < TWO32
    ensures Size([]) == 0 && Encode([], at) == []
  {
  }

  lemma Snoc(bs: seq<Block>)
    requires bs != []
    ensures bs == bs[..|bs| - 1] + [bs[|bs| - 1]]
  {
  }

  lemma {:induction false} EncodeConcat(a: seq<Block>, b: seq<Block>, at: nat)
    requires AllOk(a) && AllOk(b) && at + Size(a) + Size(b) < TWO32
    ensures Size(a + b) == Size(a) + Size(b)
    ensures Encode(a + b, at) == Encode(a, at) + Encode(b, at + Size(a))
    decreases |b|
  {
    hide Encode, Size;
    SizeConcat(a, b);
    if b == [] {
      assert a + b == a;
      EncodeNone(at + Size(a));
    } else {
      var c, d := b[..|b| - 1], b[|b| - 1];
      Snoc(b);
      SizeConcat(c, [d]);
      SizeSingle(d);
      ConcatStep(a, c, d, at);
      EncodeConcat(a, c, at);
    }
  }

  lemma ConcatStep(a: seq<Block>, c: seq<Block>, d: Block, at: nat)
    requires AllOk(a) && AllOk(c) && d.Ok() && at + Size(a) + Size(c) + HDR + |d.data| < TWO32
    ensures Size(a + c) == Size(a) + Size(c) && Size(c + [d]) == Size(c) + HDR + |d.data|
    ensures Size(a + (c + [d])) == Size(a) + Size(c + [d])
    ensures Encode(a + (c + [d]), at) == Encode(a + c, at) + One(d, at + Size(a) + Size(c))
    ensures Encode(c + [d], at + Size(a)) == Encode(c, at + Size(a)) + One(d, at + Size(a) + Size(c))
  {
    hide Encode, One, Size;
    assert a + (c + [d]) == (a + c) + [d];
    SizeConcat(a, c);
    SizeConcat(c, [d]);
    SizeSingle(d);
    SizeConcat(a, c + [d]);
    EncodeSnoc(a + c, d, at);
    EncodeSnoc(c, d, at + Size(a));
  }

  lemma EncodeSingle(b: Block, at: nat)
    requires b.Ok() && at + HDR + |b.data| < TWO32
    ensures Size([b]) == HDR + |b.data| && Encode([b], at) == One(b, at)
  {
    assert [b][..0] == [];
    assert Encode([], at) == [];
    assert Encode([b], at) == [] + One(b, at);
  }

  lemma EncodeFront(bs: seq<Block>, at: nat)
    requires AllOk(bs) && at + Size(bs) < TWO32 && bs != []
    ensures Size(bs) == HDR + |bs[0].data| + Size(bs[1..])
    ensures Encode(bs, at) == One(bs[0], at) + Encode(bs[1..], at + HDR + |bs[0].data|)
  {
    hide One, Encode, Size;
    assert bs == [bs[0]] + bs[1..];
    SizeConcat([bs[0]], bs[1..]);
    SizeSingle(bs[0]);
    EncodeConcat([bs[0]], bs[1..], at);
    EncodeSingle(bs[0], at);
  }

  lemma SizeSingle(b: Block)
    ensures Size([b]) == HDR + |b.data|
  {
    assert [b][..0] == [];
  }

  // ---- the reader ----

  function WordAt(f: seq<byte>, at: nat, i: nat): u32
    requires at + 4 * i + 4 <= |f|
  {
    U32At(f, at + 4 * i)
  }

  /** Follows next_block_offset from `at` as long as it finds headers that stay inside the file. */
  function Walk(f: seq<byte>, at: nat): seq<Block>
    requires at <= |f|
    decreases |f| - at
  {
    if at + HDR > |f| || WordAt(f, at, 0) != SIGNATURE then [] else
      var next: nat := WordAt(f, at, 6);
      if next != at + HDR + WordAt(f, at, 2) || next > |f| then [] else
        [Block(WordAt(f, at, 1),
               [WordAt(f, at, 3), WordAt(f, at, 4), WordAt(f, at, 5), WordAt(f, at, 8), WordAt(f, at, 9),
                WordAt(f, at, 11), WordAt(f, at, 12), WordAt(f, at, 13), WordAt(f, at, 14)],
               WordAt(f, at, 10), WordAt(f, at, 7), f[at + HDR..next])]
        + Walk(f, next)
  }

  lemma HeaderWordAt(f: seq<byte>, at: nat, w: seq<u32>, i: nat)
    requires |w| == 16 && at + HDR <= |f| && f[at..at + HDR] == WordBytes(w) && i < 16
    ensures WordAt(f, at, i) == w[i]
  {
    WordBytesAt(w, i);
    SubSlice(f, at, at + HDR, 4 * i, 4 * i + 4);
    U32RoundTrip(f, at + 4 * i, w[i]);
  }

  lemma HeaderWordsAt(f: seq<byte>, at: nat, w: seq<u32>)
    requires |w| == 16 && at + HDR <= |f| && f[at..at + HDR] == WordBytes(w)
    ensures forall i :: 0 <= i < 16 ==> WordAt(f, at, i) == w[i]
  {
    forall i | 0 <= i < 16
      ensures WordAt(f, at, i) == w[i]
    {
      HeaderWordAt(f, at, w, i);
    }
  }

  lemma WalkOne(f: seq<byte>, at: nat, b: Block)
    requires b.Ok() && at + HDR + |b.data| < TWO32 && at + HDR + |b.data| <= |f|
    requires f[at..at + HDR + |b.data|] == One(b, at)
    ensures Walk(f, at) == [b] + Walk(f, at + HDR + |b.data|)
  {
    hide WordAt, WordBytes;
    var w := HeaderOf(b, at);
    assert f[at..at + HDR] == f[at..at + HDR + |b.data|][..HDR] == WordBytes(w);
    HeaderWordsAt(f, at, w);
    var next := at + HDR + |b.data|;
    assert f[at + HDR..next] == f[at..next][HDR..] == b.data;
    assert [b.stamp[0], b.stamp[1], b.stamp[2], b.stamp[3], b.stamp[4], b.stamp[5], b.stamp[6], b.stamp[7], b.stamp[8]] == b.stamp;
  }

  lemma WalkEnd(f: seq<byte>)
    ensures Walk(f, |f|) == []
  {
  }

  lemma RestOk(bs: seq<Block>)
    requires AllOk(bs) && bs != []
    ensures bs[0].Ok() && AllOk(bs[1..])
  {
  }

  lemma WalkFront(f: seq<byte>, at: nat, b: Block, rest: seq<Block>)
    requires b.Ok() && AllOk(rest) && at + HDR + |b.data| + Size(rest) < TWO32
    requires |f| == at + HDR + |b.data| + Size(rest) && f[at..] == One(b, at) + Encode(rest, at + HDR + |b.data|)
    ensures Walk(f, at) == [b] + Walk(f, at + HDR + |b.data|)
    ensures f[at + HDR + |b.data|..] == Encode(rest, at + HDR + |b.data|)
  {
    hide One, Encode, Size, Walk;
    SuffixParts(f, at, One(b, at), Encode(rest, at + HDR + |b.data|));
    WalkOne(f, at, b);
  }

  /** Walking a file from where a log starts visits every block once, in order, and ends exactly at the end. */
  lemma {:induction false} WalkEncoded(f: seq<byte>, at: nat, bs: seq<Block>)
    requires AllOk(bs) && at + Size(bs) < TWO32 && |f| == at + Size(bs) && f[at..] == Encode(bs, at)
    ensures Walk(f, at) == bs
    decreases |bs|
  {
    hide *;
    if bs == [] {
      EncodeNone(at);
      WalkEnd(f);
    } else {
      var b, rest := bs[0], bs[1..];
      EncodeFront(bs, at);
      RestOk(bs);
      WalkFront(f, at, b, rest);
      WalkEncoded(f, at + HDR + |b.data|, rest);
      assert [b] + rest == bs;
    }
  }

  /** A block in memory: where the structure has its fields. */
  lemma BlockInMemory(f: seq<byte>, at: nat, b: Block)
    requires b.Ok() && at + 64 + |b.data| < TWO32 && at + 64 + |b.data| <= |f| && f[at..at + 64 + |b.data|] == One(b, at)
    ensures U32At(f, at) == 0x4B434C42 && U32At(f, at + 4) == b.id && U32At(f, at + 8) == |b.data|
    ensures U32At(f, at + 24) == at + 64 + |b.data| && U32At(f, at + 28) == b.checksum && U32At(f, at + 40) == b.flags && U32At(f, at + 60) == 0
    ensures f[at + 64..at + 64 + |b.data|] == b.data
  {
    hide U32At, WordBytes;
    var w, n := HeaderOf(b, at), at + 64 + |b.data|;
    assert f[at..at + 64] == f[at..n][..64] == WordBytes(w);
    HeaderWordsAt(f, at, w);
    assert WordAt(f, at, 0) == w[0] && WordAt(f, at, 1) == w[1] && WordAt(f, at, 2) == w[2];
    assert WordAt(f, at, 6) == w[6] && WordAt(f, at, 7) == w[7] && WordAt(f, at, 10) == w[10] && WordAt(f, at, 15) == w[15];
    assert f[at + 64..n] == f[at..n][64..] == b.data;
  }

  // ---- header fields changed in place ----

  lemma {:induction false} PatchWordBytes(w: seq<u32>, i: nat, v: u32)
    requires i < |w|
    ensures 4 * i + 4 <= |WordBytes(w)| && Patch(WordBytes(w), 4 * i, U32Bytes(v)) == WordBytes(w[i := v])
  {
    hide U32Bytes;
    var n := |w| - 1;
    if i < n {
      PatchWordBytes(w[..n], i, v);
      assert w[i := v][..n] == w[..n][i := v];
    } else {
      assert w[i := v][..n] == w[..n];
    }
  }

  /** Writing one header word of a file changes that word and nothing else. */
  lemma PatchHeader(p: seq<byte>, w: seq<u32>, t: seq<byte>, i: nat, v: u32)
    requires i < |w|
    ensures |p| + 4 * i + 4 <= |p + WordBytes(w) + t|
    ensures Patch(p + WordBytes(w) + t, |p| + 4 * i, U32Bytes(v)) == p + WordBytes(w[i := v]) + t
  {
    hide WordBytes, U32Bytes;
    PatchWordBytes(w, i, v);
    PatchMiddle(p, WordBytes(w), t, 4 * i, U32Bytes(v));
  }

  lemma PatchMiddle(p: seq<byte>, m: seq<byte>, t: seq<byte>, at: nat, data: seq<byte>)
    requires at + |data| <= |m|
    ensures Patch(p + m + t, |p| + at, data) == p + Patch(m, at, data) + t
  {
  }
}
