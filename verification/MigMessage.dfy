/**
 * The migration message: its layout (gim_mig.h), its header with the word checksum, and what
 * export writes and import accepts (gim_mig.c).
 */
module MigMessage {
  import opened Arith
  import opened Bytes
  import opened Bitmap
  import opened MigPages

  const PAGE_SIZE: nat := 4096
  const HDR_LEN: nat := 112
  const HDR_WORDS: nat := 28
  const CHECKSUM_WORD: nat := 26
  const MIG_VERSION: u32 := 1

  datatype Section = Ctx | Static | Dynamic | FbData | FbBitmap

  /** The sections a session may carry only once. */
  const ONCE: set<Section> := {Ctx, Static, Dynamic}

  function Index(s: Section): (i: nat)
    ensures i < 5
  {
    match s
    case Ctx => 0
    case Static => 1
    case Dynamic => 2
    case FbData => 3
    case FbBitmap => 4
  }

  // ---- sizes ----

  /** The least multiple of m that is at least x. */
  function Roundup(x: nat, m: nat): (r: nat)
    requires m > 0
    ensures x <= r < x + m && Mult(r, m)
  {
    if x == 0 then 0 else if x <= m then m else
      MultSum(m, Roundup(x - m, m), m);
      m + Roundup(x - m, m)
  }

  lemma {:induction false} RoundupFormula(x: nat, m: nat)
    requires m > 0
    ensures Roundup(x, m) == (x + m - 1) / m * m
  {
    var r := Roundup(x, m);
    MultMod(r, m);
    DivIs(x + m - 1, m, Quot(r, m));
  }

  function Ilog2(x: nat): nat {
    if x <= 1 then 0 else 1 + Ilog2(x / 2)
  }

  /** Sizes fixed for one device and VF: page size and page count of the framebuffer, and the fixed sections. */
  datatype Cfg = Cfg(page: nat, bits: nat, ctxLen: nat, fwS: nat, fwD: nat, ring: nat) {
    function BitmapOffset(): nat {
      HDR_LEN + ctxLen + fwD + fwS
    }

    function BitmapSize(): nat {
      Roundup(bits / 8, PAGE_SIZE)
    }

    function MsgSize(): (m: nat)
      requires page > 0
      ensures Mult(m, page) && m >= BitmapOffset() + BitmapSize()
    {
      Roundup(BitmapOffset() + BitmapSize(), page)
    }

    function Granularity(): nat {
      Ilog2(page / PAGE_SIZE)
    }

    /** The page size is one the 4-bit granularity field can express, and the bitmap covers every page. */
    ghost predicate Valid() {
      && page > 0
      && Granularity() < 16
      && page == Pow2(Granularity()) * PAGE_SIZE
      && bits % 8 == 0
      && Mult(ring, page) && ring >= 2 * page
      && MsgSize() + bits * page < TWO32 * 0x1000
    }
  }

  lemma {:induction false} Ilog2Is(g: nat)
    ensures Ilog2(Pow2(g)) == g
    decreases g
  {
    if g > 0 {
      Ilog2Is(g - 1);
    }
  }

  /** The granularity is the exponent of the page size in units of 4 KiB, and any of the first 16 will do. */
  lemma PageSizes(c: Cfg, g: nat)
    requires c.page == Pow2(g) * 4096
    ensures c.Granularity() == g
    ensures c.Valid() <==> g < 16 && c.bits % 8 == 0 && Mult(c.ring, c.page) && c.ring >= 2 * c.page && c.MsgSize() + c.bits * c.page < 0x1000_0000_0000
  {
    Ilog2Is(g);
    TimesPage(Pow2(g));
    hide Pow2, Ilog2, Roundup;
  }

  lemma TimesPage(n: nat)
    ensures n * 4096 / 4096 == n && (n > 0 ==> n * 4096 > 0)
  {
  }

  /** bits >> 3 drops the last partial byte; that leaves pages without a bit only at one residue. */
  lemma BitmapCoversIff(c: Cfg)
    ensures c.bits <= 8 * c.BitmapSize() <==> (c.bits % 8 == 0 || c.bits / 8 % PAGE_SIZE != 0)
  {
    MultMod(c.BitmapSize(), PAGE_SIZE);
    MultMod(c.bits / 8, PAGE_SIZE);
  }

  // ---- the dirty bitmap inside the message ----

  /** The message after bit p of its bitmap was cleared. */
  function ClearMsgBit(msg: seq<byte>, off: nat, p: nat): (r: seq<byte>)
    requires off + p / 8 < |msg|
    ensures |r| == |msg|
  {
    msg[off + p / 8 := ClearBit(msg[off + p / 8], p % 8)]
  }

  lemma ClearMsgBits(msg: seq<byte>, off: nat, n: nat, p: nat)
    requires off + (n + 7) / 8 <= |msg| && p < n
    ensures BitsOf(ClearMsgBit(msg, off, p), off, n) == BitsOf(msg, off, n)[p := false]
  {
    var r := ClearMsgBit(msg, off, p);
    forall i | 0 <= i < n
      ensures BitsOf(r, off, n)[i] == BitsOf(msg, off, n)[p := false][i]
    {
      if i / 8 == p / 8 {
        ClearBitBits(msg[off + p / 8], p % 8, i % 8);
      }
    }
  }

  lemma ZeroMsgBits(msg: seq<byte>, off: nat, n: nat)
    requires off + (n + 7) / 8 <= |msg| && forall i :: off <= i < off + (n + 7) / 8 ==> msg[i] == 0
    ensures Empty(BitsOf(msg, off, n))
  {
    forall i | 0 <= i < n
      ensures !BitsOf(msg, off, n)[i]
    {
      ZeroBits(i % 8);
    }
  }

  // ---- the header as 28 little-endian words ----

  datatype Sec = Sec(valid: bool, granularity: nat, length: nat, offset: nat) {
    predicate Fits() {
      granularity < 16 && length < TWO64 / 32 && offset < TWO64
    }
  }

  const NO_SEC: Sec := Sec(false, 0, 0, 0)

  datatype Header = Header(version: u32, length: nat, seqNo: nat, sec: seq<Sec>, checksum: u32) {
    predicate Fits() {
      length < TWO64 && seqNo < TWO64 && |sec| == 5 && forall i :: 0 <= i < 5 ==> sec[i].Fits()
    }
  }

  function Low(v: nat): u32 {
    v % TWO32
  }

  function High(v: nat): u32
    requires v < TWO64
  {
    v / TWO32
  }

  function SecWord(s: Sec): (v: nat)
    requires s.Fits()
    ensures v < TWO64
  {
    (if s.valid then 1 else 0) + 2 * s.granularity + 32 * s.length
  }

  function SecWords(s: Sec): (r: seq<u32>)
    requires s.Fits()
    ensures |r| == 4
  {
    [Low(SecWord(s)), High(SecWord(s)), Low(s.offset), High(s.offset)]
  }

  function HeaderWords(h: Header): (r: seq<u32>)
    requires h.Fits()
    ensures |r| == HDR_WORDS
  {
    [h.version, 0, Low(h.length), High(h.length), Low(h.seqNo), High(h.seqNo)]
    + SecWords(h.sec[0]) + SecWords(h.sec[1]) + SecWords(h.sec[2]) + SecWords(h.sec[3]) + SecWords(h.sec[4])
    + [h.checksum, 0]
  }

  function Long(lo: u32, hi: u32): nat {
    lo + TWO32 * hi
  }

  function SecOfWords(w: seq<u32>, i: nat): (s: Sec)
    requires |w| == HDR_WORDS && i < 5
    ensures s.Fits()
  {
    var v := Long(w[6 + 4 * i], w[7 + 4 * i]);
    Sec(v % 2 == 1, v / 2 % 16, v / 32, Long(w[8 + 4 * i], w[9 + 4 * i]))
  }

  function HeaderOf(w: seq<u32>): (h: Header)
    requires |w| == HDR_WORDS
    ensures h.Fits()
  {
    Header(w[0], Long(w[2], w[3]), Long(w[4], w[5]),
           [SecOfWords(w, 0), SecOfWords(w, 1), SecOfWords(w, 2), SecOfWords(w, 3), SecOfWords(w, 4)],
           w[CHECKSUM_WORD])
  }

  lemma LongRoundTrip(v: nat)
    requires v < TWO64
    ensures Long(Low(v), High(v)) == v
  {
  }

  lemma SecRoundTrip(w: seq<u32>, i: nat, s: Sec)
    requires |w| == HDR_WORDS && i < 5 && s.Fits() && w[6 + 4 * i..10 + 4 * i] == SecWords(s)
    ensures SecOfWords(w, i) == s
  {
    hide Low, High, Long, SecWord;
    var t := w[6 + 4 * i..10 + 4 * i];
    assert t[0] == w[6 + 4 * i] && t[1] == w[7 + 4 * i] && t[2] == w[8 + 4 * i] && t[3] == w[9 + 4 * i];
    LongRoundTrip(SecWord(s));
    LongRoundTrip(s.offset);
    SecWordParts(s);
  }

  lemma SecWordParts(s: Sec)
    requires s.Fits()
    ensures var v := SecWord(s); (v % 2 == 1 <==> s.valid) && v / 2 % 16 == s.granularity && v / 32 == s.length
  {
    var v := SecWord(s);
    var b := if s.valid then 1 else 0;
    assert v / 2 == s.granularity + 16 * s.length;
  }

  lemma HeaderRoundTrip(h: Header)
    requires h.Fits()
    ensures HeaderOf(HeaderWords(h)) == h
  {
    var w := HeaderWords(h);
    assert w[6..10] == SecWords(h.sec[0]);
    assert w[10..14] == SecWords(h.sec[1]);
    assert w[14..18] == SecWords(h.sec[2]);
    assert w[18..22] == SecWords(h.sec[3]);
    assert w[22..26] == SecWords(h.sec[4]);
    SecRoundTrip(w, 0, h.sec[0]);
    SecRoundTrip(w, 1, h.sec[1]);
    SecRoundTrip(w, 2, h.sec[2]);
    SecRoundTrip(w, 3, h.sec[3]);
    SecRoundTrip(w, 4, h.sec[4]);
    LongRoundTrip(h.length);
    LongRoundTrip(h.seqNo);
    assert HeaderOf(w).sec == h.sec;
  }

  function WordsAt(msg: seq<byte>): (w: seq<u32>)
    requires |msg| >= HDR_LEN
    ensures |w| == HDR_WORDS
  {
    seq(HDR_WORDS, i requires 0 <= i < HDR_WORDS => U32At(msg, 4 * i))
  }

  lemma WordsRoundTrip(w: seq<u32>, msg: seq<byte>)
    requires |w| == HDR_WORDS && |msg| >= HDR_LEN && msg[..HDR_LEN] == WordBytes(w)
    ensures WordsAt(msg) == w
  {
    forall i | 0 <= i < HDR_WORDS
      ensures WordsAt(msg)[i] == w[i]
    {
      WordBytesAt(w, i);
      assert msg[4 * i..4 * i + 4] == msg[..HDR_LEN][4 * i..4 * i + 4];
      U32RoundTrip(msg, 4 * i, w[i]);
    }
  }

  // ---- checksum ----

  /** The sum of the first n words, the checksum word left out. */
  function SumTo(w: seq<u32>, n: nat): nat
    requires n <= |w|
  {
    if n == 0 then 0 else SumTo(w, n - 1) + (if n - 1 == CHECKSUM_WORD then 0 else w[n - 1])
  }

  function Checksum(w: seq<u32>): u32 {
    SumTo(w, |w|) % TWO32
  }

  /** The checksum loop, with its 32-bit accumulator. */
  method ComputeChecksum(w: seq<u32>) returns (checksum: u32)
    ensures checksum == Checksum(w)
  {
    checksum := 0;
    var i := 0;
    while i < |w|
      invariant i <= |w| && checksum == SumTo(w, i) % TWO32
    {
      if i != CHECKSUM_WORD {
        checksum := (checksum + w[i]) % TWO32;
      }
      i := i + 1;
    }
  }

  predicate MsgCheck(w: seq<u32>)
    requires |w| == HDR_WORDS
  {
    w[0] == MIG_VERSION && w[CHECKSUM_WORD] == Checksum(w)
  }

  lemma {:induction false} SumUpdate(w: seq<u32>, n: nat, i: nat, v: u32)
    requires i < |w| && n <= |w|
    ensures SumTo(w[i := v], n) == SumTo(w, n) + (if i < n && i != CHECKSUM_WORD then v - w[i] else 0)
  {
    if n > 0 {
      SumUpdate(w, n - 1, i, v);
    }
  }

  lemma SmallShiftChanges(a: int, d: int)
    requires d != 0 && -TWO32 < d < TWO32
    ensures (a + d) % TWO32 != a % TWO32
  {
  }

  /** Altering any single word of an accepted header, padding included, makes it rejected. */
  lemma AlteredWordRejected(w: seq<u32>, i: nat, v: u32)
    requires |w| == HDR_WORDS && MsgCheck(w) && i < HDR_WORDS && v != w[i]
    ensures !MsgCheck(w[i := v])
  {
    SumUpdate(w, HDR_WORDS, i, v);
    if i != CHECKSUM_WORD {
      SmallShiftChanges(SumTo(w, HDR_WORDS), v - w[i]);
    }
  }

  // ---- export ----

  /** What the device hands out when a message is built. */
  datatype Payload = Payload(ctx: seq<byte>, fwS: seq<byte>, fwD: seq<byte>, shadow: seq<bool>) {
    predicate Fits(c: Cfg) {
      |ctx| == c.ctxLen && |fwS| == c.fwS && |fwD| == c.fwD && |shadow| == c.bits
    }
  }

  function SecOf(c: Cfg, s: Section): Sec {
    match s
    case Ctx => Sec(true, 0, c.ctxLen, HDR_LEN)
    case Static => Sec(true, 0, c.fwS, HDR_LEN + c.ctxLen)
    case Dynamic => Sec(true, 0, c.fwD, HDR_LEN + c.ctxLen + c.fwS)
    case FbData => NO_SEC
    case FbBitmap => Sec(true, c.Granularity(), c.BitmapSize(), c.BitmapOffset())
  }

  function SecIf(c: Cfg, secs: set<Section>, s: Section): Sec {
    if s in secs then SecOf(c, s) else NO_SEC
  }

  /** hdr->length: the message and, when the bitmap is sent, the dirty pages behind it. */
  function RoundLength(c: Cfg, secs: set<Section>, shadow: seq<bool>): nat
    requires c.page > 0
  {
    c.MsgSize() + (if FbBitmap in secs then c.page * Count(shadow) else 0)
  }

  lemma RoundLengthFits(c: Cfg, secs: set<Section>, shadow: seq<bool>)
    requires c.Valid() && |shadow| == c.bits
    ensures RoundLength(c, secs, shadow) < TWO32 * 0x1000
  {
    MulMono(Count(shadow), c.bits, c.page);
  }

  lemma SecFits(c: Cfg, secs: set<Section>, s: Section)
    requires c.Valid()
    ensures SecIf(c, secs, s).Fits()
  {
    hide Roundup, Pow2, Ilog2;
    assert c.MsgSize() < TWO32 * 0x1000;
  }

  function ExportHeader(c: Cfg, secs: set<Section>, shadow: seq<bool>, seqNo: nat, checksum: u32): (h: Header)
    requires c.Valid() && |shadow| == c.bits && seqNo < TWO64
    ensures h.Fits()
  {
    RoundLengthFits(c, secs, shadow);
    SecFits(c, secs, Ctx);
    SecFits(c, secs, Static);
    SecFits(c, secs, Dynamic);
    SecFits(c, secs, FbBitmap);
    Header(MIG_VERSION, RoundLength(c, secs, shadow), seqNo,
           [SecIf(c, secs, Ctx), SecIf(c, secs, Static), SecIf(c, secs, Dynamic), NO_SEC, SecIf(c, secs, FbBitmap)],
           checksum)
  }

  /** The header with its own checksum filled in. */
  function SealedHeader(c: Cfg, secs: set<Section>, shadow: seq<bool>, seqNo: nat): (h: Header)
    requires c.Valid() && |shadow| == c.bits && seqNo < TWO64
    ensures h.Fits()
  {
    ExportHeader(c, secs, shadow, seqNo, Checksum(HeaderWords(ExportHeader(c, secs, shadow, seqNo, 0))))
  }

  function BytesIf(present: bool, data: seq<byte>, n: nat): (r: seq<byte>)
    requires |data| == n
    ensures |r| == n
  {
    if present then data else Zeros(n)
  }

  /** The message buffer after gim_mig_vf_data_export on a zeroed buffer. */
  function Export(c: Cfg, secs: set<Section>, p: Payload, seqNo: nat): (msg: seq<byte>)
    requires c.Valid() && p.Fits(c) && seqNo < TWO64
    ensures |msg| == c.MsgSize()
  {
    HeaderBytes(c, secs, p.shadow, seqNo)
    + BytesIf(Ctx in secs, p.ctx, c.ctxLen)
    + BytesIf(Static in secs, p.fwS, c.fwS)
    + BytesIf(Dynamic in secs, p.fwD, c.fwD)
    + BytesIf(FbBitmap in secs, BitmapBytes(p.shadow, c.BitmapSize()), c.BitmapSize())
    + Zeros(c.MsgSize() - c.BitmapOffset() - c.BitmapSize())
  }

  predicate Disjoint(a: Sec, b: Sec) {
    a.offset + a.length <= b.offset || b.offset + b.length <= a.offset
  }

  /** Sections lie inside the message, behind the header, and do not overlap. */
  lemma SectionsDisjoint(c: Cfg, a: Section, b: Section)
    requires c.Valid() && a != b && a != FbData && b != FbData
    ensures Disjoint(SecOf(c, a), SecOf(c, b))
    ensures HDR_LEN <= SecOf(c, a).offset && SecOf(c, a).offset + SecOf(c, a).length <= c.MsgSize()
  {
  }

  // ---- import ----

  /** The device's answer to an imported section (context check included). */
  type Device = (Section, seq<byte>) -> bool

  datatype Import =
    | Imported(mask: set<Section>, delivered: map<Section, seq<byte>>, bitmapAt: nat)
    | Rejected(mask: set<Section>)

  function ImportSection(msg: seq<byte>, sec: Sec, s: Section, dev: Device, st: Import): Import {
    match st
    case Rejected(_) => st
    case Imported(mask, got, at) =>
      if !sec.valid then st
      else if s in mask then Rejected(mask)
      else if sec.offset + sec.length > |msg| then Rejected(mask)
      else if !dev(s, msg[sec.offset..sec.offset + sec.length]) then Rejected(mask)
      else Imported(mask + {s}, got[s := msg[sec.offset..sec.offset + sec.length]], at)
  }

  function ImportBitmap(c: Cfg, msg: seq<byte>, sec: Sec, st: Import): Import {
    match st
    case Rejected(_) => st
    case Imported(mask, got, at) =>
      if !sec.valid then st
      else if sec.offset + sec.length > |msg| then Rejected(mask)
      else if c.page != Pow2(sec.granularity) * PAGE_SIZE then Rejected(mask)
      else Imported(mask, got, sec.offset)
  }

  /** gim_mig_vf_data_import on a complete message, with the sections already taken in `mask`. */
  function ImportMsg(c: Cfg, msg: seq<byte>, mask: set<Section>, dev: Device): Import {
    if |msg| < HDR_LEN || !MsgCheck(WordsAt(msg)) then Rejected(mask)
    else
      var h := HeaderOf(WordsAt(msg));
      ImportBitmap(c, msg, h.sec[4],
        ImportSection(msg, h.sec[2], Dynamic, dev,
          ImportSection(msg, h.sec[1], Static, dev,
            ImportSection(msg, h.sec[0], Ctx, dev, Imported(mask, map[], c.BitmapOffset())))))
  }

  /** A section of the header that import can take: new, inside the message, and to the device's liking. */
  ghost predicate Takes(msg: seq<byte>, sec: Sec, s: Section, mask: set<Section>, dev: Device) {
    sec.valid ==> s !in mask && sec.offset + sec.length <= |msg| && dev(s, msg[sec.offset..sec.offset + sec.length])
  }

  /**
   * Any message at all: it is taken iff its version is the first, its checksum is the sum of the other words, each valid
   * section is new, inside the message and accepted by the device, and the bitmap lies inside it with the granularity of
   * this framebuffer.
   */
  lemma ImportedIff(c: Cfg, msg: seq<byte>, mask: set<Section>, dev: Device)
    requires |msg| >= HDR_LEN
    ensures var h, r := HeaderOf(WordsAt(msg)), ImportMsg(c, msg, mask, dev);
            r.Imported? <==>
              && h.version == 1 && h.checksum == SumTo(WordsAt(msg), HDR_WORDS) % TWO32
              && Takes(msg, h.sec[0], Ctx, mask, dev) && Takes(msg, h.sec[1], Static, mask, dev) && Takes(msg, h.sec[2], Dynamic, mask, dev)
              && (h.sec[4].valid ==> h.sec[4].offset + h.sec[4].length <= |msg| && c.page == Pow2(h.sec[4].granularity) * 4096)
  {
    hide SumTo, Pow2, WordsAt, HeaderOf, Takes;
    var h := HeaderOf(WordsAt(msg));
    HeaderFields(WordsAt(msg));
    ThreeTaken(c, msg, h, mask, dev);
  }

  /** Then exactly the valid sections are delivered, each with its own bytes. */
  lemma ImportedHas(c: Cfg, msg: seq<byte>, mask: set<Section>, dev: Device)
    requires |msg| >= HDR_LEN && ImportMsg(c, msg, mask, dev).Imported?
    ensures var h, r := HeaderOf(WordsAt(msg)), ImportMsg(c, msg, mask, dev);
            && (forall s :: s in r.mask <==> s in mask || (s in {Ctx, Static, Dynamic} && h.sec[Index(s)].valid))
            && (forall s :: s in r.delivered <==> s in {Ctx, Static, Dynamic} && h.sec[Index(s)].valid)
            && (forall s :: s in r.delivered ==>
                  r.delivered[s] == msg[h.sec[Index(s)].offset..h.sec[Index(s)].offset + h.sec[Index(s)].length])
            && r.bitmapAt == if h.sec[4].valid then h.sec[4].offset else c.BitmapOffset()
  {
    hide SumTo, Pow2, WordsAt, HeaderOf, MsgCheck, Takes;
    ThreeTaken(c, msg, HeaderOf(WordsAt(msg)), mask, dev);
  }

  /** The three sections one after the other. */
  lemma ThreeTaken(c: Cfg, msg: seq<byte>, h: Header, mask: set<Section>, dev: Device)
    requires |h.sec| == 5
    ensures var r := ImportSection(msg, h.sec[2], Dynamic, dev,
                       ImportSection(msg, h.sec[1], Static, dev,
                         ImportSection(msg, h.sec[0], Ctx, dev, Imported(mask, map[], c.BitmapOffset()))));
            && (r.Imported? <==> Takes(msg, h.sec[0], Ctx, mask, dev) && Takes(msg, h.sec[1], Static, mask, dev) && Takes(msg, h.sec[2], Dynamic, mask, dev))
            && (r.Imported? ==>
                  && (forall s :: s in r.mask <==> s in mask || (s in {Ctx, Static, Dynamic} && h.sec[Index(s)].valid))
                  && (forall s :: s in r.delivered <==> s in {Ctx, Static, Dynamic} && h.sec[Index(s)].valid)
                  && (forall s :: s in r.delivered ==>
                        r.delivered[s] == msg[h.sec[Index(s)].offset..h.sec[Index(s)].offset + h.sec[Index(s)].length])
                  && r.bitmapAt == c.BitmapOffset())
  {
    hide Takes;
    var s0 := Imported(mask, map[], c.BitmapOffset());
    SectionTaken(msg, h.sec[0], Ctx, mask, dev, s0);
    var s1 := ImportSection(msg, h.sec[0], Ctx, dev, s0);
    SectionTaken(msg, h.sec[1], Static, mask, dev, s1);
    var s2 := ImportSection(msg, h.sec[1], Static, dev, s1);
    SectionTaken(msg, h.sec[2], Dynamic, mask, dev, s2);
  }

  lemma HeaderFields(w: seq<u32>)
    requires |w| == HDR_WORDS
    ensures MsgCheck(w) <==> HeaderOf(w).version == 1 && HeaderOf(w).checksum == SumTo(w, HDR_WORDS) % TWO32
  {
    hide SumTo;
  }

  lemma SectionTaken(msg: seq<byte>, sec: Sec, s: Section, mask: set<Section>, dev: Device, st: Import)
    requires st.Imported? ==> (s in st.mask <==> s in mask)
    ensures var r := ImportSection(msg, sec, s, dev, st);
            && (r.Imported? <==> st.Imported? && Takes(msg, sec, s, mask, dev)) && (r.Rejected? ==> r.mask == st.mask)
            && (r.Imported? ==>
                  && r.mask == (if sec.valid then st.mask + {s} else st.mask) && r.bitmapAt == st.bitmapAt
                  && r.delivered == if sec.valid then st.delivered[s := msg[sec.offset..sec.offset + sec.length]] else st.delivered)
  {
  }

  /** Taken or not, the mask gains a section iff it is valid and it and all before it in the header can be taken. */
  lemma MaskAfter(c: Cfg, msg: seq<byte>, mask: set<Section>, dev: Device)
    requires |msg| >= HDR_LEN && MsgCheck(WordsAt(msg))
    ensures var h, m := HeaderOf(WordsAt(msg)), ImportMsg(c, msg, mask, dev).mask;
            && mask <= m <= mask + {Ctx, Static, Dynamic}
            && (Ctx in m <==> Ctx in mask || (h.sec[0].valid && Takes(msg, h.sec[0], Ctx, mask, dev)))
            && (Static in m <==> Static in mask || (h.sec[1].valid && Takes(msg, h.sec[0], Ctx, mask, dev) && Takes(msg, h.sec[1], Static, mask, dev)))
            && (Dynamic in m <==> Dynamic in mask || (h.sec[2].valid && Takes(msg, h.sec[0], Ctx, mask, dev)
                                                      && Takes(msg, h.sec[1], Static, mask, dev) && Takes(msg, h.sec[2], Dynamic, mask, dev)))
  {
    hide SumTo, Pow2, WordsAt, HeaderOf, MsgCheck, Takes;
    var h := HeaderOf(WordsAt(msg));
    var s0 := Imported(mask, map[], c.BitmapOffset());
    SectionTaken(msg, h.sec[0], Ctx, mask, dev, s0);
    var s1 := ImportSection(msg, h.sec[0], Ctx, dev, s0);
    SectionTaken(msg, h.sec[1], Static, mask, dev, s1);
    var s2 := ImportSection(msg, h.sec[1], Static, dev, s1);
    SectionTaken(msg, h.sec[2], Dynamic, mask, dev, s2);
  }

  predicate Accepts(dev: Device, p: Payload, secs: set<Section>) {
    && (Ctx in secs ==> dev(Ctx, p.ctx))
    && (Static in secs ==> dev(Static, p.fwS))
    && (Dynamic in secs ==> dev(Dynamic, p.fwD))
  }

  function Delivered(p: Payload, secs: set<Section>): map<Section, seq<byte>> {
    var a: map<Section, seq<byte>> := if Ctx in secs then map[Ctx := p.ctx] else map[];
    var b := if Static in secs then a[Static := p.fwS] else a;
    if Dynamic in secs then b[Dynamic := p.fwD] else b
  }

  lemma ExportWords(c: Cfg, secs: set<Section>, p: Payload, seqNo: nat)
    requires c.Valid() && p.Fits(c) && seqNo < TWO64
    ensures WordsAt(Export(c, secs, p, seqNo)) == HeaderWords(SealedHeader(c, secs, p.shadow, seqNo))
    ensures MsgCheck(WordsAt(Export(c, secs, p, seqNo)))
    ensures HeaderOf(WordsAt(Export(c, secs, p, seqNo))) == SealedHeader(c, secs, p.shadow, seqNo)
  {
    var msg, h := Export(c, secs, p, seqNo), SealedHeader(c, secs, p.shadow, seqNo);
    var w := HeaderWords(h);
    assert msg[..HDR_LEN] == WordBytes(w);
    WordsRoundTrip(w, msg);
    var w0 := HeaderWords(ExportHeader(c, secs, p.shadow, seqNo, 0));
    assert w == w0[CHECKSUM_WORD := h.checksum];
    SumUpdate(w0, HDR_WORDS, CHECKSUM_WORD, h.checksum);
    HeaderRoundTrip(h);
  }

  lemma ExportParts(c: Cfg, secs: set<Section>, p: Payload, seqNo: nat)
    requires c.Valid() && p.Fits(c) && seqNo < TWO64
    ensures var msg := Export(c, secs, p, seqNo);
            && msg[HDR_LEN..HDR_LEN + c.ctxLen] == BytesIf(Ctx in secs, p.ctx, c.ctxLen)
            && msg[HDR_LEN + c.ctxLen..HDR_LEN + c.ctxLen + c.fwS] == BytesIf(Static in secs, p.fwS, c.fwS)
            && msg[HDR_LEN + c.ctxLen + c.fwS..c.BitmapOffset()] == BytesIf(Dynamic in secs, p.fwD, c.fwD)
            && msg[c.BitmapOffset()..c.BitmapOffset() + c.BitmapSize()]
               == BytesIf(FbBitmap in secs, BitmapBytes(p.shadow, c.BitmapSize()), c.BitmapSize())
  {
  }

  /** Two words of the message as one number, the low one first. */
  function LongAt(msg: seq<byte>, at: nat): nat
    requires at + 8 <= |msg|
  {
    U32At(msg, at) + 0x1_0000_0000 * U32At(msg, at + 4)
  }

  /** The message as it lies in memory: version, length and sequence number where the structure has them. */
  lemma HeaderInMemory(c: Cfg, secs: set<Section>, p: Payload, seqNo: nat)
    requires c.Valid() && p.Fits(c) && seqNo < TWO64
    ensures |Export(c, secs, p, seqNo)| >= 112
    ensures var msg := Export(c, secs, p, seqNo);
            && U32At(msg, 0) == 1 && LongAt(msg, 8) == RoundLength(c, secs, p.shadow) && LongAt(msg, 16) == seqNo
            && U32At(msg, 104) == SumTo(WordsAt(msg), 28) % 0x1_0000_0000 && U32At(msg, 4) == U32At(msg, 108) == 0
  {
    ExportWords(c, secs, p, seqNo);
    var msg := Export(c, secs, p, seqNo);
    assert U32At(msg, 4) == WordsAt(msg)[1] && U32At(msg, 108) == WordsAt(msg)[27] && U32At(msg, 104) == WordsAt(msg)[26];
    hide Export, SealedHeader, RoundLength, U32At, SumTo;
    var w := WordsAt(msg);
    assert HeaderOf(w).length == Long(w[2], w[3]) && HeaderOf(w).seqNo == Long(w[4], w[5]) && HeaderOf(w).version == w[0];
    SealedIs(c, secs, p, seqNo);
  }

  lemma SealedIs(c: Cfg, secs: set<Section>, p: Payload, seqNo: nat)
    requires c.Valid() && p.Fits(c) && seqNo < TWO64
    ensures var h := SealedHeader(c, secs, p.shadow, seqNo);
            && h.version == 1 && h.length == RoundLength(c, secs, p.shadow) && h.seqNo == seqNo
            && h.sec == [SecIf(c, secs, Ctx), SecIf(c, secs, Static), SecIf(c, secs, Dynamic), NO_SEC, SecIf(c, secs, FbBitmap)]
  {
    hide RoundLength, HeaderWords, SecIf;
  }

  /** What a message carries of a section. */
  function DataOf(c: Cfg, p: Payload, s: Section): seq<byte> {
    match s
    case Ctx => p.ctx
    case Static => p.fwS
    case Dynamic => p.fwD
    case FbData => []
    case FbBitmap => BitmapBytes(p.shadow, c.BitmapSize())
  }

  /** The 16 bytes of a section in the header: a valid bit, the granularity, the length, and the offset of its data. */
  lemma SectionInMemory(c: Cfg, secs: set<Section>, p: Payload, seqNo: nat, s: Section)
    requires c.Valid() && p.Fits(c) && seqNo < TWO64 && s != FbData
    ensures |Export(c, secs, p, seqNo)| >= 112
    ensures var msg := Export(c, secs, p, seqNo);
            var at := 24 + 16 * (if s == Ctx then 0 else if s == Static then 1 else if s == Dynamic then 2 else 4);
            var word, offset := LongAt(msg, at), LongAt(msg, at + 8);
            && (word % 2 == 1 <==> s in secs)
            && (s in secs ==> offset + word / 32 <= |msg| && msg[offset..offset + word / 32] == DataOf(c, p, s))
            && (s == FbBitmap && s in secs ==> Pow2(word / 2 % 16) * 4096 == c.page)
  {
    hide Export, SealedHeader, HeaderWords, U32At, WordsAt, SecOfWords, HeaderOf, SecOf, Pow2, DataOf;
    ExportWords(c, secs, p, seqNo);
    SealedIs(c, secs, p, seqNo);
    SectionData(c, secs, p, seqNo, s);
    var msg := Export(c, secs, p, seqNo);
    FieldsAt(msg, if s == Ctx then 0 else if s == Static then 1 else if s == Dynamic then 2 else 4);
  }

  lemma SectionData(c: Cfg, secs: set<Section>, p: Payload, seqNo: nat, s: Section)
    requires c.Valid() && p.Fits(c) && seqNo < TWO64 && s != FbData
    ensures var msg, sec := Export(c, secs, p, seqNo), SecOf(c, s);
            && |msg| >= 112 && sec.valid && sec.offset + sec.length <= |msg|
            && (s in secs ==> msg[sec.offset..sec.offset + sec.length] == DataOf(c, p, s))
            && (s == FbBitmap ==> Pow2(sec.granularity) * 4096 == c.page)
  {
    ExportParts(c, secs, p, seqNo);
    SectionsDisjoint(c, s, if s == Ctx then Static else Ctx);
    hide Export, Roundup, Ilog2, Pow2;
  }

  lemma FieldsAt(msg: seq<byte>, i: nat)
    requires |msg| >= HDR_LEN && i < 5
    ensures HeaderOf(WordsAt(msg)).sec[i] == SecOfWords(WordsAt(msg), i)
    ensures var v := LongAt(msg, 24 + 16 * i);
            SecOfWords(WordsAt(msg), i) == Sec(v % 2 == 1, v / 2 % 16, v / 32, LongAt(msg, 32 + 16 * i))
  {
    hide U32At;
    var w := WordsAt(msg);
    assert w[6 + 4 * i] == U32At(msg, 24 + 16 * i) && w[7 + 4 * i] == U32At(msg, 28 + 16 * i);
    assert w[8 + 4 * i] == U32At(msg, 32 + 16 * i) && w[9 + 4 * i] == U32At(msg, 36 + 16 * i);
  }

  /** The bitmap the copy loops read back from the message is the one that was exported. */
  lemma ExportBits(c: Cfg, secs: set<Section>, p: Payload, seqNo: nat)
    requires c.Valid() && p.Fits(c) && seqNo < TWO64
    ensures c.BitmapOffset() + (c.bits + 7) / 8 <= c.MsgSize()
    ensures BitsOf(Export(c, secs, p, seqNo), c.BitmapOffset(), c.bits)
            == if FbBitmap in secs then p.shadow else NoBits(c.bits)
  {
    var msg := Export(c, secs, p, seqNo);
    BitmapCoversIff(c);
    ExportParts(c, secs, p, seqNo);
    var part := msg[c.BitmapOffset()..c.BitmapOffset() + c.BitmapSize()];
    if FbBitmap in secs {
      BitmapRoundTrip(p.shadow, c.BitmapSize(), msg, c.BitmapOffset());
    } else {
      forall i | c.BitmapOffset() <= i < c.BitmapOffset() + (c.bits + 7) / 8
        ensures msg[i] == 0
      {
        assert msg[i] == part[i - c.BitmapOffset()];
      }
      ZeroMsgBits(msg, c.BitmapOffset(), c.bits);
    }
  }

  /** What importing section s of an exported message amounts to, whatever was taken before. */
  function Take(secs: set<Section>, s: Section, data: seq<byte>, st: Import): Import {
    if st.Rejected? || s !in secs then st
    else if s in st.mask then Rejected(st.mask)
    else Imported(st.mask + {s}, st.delivered[s := data], st.bitmapAt)
  }

  lemma TakeSection(c: Cfg, secs: set<Section>, msg: seq<byte>, s: Section, data: seq<byte>, dev: Device, st: Import)
    requires s != FbData && s != FbBitmap
    requires SecOf(c, s).offset + SecOf(c, s).length <= |msg|
    requires s in secs ==> msg[SecOf(c, s).offset..SecOf(c, s).offset + SecOf(c, s).length] == data && dev(s, data)
    ensures ImportSection(msg, SecIf(c, secs, s), s, dev, st) == Take(secs, s, data, st)
  {
  }

  lemma TakeAll(secs: set<Section>, p: Payload, mask: set<Section>, at: nat)
    requires FbData !in secs
    ensures var r := Take(secs, Dynamic, p.fwD, Take(secs, Static, p.fwS, Take(secs, Ctx, p.ctx, Imported(mask, map[], at))));
            if mask * secs * ONCE == {} then r == Imported(mask + secs * ONCE, Delivered(p, secs), at) else r.Rejected?
  {
    OnceCases(mask, secs);
    var s1 := Take(secs, Ctx, p.ctx, Imported(mask, map[], at));
    var s2 := Take(secs, Static, p.fwS, s1);
    var s3 := Take(secs, Dynamic, p.fwD, s2);
    if mask * secs * ONCE == {} {
      assert s3.Imported?;
      assert s3.mask == mask + secs * ONCE;
      assert s3.delivered == Delivered(p, secs);
    }
  }

  /**
   * Import of an exported message takes every section's bytes unchanged, if the device agrees and no
   * section allowed only once was taken before; a section taken before makes it fail.
   */
  lemma ImportExport(c: Cfg, secs: set<Section>, p: Payload, seqNo: nat, mask: set<Section>, dev: Device)
    requires c.Valid() && p.Fits(c) && seqNo < TWO64 && FbData !in secs
    requires Accepts(dev, p, secs)
    ensures mask * secs * ONCE == {} ==>
              ImportMsg(c, Export(c, secs, p, seqNo), mask, dev)
              == Imported(mask + secs * ONCE, Delivered(p, secs), c.BitmapOffset())
    ensures mask * secs * ONCE != {} ==> ImportMsg(c, Export(c, secs, p, seqNo), mask, dev).Rejected?
  {
    var msg := Export(c, secs, p, seqNo);
    ExportWords(c, secs, p, seqNo);
    ExportParts(c, secs, p, seqNo);
    ImportSections(c, secs, p, mask, dev, msg, SealedHeader(c, secs, p.shadow, seqNo));
  }

  lemma ImportSections(c: Cfg, secs: set<Section>, p: Payload, mask: set<Section>, dev: Device, msg: seq<byte>, h: Header)
    requires c.Valid() && p.Fits(c) && FbData !in secs && Accepts(dev, p, secs) && |msg| == c.MsgSize()
    requires h.sec == [SecIf(c, secs, Ctx), SecIf(c, secs, Static), SecIf(c, secs, Dynamic), NO_SEC, SecIf(c, secs, FbBitmap)]
    requires MsgCheck(WordsAt(msg)) && HeaderOf(WordsAt(msg)) == h
    requires Ctx in secs ==> msg[HDR_LEN..HDR_LEN + c.ctxLen] == p.ctx
    requires Static in secs ==> msg[HDR_LEN + c.ctxLen..HDR_LEN + c.ctxLen + c.fwS] == p.fwS
    requires Dynamic in secs ==> msg[HDR_LEN + c.ctxLen + c.fwS..c.BitmapOffset()] == p.fwD
    ensures mask * secs * ONCE == {} ==>
              ImportMsg(c, msg, mask, dev) == Imported(mask + secs * ONCE, Delivered(p, secs), c.BitmapOffset())
    ensures mask * secs * ONCE != {} ==> ImportMsg(c, msg, mask, dev).Rejected?
  {
    var s0 := Imported(mask, map[], c.BitmapOffset());
    TakeSection(c, secs, msg, Ctx, p.ctx, dev, s0);
    var s1 := Take(secs, Ctx, p.ctx, s0);
    TakeSection(c, secs, msg, Static, p.fwS, dev, s1);
    var s2 := Take(secs, Static, p.fwS, s1);
    TakeSection(c, secs, msg, Dynamic, p.fwD, dev, s2);
    TakeAll(secs, p, mask, c.BitmapOffset());
  }

  lemma OnceCases(mask: set<Section>, secs: set<Section>)
    requires FbData !in secs
    ensures mask * secs * ONCE == {}
            <==> (Ctx in secs ==> Ctx !in mask) && (Static in secs ==> Static !in mask) && (Dynamic in secs ==> Dynamic !in mask)
    ensures secs * ONCE == (if Ctx in secs then {Ctx} else {}) + (if Static in secs then {Static} else {})
                           + (if Dynamic in secs then {Dynamic} else {})
  {
    var both := mask * secs * ONCE;
    if both != {} {
      var s :| s in both;
      assert s == Ctx || s == Static || s == Dynamic;
    } else {
      assert Ctx !in both && Static !in both && Dynamic !in both;
    }
  }

  // ---- export as a series of writes into a zeroed buffer ----

  function PatchIf(present: bool, s: seq<byte>, at: nat, data: seq<byte>): (r: seq<byte>)
    requires at + |data| <= |s|
    ensures |r| == |s|
  {
    if present then Patch(s, at, data) else s
  }

  /** The buffer after the data of the pending sections was written into it. */
  function Written(c: Cfg, secs: set<Section>, p: Payload, m: seq<byte>): (r: seq<byte>)
    requires c.page > 0 && p.Fits(c) && |m| == c.MsgSize()
    ensures |r| == |m|
  {
    var m1 := PatchIf(Ctx in secs, m, HDR_LEN, p.ctx);
    var m2 := PatchIf(Static in secs, m1, HDR_LEN + c.ctxLen, p.fwS);
    var m3 := PatchIf(Dynamic in secs, m2, HDR_LEN + c.ctxLen + c.fwS, p.fwD);
    PatchIf(FbBitmap in secs, m3, c.BitmapOffset(), BitmapBytes(p.shadow, c.BitmapSize()))
  }

  function HeaderBytes(c: Cfg, secs: set<Section>, shadow: seq<bool>, seqNo: nat): (r: seq<byte>)
    requires c.Valid() && |shadow| == c.bits && seqNo < TWO64
    ensures |r| == HDR_LEN
  {
    WordBytes(HeaderWords(SealedHeader(c, secs, shadow, seqNo)))
  }

  /** Writing the pending sections and the header into a zeroed buffer gives the exported message. */
  lemma ExportByWrites(c: Cfg, secs: set<Section>, p: Payload, seqNo: nat)
    requires c.Valid() && p.Fits(c) && seqNo < TWO64
    ensures Patch(Written(c, secs, p, Zeros(c.MsgSize())), 0, HeaderBytes(c, secs, p.shadow, seqNo)) == Export(c, secs, p, seqNo)
  {
    hide HeaderBytes, Cfg.MsgSize, BitmapBytes, Cfg.BitmapSize, Zeros, Patch, PatchIf, BytesIf, Cfg.Granularity, Pow2;
    var hdr := HeaderBytes(c, secs, p.shadow, seqNo);
    var bm := BitmapBytes(p.shadow, c.BitmapSize());
    WritesConcat(c.MsgSize(), hdr, p.ctx, p.fwS, p.fwD, bm, Ctx in secs, Static in secs, Dynamic in secs, FbBitmap in secs);
  }

  lemma WritesConcat(size: nat, h: seq<byte>, x: seq<byte>, y: seq<byte>, z: seq<byte>, w: seq<byte>,
                     bx: bool, by_: bool, bz: bool, bw: bool)
    requires |h| + |x| + |y| + |z| + |w| <= size
    ensures var m1 := PatchIf(bx, Zeros(size), |h|, x);
            var m2 := PatchIf(by_, m1, |h| + |x|, y);
            var m3 := PatchIf(bz, m2, |h| + |x| + |y|, z);
            var m4 := PatchIf(bw, m3, |h| + |x| + |y| + |z|, w);
            Patch(m4, 0, h)
            == h + BytesIf(bx, x, |x|) + BytesIf(by_, y, |y|) + BytesIf(bz, z, |z|) + BytesIf(bw, w, |w|)
               + Zeros(size - |h| - |x| - |y| - |z| - |w|)
  {
    hide *;
    var n := size - |h|;
    var p := Zeros(|h|);
    ZerosSplit(|h|, n);
    TwoWrites(p, n, bx, x, by_, y);
    var q := p + BytesIf(bx, x, |x|) + BytesIf(by_, y, |y|);
    TwoWrites(q, n - |x| - |y|, bz, z, bw, w);
    WriteFront(h, BytesIf(bx, x, |x|), BytesIf(by_, y, |y|), BytesIf(bz, z, |z|), BytesIf(bw, w, |w|),
               Zeros(n - |x| - |y| - |z| - |w|));
  }

  lemma ZerosSplit(a: nat, b: nat)
    ensures Zeros(a + b) == Zeros(a) + Zeros(b)
  {
  }

  lemma TwoWrites(p: seq<byte>, n: nat, bx: bool, x: seq<byte>, by_: bool, y: seq<byte>)
    requires |x| + |y| <= n
    ensures PatchIf(by_, PatchIf(bx, p + Zeros(n), |p|, x), |p| + |x|, y)
            == p + BytesIf(bx, x, |x|) + BytesIf(by_, y, |y|) + Zeros(n - |x| - |y|)
  {
    WriteNext(p, n, bx, x);
    WriteNext(p + BytesIf(bx, x, |x|), n - |x|, by_, y);
  }

  lemma WriteNext(pre: seq<byte>, n: nat, b: bool, data: seq<byte>)
    requires |data| <= n
    ensures PatchIf(b, pre + Zeros(n), |pre|, data) == pre + BytesIf(b, data, |data|) + Zeros(n - |data|)
  {
  }

  lemma WriteFront(h: seq<byte>, x: seq<byte>, y: seq<byte>, z: seq<byte>, w: seq<byte>, e: seq<byte>)
    ensures Patch(Zeros(|h|) + x + y + z + w + e, 0, h) == h + x + y + z + w + e
  {
    Regroup(Zeros(|h|), x, y, z, w, e);
    Regroup(h, x, y, z, w, e);
    var rest := x + y + z + w + e;
    assert (Zeros(|h|) + rest)[|h|..] == rest;
  }

  lemma Regroup(h: seq<byte>, x: seq<byte>, y: seq<byte>, z: seq<byte>, w: seq<byte>, e: seq<byte>)
    ensures h + x + y + z + w + e == h + (x + y + z + w + e)
  {
  }
}
