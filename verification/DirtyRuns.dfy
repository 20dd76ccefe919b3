/**
 * One virtual function's dirty pages over a whole run: guest writes, queries that move hardware bits into
 * the accumulated bits, queries that fail, and clears. A page is named by its number in the framebuffer.
 */
module DirtyRuns {
  import opened Bytes
  import opened Bitmap
  import opened Dirtybit

  /** `wrote` is history: the pages the guest dirtied since the last clear. */
  datatype Vf = Vf(hw: set<nat>, acc: seq<byte>, wrote: set<nat>)

  datatype Event =
    | Write(page: nat)
    | Query(off: nat, cnt: nat, preserve: bool)
    | Failed(left: set<nat>)
    | Clear(left: set<nat>)

  /** What the hardware reports for a window, first page first. */
  function WindowBits(hw: set<nat>, off: nat, cnt: nat): (r: seq<bool>)
    ensures |r| == cnt
  {
    seq(cnt, i requires 0 <= i < cnt => off + i in hw)
  }

  /** Offsets and sizes in bytes are truncated, see Dirtybit.ByteSize. */
  predicate Enabled(v: Vf, e: Event) {
    match e
    case Write(p) => p < 8 * |v.acc|
    case Query(off, cnt, _) => off + cnt <= 8 * |v.acc|
    case _ => true
  }

  function Next(v: Vf, e: Event): Vf
    requires Enabled(v, e)
  {
    match e
    case Write(p) => v.(hw := v.hw + {p}, wrote := v.wrote + {p})
    case Query(off, cnt, preserve) =>
      v.(hw := if preserve then v.hw else (set p | p in v.hw && !(off <= p < off + cnt)),
         acc := OrAt(v.acc, off / 8, BitmapBytes(WindowBits(v.hw, off, cnt), cnt / 8)))
    case Failed(left) => v.(hw := left, acc := seq(|v.acc|, _ => 0xff))
    case Clear(left) => Vf(left, Zeros(|v.acc|), {})
  }

  /** No page dirtied since the last clear is forgotten. */
  ghost predicate Kept(v: Vf) {
    forall p :: p in v.wrote ==> p < 8 * |v.acc| && (p in v.hw || BitIn(v.acc, p))
  }

  /** A bit after merging a window of bits at byte o. */
  lemma MergedBit(acc: seq<byte>, o: nat, bits: seq<bool>, n: nat, p: nat)
    requires o + n <= |acc| && p < 8 * |acc|
    ensures BitIn(OrAt(acc, o, BitmapBytes(bits, n)), p) == (BitIn(acc, p) || (8 * o <= p < 8 * (o + n) && BitAt(bits, p - 8 * o)))
  {
    hide Or;
    if 8 * o <= p < 8 * (o + n) {
      var j := p / 8 - o;
      PackBits(Eight(bits, j), p % 8);
      OrBits(acc[p / 8], PackByte(Eight(bits, j)), p % 8);
    }
  }

  lemma FilledBit(n: nat, p: nat)
    requires p < 8 * n
    ensures BitIn(seq(n, _ => 0xff), p)
  {
    LowOnes(8, p % 8);
  }

  predicate Aligned(off: nat, cnt: nat) {
    cnt == 0 || (off % 8 == 0 && cnt % 8 == 0)
  }

  /** A step that keeps the pages: any but a query whose window is not made of whole bytes. */
  predicate Keeps(e: Event) {
    e.Query? && !e.preserve ==> Aligned(e.off, e.cnt)
  }

  lemma NextKept(v: Vf, e: Event)
    requires Kept(v) && Enabled(v, e) && Keeps(e)
    ensures Kept(Next(v, e)) && |Next(v, e).acc| == |v.acc|
  {
    var r := Next(v, e);
    forall p | p in r.wrote
      ensures p < 8 * |r.acc| && (p in r.hw || BitIn(r.acc, p))
    {
      match e
      case Query(off, cnt, preserve) => MergedBit(v.acc, off / 8, WindowBits(v.hw, off, cnt), cnt / 8, p);
      case Failed(_) => FilledBit(|v.acc|, p);
      case _ =>
    }
  }

  ghost predicate CanRun(v: Vf, es: seq<Event>)
    decreases |es|
  {
    es == [] || (Enabled(v, es[0]) && CanRun(Next(v, es[0]), es[1..]))
  }

  ghost function Run(v: Vf, es: seq<Event>): Vf
    requires CanRun(v, es)
    decreases |es|
  {
    if es == [] then v else Run(Next(v, es[0]), es[1..])
  }

  /** Over any run whose windows are whole bytes, failures and clears included, no dirty page is lost. */
  lemma {:induction false} NoPageLost(v: Vf, es: seq<Event>)
    requires Kept(v) && CanRun(v, es) && forall i :: 0 <= i < |es| ==> Keeps(es[i])
    ensures Kept(Run(v, es))
    decreases |es|
  {
    hide Next, Kept, Enabled;
    if es != [] {
      NextKept(v, es[0]);
      NoPageLost(Next(v, es[0]), es[1..]);
    }
  }

  /** A clearing query loses no page, whatever the state, iff its window is made of whole bytes of the bitmap. */
  lemma QueryKeepsIff(off: nat, cnt: nat, n: nat)
    requires off + cnt <= 8 * n
    ensures (forall v: Vf :: |v.acc| == n && Kept(v) ==> Kept(Next(v, Query(off, cnt, false)))) <==> Aligned(off, cnt)
  {
    hide Kept, Next;
    if Aligned(off, cnt) {
      forall v: Vf | |v.acc| == n && Kept(v)
        ensures Kept(Next(v, Query(off, cnt, false)))
      {
        NextKept(v, Query(off, cnt, false));
      }
    } else {
      var v := LosingState(off, cnt, n);
      assert !Kept(Next(v, Query(off, cnt, false)));
    }
  }

  lemma LosingState(off: nat, cnt: nat, n: nat) returns (v: Vf)
    requires off + cnt <= 8 * n && !Aligned(off, cnt)
    ensures |v.acc| == n && Kept(v) && !Kept(Next(v, Query(off, cnt, false)))
  {
    var p := if off % 8 != 0 then off else off + cnt - 1;
    v := Vf({p}, Zeros(n), {p});
    var r := Next(v, Query(off, cnt, false));
    MergedBit(v.acc, off / 8, WindowBits(v.hw, off, cnt), cnt / 8, p);
    ZeroBits(p % 8);
    assert p in r.wrote && p !in r.hw && !BitIn(r.acc, p);
  }

  /** After a clearing query of whole bytes every page of the window written since the last clear is in the accumulated bits. */
  lemma WindowIsRecorded(v: Vf, off: nat, cnt: nat, p: nat)
    requires Kept(v) && off + cnt <= 8 * |v.acc| && Aligned(off, cnt) && off <= p < off + cnt && p in v.wrote
    ensures BitIn(Next(v, Query(off, cnt, false)).acc, p)
  {
    hide BitIn;
    NextKept(v, Query(off, cnt, false));
  }

  // ---- the driver's operations are these steps ----

  /** The hardware's answer: bit k of the bitmap is the k-th page of the window. */
  ghost predicate Answers(bitmap: seq<byte>, hw: set<nat>, off: nat, cnt: nat) {
    cnt / 8 <= |bitmap| && forall k: nat :: k < 8 * (cnt / 8) ==> BitIn(bitmap, k) == (off + k in hw)
  }

  lemma {:induction false} SameBits(a: nat, b: nat, n: nat)
    requires a < Pow2(n) && b < Pow2(n) && forall k: nat :: k < n ==> Bit(a, k) == Bit(b, k)
    ensures a == b
    decreases n
  {
    if n > 0 {
      forall k: nat | k < n - 1
        ensures Bit(a / 2, k) == Bit(b / 2, k)
      {
        assert Bit(a, k + 1) == Bit(a / 2, k) && Bit(b, k + 1) == Bit(b / 2, k);
      }
      SameBits(a / 2, b / 2, n - 1);
      assert Bit(a, 0) == Bit(b, 0);
    }
  }

  lemma AnswerBytes(bitmap: seq<byte>, hw: set<nat>, off: nat, cnt: nat)
    requires Answers(bitmap, hw, off, cnt)
    ensures bitmap[..cnt / 8] == BitmapBytes(WindowBits(hw, off, cnt), cnt / 8)
  {
    hide Bit, Pack;
    var bits := WindowBits(hw, off, cnt);
    assert Pow2(8) == 256;
    forall j | 0 <= j < cnt / 8
      ensures bitmap[j] == PackByte(Eight(bits, j))
    {
      forall k: nat | k < 8
        ensures Bit(bitmap[j], k) == Bit(PackByte(Eight(bits, j)), k)
      {
        PackBits(Eight(bits, j), k);
        assert BitIn(bitmap, 8 * j + k) == (off + (8 * j + k) in hw);
      }
      SameBits(bitmap[j], PackByte(Eight(bits, j)), 8);
    }
  }

  lemma WindowBytes(a: nat, b: nat, n: nat)
    requires a + b <= 8 * n
    ensures a / 8 + b / 8 <= n
  {
  }

  /** A query of a VF, in bytes of its framebuffer, that succeeds is the step Query on its pages; one that fails is Failed. */
  method QueryVf(b: AccBits, i: nat, offset: nat, querySize: nat, bitmap: array<byte>, failed: bool, ghost v: Vf, ghost preserve: bool, ghost left: set<nat>)
    returns (ok: bool)
    requires b.Valid() && b.page > 0 && i < |b.ptr| && bitmap != b.whole && b.Region(i) == v.acc
    requires Enabled(v, Query(offset / b.page, querySize / b.page, preserve)) && querySize / b.page / 8 <= bitmap.Length
    requires !failed ==> Answers(bitmap[..], v.hw, offset / b.page, querySize / b.page)
    modifies b.whole
    ensures ok == !failed
    ensures b.Region(i) == Next(v, if ok then Query(offset / b.page, querySize / b.page, preserve) else Failed(left)).acc
  {
    hide OrAt, Answers, BitIn, BitsMerged, AllBits;
    WindowBytes(offset / b.page, querySize / b.page, |v.acc|);
    if !failed {
      AnswerBytes(bitmap[..], v.hw, offset / b.page, querySize / b.page);
      assert bitmap[..][..querySize / b.page / 8] == bitmap[..querySize / b.page / 8];
    }
    ok := b.QueryAndAccumulate(i, offset, querySize, bitmap, failed);
  }

  /** amdgv_dirtybit_clear_fb_dbit as far as the accumulated bits go, whatever the hardware keeps. */
  method ClearVf(b: AccBits, i: nat, ghost v: Vf, ghost left: set<nat>)
    requires b.Valid() && i < |b.ptr| && b.Region(i) == v.acc
    modifies b.whole
    ensures b.Region(i) == Next(v, Clear(left)).acc
  {
    b.SetVfAccBits(i, 0);
  }
}
