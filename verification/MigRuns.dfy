/** Closed forms for several page steps in a row: what one call of the copy thread amounts to. */
module MigRuns {
  import opened Arith
  import opened Bytes
  import opened Bitmap
  import opened MigPages
  import opened MigMessage
  import opened MigTransfer

  /** A side whose message is in place; at copied == 0 the message was just exported. */
  ghost predicate Shape(c: Cfg, s: Side) {
    c.Valid() && |s.msg| == c.MsgSize() && s.copied <= |s.msg| && Mult(s.copied, c.page)
  }

  ghost function BitmapOf(c: Cfg, msg: seq<byte>): (r: seq<bool>)
    requires c.Valid() && |msg| == c.MsgSize()
    ensures |r| == c.bits
  {
    BitmapFits(c);
    BitsOf(msg, c.BitmapOffset(), c.bits)
  }

  // ---- the message after its first k dirty bits were cleared ----

  ghost function DropMsg(c: Cfg, msg: seq<byte>, k: nat): (r: seq<byte>)
    requires c.Valid() && |msg| == c.MsgSize()
    ensures |r| == |msg|
    decreases k
  {
    var p := NextBit(BitmapOf(c, msg), 0);
    BitmapFits(c);
    if k == 0 || p == c.bits then msg else DropMsg(c, ClearMsgBit(msg, c.BitmapOffset(), p), k - 1)
  }

  /** bitmap_clear on the bitmap inside the message. */
  ghost function ClearMsgRange(c: Cfg, msg: seq<byte>, p: nat, cnt: nat): (r: seq<byte>)
    requires c.Valid() && |msg| == c.MsgSize() && p + cnt <= c.bits
    ensures |r| == |msg|
    decreases cnt
  {
    BitmapFits(c);
    if cnt == 0 then msg else ClearMsgRange(c, ClearMsgBit(msg, c.BitmapOffset(), p), p + 1, cnt - 1)
  }

  lemma ClearOne(c: Cfg, msg: seq<byte>, p: nat)
    requires c.Valid() && |msg| == c.MsgSize() && p < c.bits
    ensures c.BitmapOffset() + p / 8 < |msg|
    ensures BitmapOf(c, ClearMsgBit(msg, c.BitmapOffset(), p)) == BitmapOf(c, msg)[p := false]
  {
    BitmapFits(c);
    ClearMsgBits(msg, c.BitmapOffset(), c.bits, p);
  }

  lemma {:induction false} DropMsgBits(c: Cfg, msg: seq<byte>, k: nat)
    requires c.Valid() && |msg| == c.MsgSize()
    ensures BitmapOf(c, DropMsg(c, msg, k)) == Drop(BitmapOf(c, msg), k)
    decreases k
  {
    hide Cfg.Valid, Cfg.MsgSize, BitmapOf;
    var p := NextBit(BitmapOf(c, msg), 0);
    if k > 0 && p < c.bits {
      ClearOne(c, msg, p);
      DropMsgBits(c, ClearMsgBit(msg, c.BitmapOffset(), p), k - 1);
    }
  }

  lemma {:induction false} DropMsgSplit(c: Cfg, msg: seq<byte>, a: nat, b: nat)
    requires c.Valid() && |msg| == c.MsgSize()
    ensures DropMsg(c, msg, a + b) == DropMsg(c, DropMsg(c, msg, a), b)
    decreases a
  {
    hide Cfg.Valid, Cfg.MsgSize, BitmapOf;
    var p := NextBit(BitmapOf(c, msg), 0);
    if a > 0 && p < c.bits {
      ClearOne(c, msg, p);
      DropMsgSplit(c, ClearMsgBit(msg, c.BitmapOffset(), p), a - 1, b);
    }
  }

  lemma {:induction false} RunDropMsg(c: Cfg, msg: seq<byte>, p: nat, cnt: nat)
    requires c.Valid() && |msg| == c.MsgSize() && RunAt(BitmapOf(c, msg), p, cnt)
    ensures DropMsg(c, msg, cnt) == ClearMsgRange(c, msg, p, cnt)
    decreases cnt
  {
    hide Cfg.Valid, Cfg.MsgSize, BitmapOf;
    if cnt > 0 {
      NextIs(BitmapOf(c, msg), p);
      ClearOne(c, msg, p);
      RunDropMsg(c, ClearMsgBit(msg, c.BitmapOffset(), p), p + 1, cnt - 1);
    }
  }

  // ---- source: up to k pages of the round ----

  datatype Emission = Emission(side: Side, data: seq<byte>)

  ghost predicate CanEmit(c: Cfg, s: Side, fb: seq<byte>) {
    Shape(c, s) && |fb| == c.bits * c.page && (s.copied == |s.msg| ==> s.Ok(c))
  }

  ghost function EmitMany(c: Cfg, s: Side, fb: seq<byte>, k: nat): (r: Emission)
    requires CanEmit(c, s, fb)
    ensures CanEmit(c, r.side, fb)
    decreases k
  {
    if k == 0 || !SourceReady(c, s, fb) then Emission(s, []) else
      var rest := EmitMany(c, EmitSide(c, s, fb), fb, k - 1);
      Emission(rest.side, EmitBytes(c, s, fb) + rest.data)
  }

  lemma {:induction false} EmitSplit(c: Cfg, s: Side, fb: seq<byte>, a: nat, b: nat)
    requires CanEmit(c, s, fb)
    ensures var m := EmitMany(c, s, fb, a);
            EmitMany(c, s, fb, a + b) == Emission(EmitMany(c, m.side, fb, b).side, m.data + EmitMany(c, m.side, fb, b).data)
    decreases a
  {
    hide CanEmit, EmitSide, EmitBytes, SourceReady;
    var r := EmitMany(c, s, fb, a + b);
    if a > 0 && SourceReady(c, s, fb) {
      EmitOk(c, s, fb);
      var s1, d := EmitSide(c, s, fb), EmitBytes(c, s, fb);
      EmitSplit(c, s1, fb, a - 1, b);
      var m := EmitMany(c, s1, fb, a - 1);
      assert d + m.data + EmitMany(c, m.side, fb, b).data == d + (m.data + EmitMany(c, m.side, fb, b).data);
    } else if a > 0 {
      assert EmitMany(c, s, fb, b) == Emission(s, []);
      assert r == Emission(s, []);
    } else {
      assert [] + r.data == r.data;
    }
  }

  lemma EmitOk(c: Cfg, s: Side, fb: seq<byte>)
    requires CanEmit(c, s, fb) && SourceReady(c, s, fb)
    ensures CanEmit(c, EmitSide(c, s, fb), fb)
  {
  }

  /** n bytes of the message, a whole number of pages. */
  lemma {:induction false} EmitMsgPages(c: Cfg, s: Side, fb: seq<byte>, n: nat)
    requires CanEmit(c, s, fb) && Mult(n, c.page) && s.copied + n <= |s.msg|
    ensures EmitMany(c, s, fb, Quot(n, c.page)) == Emission(Side(s.msg, s.copied + n), s.msg[s.copied..s.copied + n])
    decreases n
  {
    hide CanEmit, SourceReady, EmitSide, EmitBytes;
    if n > 0 {
      EmitMsgPage(c, s, fb, n);
      var a := s.copied;
      EmitMsgPages(c, EmitSide(c, s, fb), fb, n - c.page);
      SliceJoin(s.msg, a, a + c.page, a + n);
    }
  }

  lemma SliceJoin(s: seq<byte>, a: nat, b: nat, d: nat)
    requires a <= b <= d <= |s|
    ensures s[a..b] + s[b..d] == s[a..d]
  {
  }

  lemma EmitMsgPage(c: Cfg, s: Side, fb: seq<byte>, n: nat)
    requires CanEmit(c, s, fb) && Mult(n, c.page) && s.copied + n <= |s.msg| && n > 0
    ensures c.page > 0 && SourceReady(c, s, fb) && s.copied + c.page <= |s.msg|
    ensures EmitSide(c, s, fb) == Side(s.msg, s.copied + c.page)
    ensures EmitBytes(c, s, fb) == s.msg[s.copied..s.copied + c.page]
    ensures CanEmit(c, EmitSide(c, s, fb), fb)
  {
    hide Cfg.Granularity, Pow2, BitsOf, NextBit, Count;
    StepInside(c, s.copied);
  }

  /** Up to k dirty pages, once the message is through. */
  lemma {:induction false} EmitFbPages(c: Cfg, s: Side, fb: seq<byte>, k: nat)
    requires CanEmit(c, s, fb) && s.copied == |s.msg|
    ensures EmitMany(c, s, fb, k) == Emission(Side(DropMsg(c, s.msg, k), s.copied), Stream(BitmapOf(c, s.msg), fb, c.page, k))
    decreases k
  {
    hide Roundup, Cfg.Granularity, Pow2, BitsOf, Cfg.MsgSize;
    if k > 0 && SourceReady(c, s, fb) {
      var p := NextBit(BitmapOf(c, s.msg), 0);
      PageInside(c.bits, c.page, p, 1);
      ClearOne(c, s.msg, p);
      EmitFbPages(c, EmitSide(c, s, fb), fb, k - 1);
    }
  }

  // ---- target: pages until the round is through ----

  datatype Absorption = Absorption(target: Target, used: nat)

  ghost function AbsorbMany(c: Cfg, t: Target, data: seq<byte>): (r: Absorption)
    requires t.Ok(c)
    ensures r.target.Ok(c) && r.used <= |data|
    decreases |data|
  {
    if |data| < c.page || t.side.Exhausted(c) then Absorption(t, 0) else
      var rest := AbsorbMany(c, Absorb(c, t, data[..c.page]), data[c.page..]);
      Absorption(rest.target, c.page + rest.used)
  }

  /** What one call consumes is decoded exactly as the system decodes it page by page. */
  lemma {:induction false} AbsorbDecodes(c: Cfg, t: Target, data: seq<byte>)
    requires t.Ok(c)
    ensures var r := AbsorbMany(c, t, data);
            Decode(c, t, data[..r.used]) == r.target && Mult(r.used, c.page)
    decreases |data|
  {
    hide Absorb, Side.Exhausted, Cfg.Granularity, Pow2, Cfg.MsgSize, Cfg.BitmapOffset, Cfg.BitmapSize;
    var r := AbsorbMany(c, t, data);
    assert data[..0] == [];
    if |data| >= c.page && !t.side.Exhausted(c) {
      AbsorbDecodes(c, Absorb(c, t, data[..c.page]), data[c.page..]);
      var used := r.used - c.page;
      assert data[..r.used][..c.page] == data[..c.page];
      assert data[..r.used][c.page..] == data[c.page..][..used];
      MultSum(c.page, used, c.page);
    }
  }

  lemma {:induction false} AbsorbSplit(c: Cfg, t: Target, a: seq<byte>, b: seq<byte>)
    requires t.Ok(c) && Mult(|a|, c.page) && AbsorbMany(c, t, a).used == |a|
    ensures var m := AbsorbMany(c, t, a);
            AbsorbMany(c, t, a + b) == Absorption(AbsorbMany(c, m.target, b).target, |a| + AbsorbMany(c, m.target, b).used)
    decreases |a|
  {
    hide Absorb, Side.Exhausted, Cfg.Granularity, Pow2, Cfg.MsgSize;
    if |a| == 0 {
      assert a + b == b;
    } else {
      assert (a + b)[..c.page] == a[..c.page] && (a + b)[c.page..] == a[c.page..] + b;
      AbsorbSplit(c, Absorb(c, t, a[..c.page]), a[c.page..], b);
    }
  }

  lemma AbsorbOne(c: Cfg, t: Target, data: seq<byte>)
    requires t.Ok(c) && |data| >= c.page && !t.side.Exhausted(c)
    ensures var rest := AbsorbMany(c, Absorb(c, t, data[..c.page]), data[c.page..]);
            AbsorbMany(c, t, data) == Absorption(rest.target, c.page + rest.used)
  {
  }

  /** One dirty page stored. */
  lemma AbsorbFbPage(c: Cfg, t: Target, page: seq<byte>)
    requires t.Ok(c) && t.side.copied == |t.side.msg| && |page| == c.page && !Empty(BitmapOf(c, t.side.msg))
    ensures var p := NextBit(BitmapOf(c, t.side.msg), 0);
            && p < c.bits && p * c.page + c.page <= |t.fb| && c.BitmapOffset() + p / 8 < |t.side.msg|
            && !t.side.Exhausted(c)
            && Absorb(c, t, page) == t.(side := Side(ClearMsgBit(t.side.msg, c.BitmapOffset(), p), t.side.copied),
                                        fb := WritePage(t.fb, c.page, p, page))
            && BitmapOf(c, Absorb(c, t, page).side.msg) == BitmapOf(c, t.side.msg)[p := false]
  {
    hide Cfg.Granularity, Pow2, BitsOf, ImportMsg;
    var p := NextBit(BitmapOf(c, t.side.msg), 0);
    PageInside(c.bits, c.page, p, 1);
    ClearOne(c, t.side.msg, p);
  }

  /** k dirty pages stored, once the message is through. */
  lemma {:induction false} AbsorbFbPages(c: Cfg, t: Target, data: seq<byte>, k: nat)
    requires t.Ok(c) && t.side.copied == |t.side.msg| && Mult(|data|, c.page)
    requires k == Quot(|data|, c.page) <= Count(BitmapOf(c, t.side.msg))
    ensures AbsorbMany(c, t, data)
            == Absorption(t.(side := Side(DropMsg(c, t.side.msg, k), t.side.copied),
                             fb := Apply(BitmapOf(c, t.side.msg), t.fb, c.page, data)), |data|)
    decreases k
  {
    hide Cfg.Granularity, Pow2, BitsOf, BitmapOf, Cfg.MsgSize, Absorb, Side.Exhausted, Cfg.BitmapOffset;
    var bits := BitmapOf(c, t.side.msg);
    if k > 0 {
      CountEmpty(bits);
      var p := NextBit(bits, 0);
      CountClear(bits, p);
      AbsorbFbPage(c, t, data[..c.page]);
      AbsorbOne(c, t, data);
      AbsorbFbPages(c, Absorb(c, t, data[..c.page]), data[c.page..], k - 1);
    }
  }

  /** One page of a message that it does not complete. */
  lemma AbsorbMsgPage(c: Cfg, t: Target, page: seq<byte>)
    requires t.Ok(c) && |page| == c.page && t.side.copied + c.page < |t.side.msg|
    ensures !t.side.Exhausted(c)
    ensures Absorb(c, t, page) == t.(side := Side(Patch(t.side.msg, t.side.copied, page), t.side.copied + c.page))
  {
    hide Cfg.Granularity, Pow2, BitsOf, NextBit, ImportMsg;
    assert t.side.Settle(c) == t.side;
  }

  /** Pages of a message that they do not complete. */
  lemma {:induction false} AbsorbMsgPages(c: Cfg, t: Target, data: seq<byte>)
    requires t.Ok(c) && Mult(|data|, c.page) && |data| > 0 && t.side.copied + |data| < |t.side.msg|
    ensures AbsorbMany(c, t, data)
            == Absorption(t.(side := Side(Patch(t.side.msg, t.side.copied, data), t.side.copied + |data|)), |data|)
    decreases |data|
  {
    hide Cfg.Valid, Cfg.MsgSize, Absorb, Side.Exhausted, Cfg.BitmapOffset, Patch;
    var a, b := data[..c.page], data[c.page..];
    assert data == a + b;
    AbsorbMsgPage(c, t, a);
    AbsorbOne(c, t, data);
    var t1 := Absorb(c, t, a);
    if |b| > 0 {
      AbsorbMsgPages(c, t1, b);
      PatchTwice(t.side.msg, t.side.copied, a, b);
    } else {
      assert a == data;
    }
  }

  // ---- one batch of consecutive dirty pages inside the copy loop ----

  /** The bitmap part: clearing the batch in one go takes the same bits as page by page. */
  lemma BatchBits(c: Cfg, msg: seq<byte>, k: nat, p: nat, cnt: nat)
    requires c.Valid() && |msg| == c.MsgSize() && RunAt(BitmapOf(c, DropMsg(c, msg, k)), p, cnt)
    ensures DropMsg(c, msg, k + cnt) == ClearMsgRange(c, DropMsg(c, msg, k), p, cnt)
    ensures BitmapOf(c, DropMsg(c, msg, k)) == Drop(BitmapOf(c, msg), k)
    ensures BitmapOf(c, DropMsg(c, msg, k + cnt)) == ClearRange(BitmapOf(c, DropMsg(c, msg, k)), p, cnt)
  {
    hide Cfg.Valid, Cfg.MsgSize, BitmapOf;
    DropMsgSplit(c, msg, k, cnt);
    RunDropMsg(c, DropMsg(c, msg, k), p, cnt);
    DropMsgBits(c, msg, k);
    DropMsgBits(c, msg, k + cnt);
    DropSplit(BitmapOf(c, msg), k, cnt);
    RunDrop(Drop(BitmapOf(c, msg), k), p, cnt);
  }

  /** The source's bytes: one block copy reads what page by page would. */
  lemma BatchStream(bits: seq<bool>, fb: seq<byte>, page: nat, k: nat, p: nat, cnt: nat)
    requires FbOk(fb, bits, page) && RunAt(Drop(bits, k), p, cnt)
    ensures p * page + cnt * page <= |fb|
    ensures Stream(bits, fb, page, k + cnt) == Stream(bits, fb, page, k) + fb[p * page..p * page + cnt * page]
  {
    StreamSplit(bits, fb, page, k, cnt);
    RunStream(Drop(bits, k), fb, page, p, cnt);
  }

  /** The target's framebuffer: one block copy stores what page by page would. */
  lemma BatchApply(bits: seq<bool>, fb: seq<byte>, page: nat, k: nat, p: nat, cnt: nat, a: seq<byte>, b: seq<byte>)
    requires FbOk(fb, bits, page) && page > 0 && RunAt(Drop(bits, k), p, cnt) && |a| == k * page && |b| == cnt * page
    ensures p * page + cnt * page <= |fb|
    ensures Apply(bits, fb, page, a + b) == Patch(Apply(bits, fb, page, a), p * page, b)
  {
    ApplySplit(bits, fb, page, k, a, b);
    RunApply(Drop(bits, k), Apply(bits, fb, page, a), page, p, cnt, b);
  }

  /** What a call on the source emits when it stopped after k of `want` dirty pages. */
  lemma EmitStops(c: Cfg, s: Side, fb: seq<byte>, k: nat, want: nat)
    requires CanEmit(c, s, fb) && s.copied == |s.msg| && k <= want
    requires k < want ==> Empty(Drop(BitmapOf(c, s.msg), k))
    ensures var e := EmitMany(c, s, fb, want);
            && e == Emission(Side(DropMsg(c, s.msg, k), s.copied), Stream(BitmapOf(c, s.msg), fb, c.page, k))
            && (SourceReady(c, e.side, fb) <==> !Empty(Drop(BitmapOf(c, s.msg), k)))
  {
    hide Cfg.Granularity, Pow2, BitsOf, Cfg.MsgSize;
    EmitFbPages(c, s, fb, want);
    DropMsgBits(c, s.msg, k);
    if k < want {
      DropMsgSplit(c, s.msg, k, want - k);
      StreamSplit(BitmapOf(c, s.msg), fb, c.page, k, want - k);
    }
  }

  /** What a call on the target stores when it stopped after k dirty pages of the bytes it was given. */
  lemma AbsorbStops(c: Cfg, t: Target, data: seq<byte>, n: nat)
    requires t.Ok(c) && t.side.copied == |t.side.msg| && n <= |data| && Mult(n, c.page)
    requires Quot(n, c.page) <= Count(BitmapOf(c, t.side.msg))
    requires n < |data| ==> Empty(Drop(BitmapOf(c, t.side.msg), Quot(n, c.page)))
    ensures var k := Quot(n, c.page);
            var r := AbsorbMany(c, t, data);
            && r == Absorption(t.(side := Side(DropMsg(c, t.side.msg, k), t.side.copied),
                                  fb := Apply(BitmapOf(c, t.side.msg), t.fb, c.page, data[..n])), n)
            && (r.target.side.Exhausted(c) <==> Empty(Drop(BitmapOf(c, t.side.msg), k)))
  {
    hide *;
    PagePositive(c, t);
    var a, b := data[..n], data[n..];
    assert |a| == n && a + b == data;
    StoredPages(c, t, a);
    var t1 := AbsorbMany(c, t, a).target;
    AbsorbThen(c, t, a, b, t1);
  }

  lemma PagePositive(c: Cfg, t: Target)
    requires t.Ok(c)
    ensures c.page > 0 && c.Valid() && t.side.Ok(c)
  {
  }

  /** The pages of a, which are no more than there are bits. */
  lemma StoredPages(c: Cfg, t: Target, a: seq<byte>)
    requires t.Ok(c) && t.side.copied == |t.side.msg| && Mult(|a|, c.page)
    requires Quot(|a|, c.page) <= Count(BitmapOf(c, t.side.msg))
    ensures var k := Quot(|a|, c.page);
            var t1 := t.(side := Side(DropMsg(c, t.side.msg, k), t.side.copied), fb := Apply(BitmapOf(c, t.side.msg), t.fb, c.page, a));
            && t1.Ok(c) && AbsorbMany(c, t, a) == Absorption(t1, |a|)
            && (t1.side.Exhausted(c) <==> Empty(Drop(BitmapOf(c, t.side.msg), k)))
  {
    hide Cfg.Valid, Cfg.MsgSize, Absorb, AbsorbMany, Side.Exhausted, BitmapOf, Apply, BitsOf;
    AbsorbFbPages(c, t, a, Quot(|a|, c.page));
    DropMsgBits(c, t.side.msg, Quot(|a|, c.page));
    ExhaustedIs(c, AbsorbMany(c, t, a).target.side);
  }

  lemma AbsorbThen(c: Cfg, t: Target, a: seq<byte>, b: seq<byte>, t1: Target)
    requires t.Ok(c) && t1.Ok(c) && Mult(|a|, c.page) && AbsorbMany(c, t, a) == Absorption(t1, |a|)
    requires |b| == 0 || t1.side.Exhausted(c)
    ensures AbsorbMany(c, t, a + b) == Absorption(t1, |a|)
  {
    hide Cfg.Valid, Cfg.MsgSize, Absorb, AbsorbMany, Side.Exhausted;
    AbsorbSplit(c, t, a, b);
    NothingMore(c, t1, b);
  }

  lemma NothingMore(c: Cfg, t: Target, b: seq<byte>)
    requires t.Ok(c) && (|b| == 0 || t.side.Exhausted(c))
    ensures AbsorbMany(c, t, b) == Absorption(t, 0)
  {
  }

  lemma ExhaustedIs(c: Cfg, s: Side)
    requires s.Ok(c) && s.copied == |s.msg|
    ensures s.Exhausted(c) <==> Empty(BitmapOf(c, s.msg))
  {
  }

  /** Pages that complete a message the target accepts: from here on its bitmap is in place. */
  lemma AbsorbWholeMsg(c: Cfg, t: Target, data: seq<byte>, mask: set<Section>)
    requires t.Ok(c) && Mult(|data|, c.page) && |data| > 0 && t.side.copied + |data| == |t.side.msg|
    requires var r := ImportMsg(c, Patch(t.side.msg, t.side.copied, data), t.mask, ACCEPT_ALL);
             r.Imported? && r.mask == mask && r.bitmapAt == c.BitmapOffset()
    ensures AbsorbMany(c, t, data)
            == Absorption(t.(side := Side(Patch(t.side.msg, t.side.copied, data), |t.side.msg|), mask := mask), |data|)
  {
    hide *;
    assert |data| >= c.page > 0 by { FirstStep(|data|, c.page); }
    var n := |data| - c.page;
    var a, b := data[..n], data[n..];
    assert data == a + b;
    if n > 0 {
      FirstStep(|data|, c.page);
      PatchTwice(t.side.msg, t.side.copied, a, b);
      var t1 := t.(side := Side(Patch(t.side.msg, t.side.copied, a), t.side.copied + n));
      AbsorbMsgThenLast(c, t, a, b, t1, Patch(t.side.msg, t.side.copied, data), mask);
    } else {
      assert b == data;
      AbsorbLastPage(c, t, b, mask);
    }
  }

  lemma PositivePage(c: Cfg, t: Target)
    requires t.Ok(c)
    ensures c.page > 0
  {
  }

  lemma FirstStep(n: nat, m: nat)
    requires Mult(n, m) && n > 0
    ensures n >= m > 0 && Mult(n - m, m)
  {
  }

  lemma AbsorbMsgThenLast(c: Cfg, t: Target, a: seq<byte>, b: seq<byte>, t1: Target, m: seq<byte>, mask: set<Section>)
    requires t.Ok(c) && Mult(|a|, c.page) && |a| > 0 && |b| == c.page > 0 && t.side.copied + |a| + |b| == |t.side.msg|
    requires t1 == t.(side := Side(Patch(t.side.msg, t.side.copied, a), t.side.copied + |a|))
    requires m == Patch(t1.side.msg, t1.side.copied, b)
    requires var r := ImportMsg(c, m, t.mask, ACCEPT_ALL); r.Imported? && r.mask == mask && r.bitmapAt == c.BitmapOffset()
    ensures AbsorbMany(c, t, a + b) == Absorption(t.(side := Side(m, |t.side.msg|), mask := mask), |a| + |b|)
  {
    hide *;
    AbsorbMsgPages(c, t, a);
    AbsorbSplit(c, t, a, b);
    AbsorbLastPage(c, t1, b, mask);
  }

  lemma AbsorbLastPage(c: Cfg, t: Target, page: seq<byte>, mask: set<Section>)
    requires t.Ok(c) && |page| == c.page && t.side.copied + c.page == |t.side.msg|
    requires var r := ImportMsg(c, Patch(t.side.msg, t.side.copied, page), t.mask, ACCEPT_ALL);
             r.Imported? && r.mask == mask && r.bitmapAt == c.BitmapOffset()
    ensures AbsorbMany(c, t, page)
            == Absorption(t.(side := Side(Patch(t.side.msg, t.side.copied, page), |t.side.msg|), mask := mask), c.page)
  {
    hide Cfg.Granularity, Pow2, BitsOf, NextBit, ImportMsg;
    assert t.side.Settle(c) == t.side;
    assert page[..c.page] == page && page[c.page..] == [];
    AbsorbOne(c, t, page);
    NothingMore(c, Absorb(c, t, page), []);
  }
}
