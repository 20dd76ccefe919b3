/** One call of the copy thread, message part and dirty-page part together, as a function of what it found. */
module MigCalls {
  import opened Arith
  import opened Bytes
  import opened Bitmap
  import opened MigPages
  import opened MigMessage
  import opened MigRing
  import opened MigTransfer
  import opened MigRuns

  /** How many of the next len bytes still belong to the message. */
  ghost function MsgPart(c: Cfg, s: Side, len: nat): (n: nat)
    requires s.copied <= |s.msg|
    ensures n <= len && s.copied + n <= |s.msg|
  {
    if len < |s.msg| - s.copied then len else |s.msg| - s.copied
  }

  /** The dirty-page part of a call on the source: what it put into the ring and what it left behind. */
  ghost predicate FbEmitted(c: Cfg, s: Side, fb: seq<byte>, ring0: seq<byte>, at: nat, len: nat,
                            n: nat, done: bool, msg: seq<byte>, ring: seq<byte>)
    requires CanEmit(c, s, fb) && at + len <= |ring0| && n <= len
  {
    var e := EmitMany(c, s, fb, Quot(len, c.page));
    && n == |e.data| && ring == Patch(ring0, at, e.data)
    && done == !SourceReady(c, e.side, fb)
    && msg == (if done then Zeros(c.MsgSize()) else e.side.msg)
    && e.side.copied == s.copied
  }

  /** The dirty-page part of a call on the target: what it took from the ring and stored. */
  ghost predicate FbAbsorbed(c: Cfg, t: Target, data: seq<byte>, n: nat, done: bool, msg: seq<byte>, fb: seq<byte>)
    requires t.Ok(c)
  {
    var a := AbsorbMany(c, t, data);
    && n == a.used && fb == a.target.fb && t.mask == a.target.mask && t.ok == a.target.ok
    && done == a.target.side.Exhausted(c)
    && msg == (if done then Zeros(c.MsgSize()) else a.target.side.msg)
    && a.target.side.copied == t.side.copied
  }

  // ---- the source's call ----

  /** The call got past the end of the message. */
  ghost predicate Reaches(s: Side, len: nat) {
    s.copied + len > |s.msg|
  }

  /** A whole call on the source: exactly the next len bytes of the round, or what is left of it. */
  ghost predicate SourceCall(c: Cfg, s: Side, fb: seq<byte>, ring0: seq<byte>, at: nat, len: nat,
                             n: nat, done: bool, side: Side, ring: seq<byte>)
    requires CanEmit(c, s, fb) && at + len <= |ring0|
  {
    var e := EmitMany(c, s, fb, Quot(len, c.page));
    && n == |e.data| <= len && ring == Patch(ring0, at, e.data)
    && done == (Reaches(s, len) && !SourceReady(c, e.side, fb))
    && side == if done then Fresh(c) else e.side
  }

  lemma SourceJoin(c: Cfg, s: Side, fb: seq<byte>, ring0: seq<byte>, at: nat, len: nat, n: nat, k: nat, done: bool,
                   ring1: seq<byte>, msg: seq<byte>, ring: seq<byte>)
    requires CanEmit(c, s, fb) && Mult(len, c.page) && at + len <= |ring0| && n == MsgPart(c, s, len) && n + k <= len
    requires ring1 == Patch(ring0, at, s.msg[s.copied..s.copied + n])
    requires n < len ==> FbEmitted(c, Side(s.msg, |s.msg|), fb, ring1, at + n, len - n, k, done, msg, ring)
    requires n == len ==> k == 0 && !done && msg == s.msg && ring == ring1
    ensures SourceCall(c, s, fb, ring0, at, len, n + k, done,
                       Side(msg, if done then 0 else s.copied + n), ring)
  {
    hide EmitMany, SourceReady, Cfg.Granularity, Pow2, BitsOf, Patch, Mult, Quot, Cfg.MsgSize;
    MsgPartPages(c, s, len);
    EmitMsgPages(c, s, fb, n);
    var part := s.msg[s.copied..s.copied + n];
    if n < len {
      var e := EmitMany(c, Side(s.msg, |s.msg|), fb, Quot(len - n, c.page));
      EmitSplit(c, s, fb, Quot(n, c.page), Quot(len - n, c.page));
      PatchTwice(ring0, at, part, e.data);
    }
  }

  lemma MsgPartPages(c: Cfg, s: Side, len: nat)
    requires Shape(c, s) && Mult(len, c.page)
    ensures var n := MsgPart(c, s, len);
            Mult(n, c.page) && Mult(s.copied + n, c.page) && Mult(len - n, c.page) && Quot(len, c.page) == Quot(n, c.page) + Quot(len - n, c.page)
  {
    var n := MsgPart(c, s, len);
    MultDiff(|s.msg|, s.copied, c.page);
    MultDiff(len, n, c.page);
    MultSum(s.copied, n, c.page);
    QuotSum(n, len - n, c.page);
  }

  lemma {:induction false} EmitWholePages(c: Cfg, s: Side, fb: seq<byte>, k: nat)
    requires CanEmit(c, s, fb)
    ensures Mult(|EmitMany(c, s, fb, k).data|, c.page)
    decreases k
  {
    hide CanEmit, EmitSide, SourceReady;
    if k > 0 && SourceReady(c, s, fb) {
      EmitOk(c, s, fb);
      EmitWholePages(c, EmitSide(c, s, fb), fb, k - 1);
      MultSum(c.page, |EmitMany(c, EmitSide(c, s, fb), fb, k - 1).data|, c.page);
    } else {
      assert c.page > 0 by { PageIsPositive(c, s, fb); }
    }
  }

  lemma {:induction false} EmitAtMost(c: Cfg, s: Side, fb: seq<byte>, len: nat)
    requires CanEmit(c, s, fb) && Mult(len, c.page)
    ensures |EmitMany(c, s, fb, Quot(len, c.page)).data| <= len
    decreases len
  {
    hide CanEmit, EmitSide, SourceReady;
    if len > 0 && SourceReady(c, s, fb) {
      EmitOk(c, s, fb);
      EmitAtMost(c, EmitSide(c, s, fb), fb, len - c.page);
    }
  }

  lemma PageIsPositive(c: Cfg, s: Side, fb: seq<byte>)
    requires CanEmit(c, s, fb)
    ensures c.page > 0
  {
  }

  /** Advancing the write pointer past what a call wrote is a put of exactly those bytes. */
  lemma SourceCallPut(c: Cfg, s: Side, fb: seq<byte>, r: Ring, len: nat, n: nat, done: bool, side: Side, ring: seq<byte>)
    requires CanEmit(c, s, fb) && r.Ok(c.page) && Mult(|r.data|, c.page) && Mult(r.put, c.page)
    requires r.put + len <= |r.data| && len <= |r.data| - c.page - r.Fill()
    requires SourceCall(c, s, fb, r.data, r.put, len, n, done, side, ring)
    ensures var e := EmitMany(c, s, fb, Quot(len, c.page)).data;
            var q := Ring(ring, Wrap(r.put + n, |r.data|), r.get);
            && n == |e| && n <= len
            && q == r.Put(e) && q.Ok(c.page) && Mult(q.put, c.page) && q.Contents() == r.Contents() + e
  {
    hide EmitMany, CanEmit, Ring.Contents, Patch;
    var e := EmitMany(c, s, fb, Quot(len, c.page)).data;
    EmitWholePages(c, s, fb, Quot(len, c.page));
    PutIsPatch(r, e);
    PutContents(r, e, c.page);
    WrapMult(r.put, n, |r.data|, c.page);
  }

  lemma WrapMult(p: nat, n: nat, size: nat, m: nat)
    requires Mult(p, m) && Mult(n, m) && Mult(size, m) && p + n < 2 * size
    ensures Mult(Wrap(p + n, size), m)
  {
    MultSum(p, n, m);
    if p + n >= size {
      MultDiff(p + n, size, m);
    }
  }

  /** Advancing the read pointer past what a call used is a take of exactly those bytes. */
  lemma TargetCallTake(c: Cfg, t: Target, r: Ring, len: nat, n: nat, done: bool, t1: Target)
    requires t.Ok(c) && r.Ok(c.page) && Mult(|r.data|, c.page) && Mult(r.get, c.page)
    requires r.get + len <= |r.data| && len <= r.Fill()
    requires TargetCall(c, t, r.data[r.get..r.get + len], n, done, t1)
    ensures var q := Ring(r.data, r.put, Wrap(r.get + n, |r.data|));
            && r.data[r.get..r.get + len] == r.Contents()[..len]
            && n <= len && q == r.Take(n) && q.Ok(c.page) && Mult(q.get, c.page)
            && r.Contents() == r.Contents()[..n] + q.Contents()
  {
    hide AbsorbMany, Target.Ok, Ring.Contents, Ring.Fill;
    var data := r.data[r.get..r.get + len];
    AbsorbDecodes(c, t, data);
    TakeIsSlice(r, len);
    TakeContents(r, n, c.page);
    WrapMult(r.get, n, |r.data|, c.page);
  }

  lemma MsgPartIs(c: Cfg, s: Side, len: nat)
    requires s.copied <= |s.msg|
    ensures MsgPart(c, s, len) < len ==> s.copied + MsgPart(c, s, len) == |s.msg|
    ensures s.copied == |s.msg| ==> MsgPart(c, s, len) == 0
  {
  }

  lemma PatchNothing(s: seq<byte>, at: nat, data: seq<byte>)
    requires at <= |s| && |data| == 0
    ensures Patch(s, at, data) == s
  {
  }

  // ---- the target's call ----

  /** A whole call on the target: what the page-by-page reading makes of the next len bytes. */
  ghost predicate TargetCall(c: Cfg, t: Target, data: seq<byte>, n: nat, done: bool, r: Target)
    requires t.Ok(c)
  {
    var a := AbsorbMany(c, t, data);
    && n == a.used
    && done == (Reaches(t.side, |data|) && a.target.side.Exhausted(c))
    && r == if done then a.target.(side := Fresh(c)) else a.target
  }

  /** What import makes of the n message bytes that just arrived. */
  ghost function Arrival(c: Cfg, t: Target, part: seq<byte>): Import
    requires t.Ok(c) && t.side.copied + |part| <= |t.side.msg|
  {
    var m := Patch(t.side.msg, t.side.copied, part);
    if 0 < |part| && t.side.copied + |part| == |m| then ImportMsg(c, m, t.mask, ACCEPT_ALL)
    else Imported(t.mask, map[], c.BitmapOffset())
  }

  /** The target once the message bytes are in place and, if complete, imported. */
  ghost function WithPart(c: Cfg, t: Target, part: seq<byte>): (r: Target)
    requires t.Ok(c) && t.side.copied + |part| <= |t.side.msg| && Mult(|part|, c.page)
    ensures r.Ok(c)
  {
    MultSum(t.side.copied, |part|, c.page);
    if |part| == 0 then t else
      t.(side := Side(Patch(t.side.msg, t.side.copied, part), t.side.copied + |part|), mask := Arrival(c, t, part).mask)
  }

  /** If the message is complete, it is accepted and has its bitmap where export puts it. */
  ghost predicate Welcome(c: Cfg, t: Target, part: seq<byte>)
    requires t.Ok(c) && t.side.copied + |part| <= |t.side.msg|
  {
    Arrival(c, t, part).Imported? && Arrival(c, t, part).bitmapAt == c.BitmapOffset()
  }

  /** The bytes were accepted and led to t1. */
  ghost predicate TakenAs(c: Cfg, t: Target, part: seq<byte>, t1: Target) {
    && t.Ok(c) && t.side.copied + |part| <= |t.side.msg| && Mult(|part|, c.page)
    && Welcome(c, t, part) && WithPart(c, t, part) == t1
  }

  lemma PartArrived(c: Cfg, t: Target, part: seq<byte>, msg: seq<byte>)
    requires t.Ok(c) && t.side.copied + |part| <= |t.side.msg| && Mult(|part|, c.page)
    requires msg == if |part| == 0 then t.side.msg else Patch(t.side.msg, t.side.copied, part)
    ensures |part| == 0 ==> Arrival(c, t, part) == Imported(t.mask, map[], c.BitmapOffset())
    ensures var r := Arrival(c, t, part);
            r.Imported? && r.bitmapAt == c.BitmapOffset() ==>
              && Welcome(c, t, part)
              && WithPart(c, t, part) == Target(Side(msg, t.side.copied + |part|), r.mask, t.fb, t.ok)
  {
    hide ImportMsg, Cfg.Granularity, Pow2, Cfg.MsgSize, Patch;
  }

  lemma AbsorbPart(c: Cfg, t: Target, part: seq<byte>)
    requires t.Ok(c) && t.side.copied + |part| <= |t.side.msg| && Mult(|part|, c.page)
    requires Welcome(c, t, part)
    ensures AbsorbMany(c, t, part) == Absorption(WithPart(c, t, part), |part|)
  {
    hide ImportMsg, AbsorbMany, Cfg.Granularity, Pow2, Cfg.MsgSize, Patch;
    if |part| == 0 {
      NothingMore(c, t, part);
    } else if t.side.copied + |part| < |t.side.msg| {
      AbsorbMsgPages(c, t, part);
    } else {
      AbsorbWholeMsg(c, t, part, Arrival(c, t, part).mask);
    }
  }

  lemma TargetJoin(c: Cfg, t: Target, a: seq<byte>, b: seq<byte>, k: nat, done: bool, t1: Target, msg: seq<byte>, fb: seq<byte>)
    requires t.Ok(c) && t1.Ok(c) && Mult(|a|, c.page) && |a| == MsgPart(c, t.side, |a| + |b|)
    requires Welcome(c, t, a) && t1 == WithPart(c, t, a)
    requires |b| > 0 ==> FbAbsorbed(c, t1, b, k, done, msg, fb)
    requires |b| == 0 ==> k == 0 && !done && msg == t1.side.msg && fb == t1.fb
    ensures TargetCall(c, t, a + b, |a| + k, done, Target(Side(msg, if done then 0 else t1.side.copied), t1.mask, fb, t1.ok))
  {
    hide AbsorbMany, Welcome, Arrival, WithPart, Cfg.Granularity, Pow2, BitsOf, Patch, Cfg.MsgSize, Side.Exhausted;
    AbsorbPart(c, t, a);
    AbsorbSplit(c, t, a, b);
    if |b| == 0 {
      NothingMore(c, t1, b);
    }
  }

  // ---- a turn of the thread: a call, and the ring pointer moved by what it did ----

  /** On the source: the pages a call emits are put into the ring, nothing else changes there. */
  ghost predicate SourceTurn(c: Cfg, s: Side, fb: seq<byte>, r: Ring, n: nat, done: bool, side: Side, q: Ring)
    requires CanEmit(c, s, fb) && r.Ok(c.page)
  {
    var len := ThreadRoom(r, c.page, false);
    var e := EmitMany(c, s, fb, Quot(len, c.page));
    && n == |e.data| < |r.data| && q == r.Put(e.data) && q.Ok(c.page)
    && q.Contents() == r.Contents() + e.data
    && done == (Reaches(s, len) && !SourceReady(c, e.side, fb))
    && side == if done then Fresh(c) else e.side
  }

  /** On the target: the pages a call used are gone from the ring, the rest is still there. */
  ghost predicate TargetTurn(c: Cfg, t: Target, r: Ring, n: nat, done: bool, t1: Target, q: Ring)
    requires t.Ok(c) && r.Ok(c.page)
  {
    var len := ThreadRoom(r, c.page, true);
    && n <= len <= r.Fill() && TargetCall(c, t, r.Contents()[..len], n, done, t1)
    && q == r.Take(n) && q.Ok(c.page) && q.Contents() == r.Contents()[n..]
  }

  lemma SourceTurned(c: Cfg, s: Side, fb: seq<byte>, r: Ring, n: nat, done: bool, side: Side, ring: seq<byte>)
    requires CanEmit(c, s, fb) && r.Ok(c.page) && Mult(|r.data|, c.page) && Mult(r.put, c.page)
    requires c.page <= |r.data| - c.page - r.Fill()
    requires var len := ThreadRoom(r, c.page, false);
             r.put + len <= |r.data| && SourceCall(c, s, fb, r.data, r.put, len, n, done, side, ring)
    ensures n < |r.data|
    ensures var q := Ring(ring, Wrap(r.put + n, |r.data|), r.get);
            SourceTurn(c, s, fb, r, n, done, side, q) && q.Ok(c.page) && Mult(q.put, c.page)
  {
    hide EmitMany, CanEmit, SourceReady, Ring.Contents, ThreadRoom, Patch;
    RoomFacts(r, c.page, false);
    SourceCallPut(c, s, fb, r, ThreadRoom(r, c.page, false), n, done, side, ring);
  }

  lemma TargetTurned(c: Cfg, t: Target, r: Ring, n: nat, done: bool, t1: Target)
    requires t.Ok(c) && r.Ok(c.page) && Mult(|r.data|, c.page) && Mult(r.get, c.page)
    requires c.page <= r.Fill()
    requires var len := ThreadRoom(r, c.page, true);
             r.get + len <= |r.data| && TargetCall(c, t, r.data[r.get..r.get + len], n, done, t1)
    ensures n < |r.data|
    ensures var q := Ring(r.data, r.put, Wrap(r.get + n, |r.data|));
            TargetTurn(c, t, r, n, done, t1, q) && q.Ok(c.page) && Mult(q.get, c.page)
  {
    hide AbsorbMany, Target.Ok, Ring.Contents, ThreadRoom, TargetCall;
    RoomFacts(r, c.page, true);
    TargetCallTake(c, t, r, ThreadRoom(r, c.page, true), n, done, t1);
  }
}
