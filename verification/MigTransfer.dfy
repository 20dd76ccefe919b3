/**
 * One end of a transfer, page by page: what the source's copy thread emits next and what the target's
 * copy thread does with the next page of bytes. Thread-side pointers only ever move by whole pages.
 */
module MigTransfer {
  import opened Arith
  import opened Bytes
  import opened Bitmap
  import opened MigPages
  import opened MigMessage

  /** The message buffer and how much of the round was copied (capped at the message size). */
  datatype Side = Side(msg: seq<byte>, copied: nat) {
    ghost predicate Ok(c: Cfg) {
      && c.Valid()
      && |msg| == c.MsgSize()
      && copied <= |msg|
      && Mult(copied, c.page)
      && (copied == 0 ==> msg == Zeros(|msg|))
    }

    ghost function Bits(c: Cfg): (r: seq<bool>)
      requires Ok(c)
      ensures |r| == c.bits
    {
      BitmapFits(c);
      BitsOf(msg, c.BitmapOffset(), c.bits)
    }

    /** Message and dirty pages are all through; the code then clears the buffer and starts over. */
    ghost predicate Exhausted(c: Cfg)
      requires Ok(c)
    {
      copied == |msg| && Empty(Bits(c))
    }

    ghost function Settle(c: Cfg): (r: Side)
      requires Ok(c)
      ensures r.Ok(c)
    {
      if Exhausted(c) then Fresh(c) else this
    }

    /** Pages still to go in the current round. */
    ghost function Remaining(c: Cfg): nat
      requires Ok(c)
    {
      Quot(|msg| - copied, c.page) + Count(Bits(c))
    }
  }

  lemma BitmapFits(c: Cfg)
    requires c.Valid()
    ensures c.BitmapOffset() + (c.bits + 7) / 8 <= c.MsgSize()
  {
    BitmapCoversIff(c);
  }

  ghost function Fresh(c: Cfg): (s: Side)
    requires c.Valid()
    ensures s.Ok(c)
  {
    Side(Zeros(c.MsgSize()), 0)
  }

  lemma FreshBits(c: Cfg, s: Side)
    requires s.Ok(c) && s.copied == 0
    ensures Empty(s.Bits(c))
  {
    BitmapFits(c);
    ZeroMsgBits(s.msg, c.BitmapOffset(), c.bits);
  }

  lemma StepInside(c: Cfg, copied: nat)
    requires Mult(copied, c.page) && copied < c.MsgSize()
    ensures copied + c.page <= c.MsgSize() && Mult(copied + c.page, c.page)
    ensures Quot(c.MsgSize() - copied, c.page) == Quot(c.MsgSize() - (copied + c.page), c.page) + 1
  {
    StepWithin(copied, c.MsgSize(), c.page);
  }

  ghost function TakeDirty(c: Cfg, s: Side): (r: Side)
    requires s.Ok(c) && s.copied == |s.msg| && !Empty(s.Bits(c))
    ensures r.Ok(c) && r.copied == s.copied
    ensures r.Bits(c) == s.Bits(c)[NextBit(s.Bits(c), 0) := false]
  {
    var p := NextBit(s.Bits(c), 0);
    BitmapFits(c);
    ClearMsgBits(s.msg, c.BitmapOffset(), c.bits, p);
    Side(ClearMsgBit(s.msg, c.BitmapOffset(), p), s.copied)
  }

  // ---- source ----

  /** The next page of bytes the source thread puts into its ring. */
  ghost function EmitBytes(c: Cfg, s: Side, fb: seq<byte>): (data: seq<byte>)
    requires SourceReady(c, s, fb)
    ensures |data| == c.page
  {
    if s.copied < |s.msg| then
      StepInside(c, s.copied);
      s.msg[s.copied..s.copied + c.page]
    else
      var p := NextBit(s.Bits(c), 0);
      PageInside(c.bits, c.page, p, 1);
      PageOf(fb, c.page, p)
  }

  /** A side with its message in place and something left to send; at copied == 0 the message was just exported. */
  ghost predicate SourceReady(c: Cfg, s: Side, fb: seq<byte>) {
    && c.Valid() && |s.msg| == c.MsgSize() && s.copied <= |s.msg| && Mult(s.copied, c.page)
    && |fb| == c.bits * c.page
    && (s.copied == |s.msg| ==> s.Ok(c) && !Empty(s.Bits(c)))
  }

  ghost function EmitSide(c: Cfg, s: Side, fb: seq<byte>): (r: Side)
    requires SourceReady(c, s, fb)
    ensures r.Ok(c)
  {
    if s.copied < |s.msg| then
      StepInside(c, s.copied);
      Side(s.msg, s.copied + c.page)
    else
      TakeDirty(c, s)
  }

  // ---- target ----

  datatype Target = Target(side: Side, mask: set<Section>, fb: seq<byte>, ok: bool) {
    ghost predicate Ok(c: Cfg) {
      side.Ok(c) && |fb| == c.bits * c.page
    }
  }

  /** The device of a session that runs undisturbed takes every section. */
  const ACCEPT_ALL: Device := (s: Section, data: seq<byte>) => true

  ghost function AbsorbMsg(c: Cfg, t: Target, data: seq<byte>): (r: Target)
    requires t.Ok(c) && t.side.copied < |t.side.msg| && |data| == c.page
    ensures r.Ok(c)
  {
    StepInside(c, t.side.copied);
    var msg, n := Patch(t.side.msg, t.side.copied, data), t.side.copied + c.page;
    if n < |msg| then t.(side := Side(msg, n))
    else
      match ImportMsg(c, msg, t.mask, ACCEPT_ALL)
      case Imported(mask, _, at) => t.(side := Side(msg, n), mask := mask, ok := t.ok && at == c.BitmapOffset())
      case Rejected(mask) => t.(side := Side(msg, n), mask := mask, ok := false)
  }

  ghost function AbsorbFb(c: Cfg, t: Target, data: seq<byte>): (r: Target)
    requires t.Ok(c) && t.side.copied == |t.side.msg| && !Empty(t.side.Bits(c)) && |data| == c.page
    ensures r.Ok(c)
  {
    var p := NextBit(t.side.Bits(c), 0);
    PageInside(c.bits, c.page, p, 1);
    t.(side := TakeDirty(c, t.side), fb := WritePage(t.fb, c.page, p, data))
  }

  /** What the target thread does with its next page of bytes. */
  ghost function Absorb(c: Cfg, t: Target, data: seq<byte>): (r: Target)
    requires t.Ok(c) && |data| == c.page
    ensures r.Ok(c)
  {
    var s := t.(side := t.side.Settle(c));
    if s.side.copied < |s.side.msg| then AbsorbMsg(c, s, data) else AbsorbFb(c, s, data)
  }

  /** The target after everything in `bytes` went through its thread. */
  ghost function Decode(c: Cfg, t: Target, bytes: seq<byte>): (r: Target)
    requires t.Ok(c)
    ensures r.Ok(c)
    decreases |bytes|
  {
    if |bytes| < c.page then t else Decode(c, Absorb(c, t, bytes[..c.page]), bytes[c.page..])
  }

  lemma {:induction false} DecodeAppend(c: Cfg, t: Target, a: seq<byte>, data: seq<byte>)
    requires t.Ok(c) && Mult(|a|, c.page) && |data| == c.page
    ensures Decode(c, t, a + data) == Absorb(c, Decode(c, t, a), data)
    decreases |a|
  {
    if |a| == 0 {
      assert a + data == data;
      assert data[..c.page] == data;
    } else {
      assert (a + data)[..c.page] == a[..c.page];
      assert (a + data)[c.page..] == a[c.page..] + data;
      DecodeAppend(c, Absorb(c, t, a[..c.page]), a[c.page..], data);
    }
  }

  lemma AbsorbSettled(c: Cfg, t: Target, data: seq<byte>)
    requires t.Ok(c) && |data| == c.page
    ensures Absorb(c, t.(side := t.side.Settle(c)), data) == Absorb(c, t, data)
  {
  }

  // ---- both ends in step ----

  /** The target, having decoded everything under way, stands where the source stands. */
  ghost predicate InStep(c: Cfg, t: Side, s: Side) {
    && t.Ok(c) && s.Ok(c)
    && var a, b := t.Settle(c), s.Settle(c);
       a.copied == b.copied && a.msg[..a.copied] == b.msg[..b.copied]
  }

  /** Past the message both ends hold the same bitmap, so they agree on every further page address. */
  lemma InStepBits(c: Cfg, t: Side, s: Side)
    requires InStep(c, t, s) && s.copied == |s.msg| && !s.Exhausted(c)
    ensures t.copied == |t.msg| && t.msg == s.msg && t.Bits(c) == s.Bits(c)
  {
    assert s.Settle(c) == s;
    assert t.Settle(c).copied == |s.msg| > 0;
    assert t.Settle(c) == t;
    assert t.msg[..|t.msg|] == t.msg && s.msg[..|s.msg|] == s.msg;
  }

  /** Emitting a dirty page and absorbing it keeps both ends in step and copies exactly that page. */
  lemma InStepFb(c: Cfg, t: Target, s: Side, fb: seq<byte>)
    requires t.Ok(c) && InStep(c, t.side, s) && SourceReady(c, s, fb) && s.copied == |s.msg|
    ensures var p, r := NextBit(s.Bits(c), 0), Absorb(c, t, EmitBytes(c, s, fb));
            && InStep(c, r.side, EmitSide(c, s, fb))
            && p < c.bits && p * c.page + c.page <= |fb|
            && r.fb == WritePage(t.fb, c.page, p, PageOf(fb, c.page, p))
            && r.mask == t.mask && r.ok == t.ok
  {
    InStepBits(c, t.side, s);
    PageInside(c.bits, c.page, NextBit(s.Bits(c), 0), 1);
  }

  /** The target has everything of the current message that the source emitted. */
  ghost predicate Aligned(c: Cfg, t: Side, s: Side) {
    && t.Ok(c) && |s.msg| == c.MsgSize() && s.copied < |s.msg| && Mult(s.copied, c.page)
    && var a := t.Settle(c);
       a.copied == s.copied && a.msg[..a.copied] == s.msg[..s.copied]
  }

  lemma AlignedPage(c: Cfg, t: Side, s: Side)
    requires Aligned(c, t, s)
    ensures s.copied + c.page <= |s.msg|
    ensures var a := t.Settle(c);
            Patch(a.msg, a.copied, s.msg[s.copied..s.copied + c.page])[..s.copied + c.page] == s.msg[..s.copied + c.page]
  {
    StepInside(c, s.copied);
    assert s.msg[..s.copied + c.page] == s.msg[..s.copied] + s.msg[s.copied..s.copied + c.page];
  }

  /** A page of the message that does not complete it. */
  lemma InStepMsg(c: Cfg, t: Target, s: Side, fb: seq<byte>)
    requires t.Ok(c) && Aligned(c, t.side, s) && SourceReady(c, s, fb) && s.copied + c.page < |s.msg|
    ensures var r := Absorb(c, t, EmitBytes(c, s, fb));
            InStep(c, r.side, EmitSide(c, s, fb)) && r.fb == t.fb && r.mask == t.mask && r.ok == t.ok
  {
    AlignedPage(c, t.side, s);
  }

  /** The page that completes an exported message: the target imports it and takes its sections. */
  lemma InStepImport(c: Cfg, t: Target, s: Side, fb: seq<byte>, secs: set<Section>, p: Payload, seqNo: nat)
    requires t.Ok(c) && Aligned(c, t.side, s) && SourceReady(c, s, fb) && s.copied + c.page == |s.msg|
    requires p.Fits(c) && seqNo < TWO64 && FbData !in secs && s.msg == Export(c, secs, p, seqNo)
    requires t.mask * secs * ONCE == {}
    ensures var r := Absorb(c, t, EmitBytes(c, s, fb));
            InStep(c, r.side, EmitSide(c, s, fb)) && r.fb == t.fb && r.mask == t.mask + secs * ONCE && r.ok == t.ok
  {
    hide Export, SourceReady;
    AlignedPage(c, t.side, s);
    var a := t.side.Settle(c);
    var msg := Patch(a.msg, a.copied, s.msg[s.copied..s.copied + c.page]);
    assert msg == msg[..|s.msg|] == s.msg[..|s.msg|] == s.msg;
    ImportExport(c, secs, p, seqNo, t.mask, ACCEPT_ALL);
    CompleteMsg(c, t, s, fb, msg);
  }

  lemma CompleteMsg(c: Cfg, t: Target, s: Side, fb: seq<byte>, msg: seq<byte>)
    requires t.Ok(c) && Aligned(c, t.side, s) && SourceReady(c, s, fb) && s.copied + c.page == |s.msg| && msg == s.msg
    requires Patch(t.side.Settle(c).msg, s.copied, s.msg[s.copied..s.copied + c.page]) == msg
    requires ImportMsg(c, msg, t.mask, ACCEPT_ALL).Imported?
    requires ImportMsg(c, msg, t.mask, ACCEPT_ALL).bitmapAt == c.BitmapOffset()
    ensures var r := Absorb(c, t, EmitBytes(c, s, fb));
            InStep(c, r.side, EmitSide(c, s, fb)) && r.fb == t.fb
            && r.mask == ImportMsg(c, msg, t.mask, ACCEPT_ALL).mask && r.ok == t.ok
  {
    hide ImportMsg;
  }

  /** A target standing between rounds takes the first page of a newly exported message. */
  lemma FirstPage(c: Cfg, t: Target, s: Side, fb: seq<byte>, secs: set<Section>, p: Payload, seqNo: nat)
    requires t.Ok(c) && InStep(c, t.side, s) && s.copied == 0 && |fb| == c.bits * c.page
    requires p.Fits(c) && seqNo < TWO64 && FbData !in secs && t.mask * secs * ONCE == {}
    ensures var side := Side(Export(c, secs, p, seqNo), 0);
            && SourceReady(c, side, fb)
            && var r, e := Absorb(c, t, EmitBytes(c, side, fb)), EmitSide(c, side, fb);
            && InStep(c, r.side, e) && r.fb == t.fb && r.ok == t.ok && e.copied == c.page <= |e.msg|
            && r.mask == t.mask + (if c.page < |e.msg| then {} else secs * ONCE)
  {
    hide Export, Absorb, EmitBytes;
    var side := Side(Export(c, secs, p, seqNo), 0);
    StepInside(c, 0);
    assert s.Settle(c) == s;
    assert Aligned(c, t.side, side);
    if c.page < |side.msg| {
      InStepMsg(c, t, side, fb);
    } else {
      InStepImport(c, t, side, fb, secs, p, seqNo);
    }
  }
}
