/**
 * The copy threads of MigFile refine the step system of MigSystem: one turn of a thread is a run of
 * page steps, so every property of all runs holds for sessions in which the threads move many pages
 * at a time. On the target no turn of such a session is ever rejected.
 */
module MigRefine {
  import opened Arith
  import opened Bytes
  import opened Bitmap
  import opened MigPages
  import opened MigMessage
  import opened MigRing
  import opened MigTransfer
  import opened MigRuns
  import opened MigCalls
  import opened MigSystem

  lemma {:induction false} RunAppend(c: Cfg, s: Sys, a: seq<Event>, b: seq<Event>)
    requires CanRun(c, s, a) && CanRun(c, Run(c, s, a), b)
    ensures CanRun(c, s, a + b) && Run(c, s, a + b) == Run(c, Run(c, s, a), b)
    decreases |a|
  {
    hide WellFormed, Enabled, Next;
    if a == [] {
      assert a + b == b;
    } else {
      assert (a + b)[0] == a[0] && (a + b)[1..] == a[1..] + b;
      RunAppend(c, Next(c, s, a[0]), a[1..], b);
    }
  }

  lemma RunOne(c: Cfg, s: Sys, e: Event)
    requires WellFormed(c, s) && Enabled(c, s, e) && WellFormed(c, Next(c, s, e))
    ensures CanRun(c, s, [e]) && Run(c, s, [e]) == Next(c, s, e)
  {
    hide WellFormed, Enabled, Next;
    assert [e][1..] == [];
    assert CanRun(c, Next(c, s, e), []);
  }

  // ---- source ----

  lemma PutNothing(r: Ring, page: nat)
    requires r.Ok(page)
    ensures r.Put([]) == r
  {
  }

  ghost predicate Room(c: Cfg, r: Ring, len: nat) {
    r.Ok(c.page) && len <= |r.data| - c.page - r.Fill()
  }

  lemma RoomBound(c: Cfg, r: Ring, len: nat)
    requires Room(c, r, len)
    ensures len < |r.data|
  {
  }

  /** Only what the source thread's page steps touch has changed. */
  ghost predicate PagesDone(c: Cfg, s: Sys, r: Sys, e: Emission)
    requires s.srcRing.put < |s.srcRing.data|
  {
    && |e.data| < |s.srcRing.data|
    && r == s.(src := e.side, srcRing := s.srcRing.Put(e.data), sent := r.sent, expected := r.expected)
  }

  lemma PageStep(c: Cfg, s: Sys)
    requires Inv(c, s) && s.running && s.src.copied > 0 && SourceReady(c, s.src, s.srcFb) && Room(c, s.srcRing, c.page)
    ensures Enabled(c, s, SourcePage)
    ensures var r := Next(c, s, SourcePage);
            && Inv(c, r) && PagesDone(c, s, r, Emission(EmitSide(c, s.src, s.srcFb), EmitBytes(c, s.src, s.srcFb)))
            && r.src.copied > 0
  {
    hide Export, Absorb, Decode, InFlight, TransportOk, MessageOk, RoundOk, OnceOk;
    SpaceFormulas(s.srcRing, c.page);
    NextInv(c, s, SourcePage);
  }

  lemma RoomAfterPage(c: Cfg, r: Ring, len: nat, data: seq<byte>)
    requires Room(c, r, len) && |data| == c.page <= len
    ensures Room(c, r.Put(data), len - c.page) && |r.Put(data).data| == |r.data|
  {
    PutContents(r, data, c.page);
    assert |r.Put(data).Contents()| == |r.Contents()| + c.page;
  }

  lemma SideCanEmit(c: Cfg, s: Sys)
    requires WellFormed(c, s)
    ensures CanEmit(c, s.src, s.srcFb) && s.srcRing.put < |s.srcRing.data| && s.srcRing.Ok(c.page)
  {
  }

  /** The pages of a call, one step each, as long as there is room. */
  lemma {:induction false} SourcePages(c: Cfg, s: Sys, len: nat) returns (es: seq<Event>)
    requires Inv(c, s) && s.running && s.src.copied > 0 && CanEmit(c, s.src, s.srcFb)
    requires Mult(len, c.page) && Room(c, s.srcRing, len)
    ensures CanRun(c, s, es) && (forall i :: 0 <= i < |es| ==> es[i] == SourcePage)
    ensures Inv(c, Run(c, s, es)) && PagesDone(c, s, Run(c, s, es), EmitMany(c, s.src, s.srcFb, Quot(len, c.page)))
    decreases len
  {
    hide WellFormed, Enabled, Next, SourceReady, CanEmit, EmitSide, EmitBytes, TransportOk, MessageOk, RoundOk, OnceOk, Ring.Fill, Ring.Ok;
    es := [];
    SideCanEmit(c, s);
    PutNothing(s.srcRing, c.page);
    RoomBound(c, s.srcRing, len);
    if len > 0 && SourceReady(c, s.src, s.srcFb) {
      PageStep(c, s);
      var s1 := Next(c, s, SourcePage);
      var data := EmitBytes(c, s.src, s.srcFb);
      SideCanEmit(c, s1);
      RoomAfterPage(c, s.srcRing, len, data);
      var rest := SourcePages(c, s1, len - c.page);
      es := [SourcePage] + rest;
      assert es[1..] == rest;
      EmitAtMost(c, s1.src, s.srcFb, len - c.page);
      PutTwice(s.srcRing, data, EmitMany(c, s1.src, s.srcFb, Quot(len - c.page, c.page)).data);
    }
  }

  /** What the source works on in its next turn; see MigFile.Start. */
  ghost function StartOf(c: Cfg, s: Sys, pay: Payload): Side
    requires WellFormed(c, s) && pay.Fits(c)
  {
    if s.src.copied == 0 then Side(Export(c, s.nextMask, pay, s.seqNo), 0) else s.src
  }

  /** The source after some steps of a turn: side and ring, and the bookkeeping of an export if there was one. */
  ghost predicate Turned(c: Cfg, s: Sys, r: Sys, side: Side, ring: Ring, running: bool) {
    var exported := s.src.copied == 0;
    && r.src == side && r.srcRing == ring && r.running == running
    && r.nextMask == (if exported then {} else s.nextMask)
    && r.copiedMask == (if exported then s.copiedMask + s.nextMask else s.copiedMask)
    && r.seqNo == (if exported then (s.seqNo + 1) % TWO64 else s.seqNo)
    && r.shadow == (if exported && FbBitmap in s.nextMask then NoBits(c.bits) else s.shadow)
    && r.srcFb == s.srcFb && r.hw == s.hw && r.net == s.net && r.tgtRing == s.tgtRing && r.tgt == s.tgt
  }

  lemma StartStep(c: Cfg, s: Sys, pay: Payload)
    requires Inv(c, s) && s.src.copied == 0 && Enabled(c, s, SourceStart(pay))
    ensures pay.Fits(c) && CanEmit(c, StartOf(c, s, pay), s.srcFb)
    ensures SourceReady(c, StartOf(c, s, pay), s.srcFb) && s.srcRing.put < |s.srcRing.data|
    ensures var r, st := Next(c, s, SourceStart(pay)), StartOf(c, s, pay);
            && Inv(c, r) && r.src.copied > 0
            && |EmitBytes(c, st, s.srcFb)| == c.page < |s.srcRing.data|
            && Turned(c, s, r, EmitSide(c, st, s.srcFb), s.srcRing.Put(EmitBytes(c, st, s.srcFb)), s.running)
  {
    hide Export, Absorb, Decode, InFlight, TransportOk, MessageOk, RoundOk, OnceOk;
    NextInv(c, s, SourceStart(pay));
    StepInside(c, 0);
  }

  lemma NotReadyIsExhausted(c: Cfg, s: Side, fb: seq<byte>)
    requires CanEmit(c, s, fb) && !SourceReady(c, s, fb)
    ensures s.Ok(c) && s.Exhausted(c)
  {
  }

  /** All pages of a turn, the exported message's first page included. */
  lemma TurnPages(c: Cfg, s: Sys, pay: Payload, len: nat) returns (es: seq<Event>)
    requires Inv(c, s) && s.running && Room(c, s.srcRing, len) && Mult(len, c.page) && len > 0
    requires if s.src.copied == 0 then Enabled(c, s, SourceStart(pay)) else pay.Fits(c)
    ensures s.srcRing.put < |s.srcRing.data| && CanEmit(c, StartOf(c, s, pay), s.srcFb)
    ensures CanRun(c, s, es) && (forall i :: 0 <= i < |es| ==> es[i] == SourcePage || es[i] == SourceStart(pay))
    ensures var e := EmitMany(c, StartOf(c, s, pay), s.srcFb, Quot(len, c.page));
            && Inv(c, Run(c, s, es)) && |e.data| < |s.srcRing.data|
            && Turned(c, s, Run(c, s, es), e.side, s.srcRing.Put(e.data), true)
  {
    hide WellFormed, Enabled, Next, SourceReady, CanEmit, EmitSide, EmitBytes, TransportOk, MessageOk, RoundOk, OnceOk,
         Ring.Fill, Ring.Ok, Export;
    SideCanEmit(c, s);
    if s.src.copied > 0 {
      es := SourcePages(c, s, len);
    } else {
      es := FirstPages(c, s, pay, len);
    }
  }

  lemma FirstPages(c: Cfg, s: Sys, pay: Payload, len: nat) returns (es: seq<Event>)
    requires Inv(c, s) && s.running && Room(c, s.srcRing, len) && Mult(len, c.page) && len > 0
    requires s.src.copied == 0 && Enabled(c, s, SourceStart(pay)) && s.srcRing.put < |s.srcRing.data|
    ensures CanEmit(c, StartOf(c, s, pay), s.srcFb)
    ensures CanRun(c, s, es) && (forall i :: 0 <= i < |es| ==> es[i] == SourcePage || es[i] == SourceStart(pay))
    ensures var e := EmitMany(c, StartOf(c, s, pay), s.srcFb, Quot(len, c.page));
            && Inv(c, Run(c, s, es)) && |e.data| < |s.srcRing.data|
            && Turned(c, s, Run(c, s, es), e.side, s.srcRing.Put(e.data), true)
  {
    hide WellFormed, Enabled, Next, SourceReady, CanEmit, EmitSide, EmitBytes, TransportOk, MessageOk, RoundOk, OnceOk,
         Ring.Fill, Ring.Ok, Ring.Put, Export, StartOf;
    RoomBound(c, s.srcRing, len);
    StartStep(c, s, pay);
    var s1, data := Next(c, s, SourceStart(pay)), EmitBytes(c, StartOf(c, s, pay), s.srcFb);
    SideCanEmit(c, s1);
    RoomAfterPage(c, s.srcRing, len, data);
    var rest := SourcePages(c, s1, len - c.page);
    es := [SourceStart(pay)] + rest;
    assert es[1..] == rest;
    EmitAtMost(c, s1.src, s.srcFb, len - c.page);
    PutTwice(s.srcRing, data, EmitMany(c, s1.src, s.srcFb, Quot(len - c.page, c.page)).data);
  }

  /** A turn of the source thread, as MigFile.SourceThread performs it, is a run of the system. */
  lemma SourceTurnRuns(c: Cfg, s: Sys, pay: Payload, n: nat, done: bool, side: Side, ring: Ring) returns (es: seq<Event>)
    requires Inv(c, s) && s.running && Room(c, s.srcRing, c.page)
    requires if s.src.copied == 0 then Enabled(c, s, SourceStart(pay)) else pay.Fits(c)
    requires CanEmit(c, StartOf(c, s, pay), s.srcFb)
    requires SourceTurn(c, StartOf(c, s, pay), s.srcFb, s.srcRing, n, done, side, ring)
    ensures CanRun(c, s, es) && Inv(c, Run(c, s, es))
    ensures forall i :: 0 <= i < |es| ==> es[i] == SourceStart(pay) || es[i] == SourcePage || es[i] == SourceDone
    ensures var r := Run(c, s, es); Turned(c, s, r, side, ring, !(done && r.nextMask == {}))
  {
    hide WellFormed, Enabled, SourceReady, CanEmit, EmitSide, EmitBytes, TransportOk, MessageOk, RoundOk, OnceOk,
         Ring.Fill, Ring.Ok, Export, StartOf, Next, Side.Ok, Side.Exhausted, EmitMany, Ring.Put, Ring.Contents;
    var len := ThreadRoom(s.srcRing, c.page, false);
    RoomIs(c, s);
    es := TurnPages(c, s, pay, len);
    if done {
      var r := Run(c, s, es);
      NotReadyIsExhausted(c, r.src, s.srcFb);
      DoneStep(c, r);
      RunOne(c, r, SourceDone);
      RunAppend(c, s, es, [SourceDone]);
      es := es + [SourceDone];
    }
  }

  lemma RoomIs(c: Cfg, s: Sys)
    requires WellFormed(c, s) && Room(c, s.srcRing, c.page)
    ensures s.srcRing.Ok(c.page)
    ensures var len := ThreadRoom(s.srcRing, c.page, false); len > 0 && Mult(len, c.page) && Room(c, s.srcRing, len)
  {
    hide ThreadRoom;
    RoomFacts(s.srcRing, c.page, false);
  }

  lemma DoneStep(c: Cfg, s: Sys)
    requires Inv(c, s) && s.running && s.src.Exhausted(c)
    ensures Enabled(c, s, SourceDone)
    ensures var r := Next(c, s, SourceDone); Inv(c, r) && r == s.(src := Fresh(c), running := s.nextMask != {})
  {
    hide Export, Absorb, Decode, InFlight, TransportOk, MessageOk, RoundOk, OnceOk;
    NextInv(c, s, SourceDone);
  }

  // ---- target ----

  /** Only what the target thread's steps touch has changed. */
  ghost predicate TargetMoved(s: Sys, r: Sys, t: Target, n: nat)
    requires s.tgtRing.get < |s.tgtRing.data|
  {
    n < |s.tgtRing.data| && r == s.(tgt := t, tgtRing := s.tgtRing.Take(n))
  }

  lemma TargetStep(c: Cfg, s: Sys)
    requires Inv(c, s) && s.tgt.ok && c.page <= s.tgtRing.Fill() && !s.tgt.side.Exhausted(c)
    ensures Enabled(c, s, TargetPage) && s.tgtRing.Ok(c.page) && c.page < |s.tgtRing.data|
    ensures var r := Next(c, s, TargetPage);
            && Inv(c, r) && r.tgt.ok && TargetMoved(s, r, Absorb(c, s.tgt, s.tgtRing.Contents()[..c.page]), c.page)
            && r.tgtRing.Ok(c.page) && s.tgtRing.Contents() == s.tgtRing.Contents()[..c.page] + r.tgtRing.Contents()
  {
    hide Export, Absorb, Decode, InFlight, TransportOk, MessageOk, RoundOk, OnceOk;
    SpaceFormulas(s.tgtRing, c.page);
    NextInv(c, s, TargetPage);
    TakeContents(s.tgtRing, c.page, c.page);
    NeverRejected(c, Next(c, s, TargetPage));
  }

  /** On no reachable state has the target rejected anything. */
  lemma NeverRejected(c: Cfg, s: Sys)
    requires Inv(c, s)
    ensures s.tgt.ok
  {
    hide Decode, InFlight, WellFormed, TransportOk, MessageOk, RoundOk, OnceOk;
    DecodedOk(c, s);
    if !s.tgt.ok {
      DecodeKeepsFailure(c, s.tgt, InFlight(s));
    }
  }

  lemma DecodedOk(c: Cfg, s: Sys)
    requires WellFormed(c, s) && TransportOk(c, s)
    ensures s.tgtRing.put < |s.tgtRing.data| && s.tgtRing.get < |s.tgtRing.data|
    ensures s.srcRing.put < |s.srcRing.data| && s.srcRing.get < |s.srcRing.data|
    ensures s.tgt.Ok(c) && Decode(c, s.tgt, InFlight(s)).ok
  {
    hide Decode, InFlight, InStep, Cfg.Valid, Cfg.MsgSize;
  }

  lemma {:induction false} DecodeKeepsFailure(c: Cfg, t: Target, bytes: seq<byte>)
    requires t.Ok(c) && !t.ok
    ensures !Decode(c, t, bytes).ok
    decreases |bytes|
  {
    hide Absorb, Cfg.Valid, Cfg.MsgSize, Target.Ok;
    PositivePage(c, t);
    if |bytes| >= c.page {
      AbsorbKeepsFailure(c, t, bytes[..c.page]);
      DecodeKeepsFailure(c, Absorb(c, t, bytes[..c.page]), bytes[c.page..]);
    }
  }

  lemma AbsorbKeepsFailure(c: Cfg, t: Target, data: seq<byte>)
    requires t.Ok(c) && !t.ok && |data| == c.page
    ensures !Absorb(c, t, data).ok
  {
    hide ImportMsg, Cfg.Granularity, Pow2, BitsOf;
  }

  lemma TakeTwice(r: Ring, a: nat, b: nat)
    requires r.get < |r.data| && a + b < |r.data|
    ensures r.Take(a).Take(b) == r.Take(a + b)
  {
  }

  lemma TakeNothing(r: Ring)
    requires 0 < |r.data| && r.get < |r.data|
    ensures r.Take(0) == r
  {
  }

  lemma RestOfSlice(x: seq<byte>, y: seq<byte>, p: nat, len: nat)
    requires p <= len <= |x| && x == x[..p] + y
    ensures x[..len][..p] == x[..p] && len - p <= |y| && x[..len][p..] == y[..len - p]
  {
  }

  /** The bytes of a call, page by page. */
  lemma {:induction false} TargetPages(c: Cfg, s: Sys, len: nat) returns (es: seq<Event>)
    requires Inv(c, s) && len <= |s.tgtRing.Contents()| && s.tgtRing.Ok(c.page) && s.tgt.Ok(c)
    ensures CanRun(c, s, es) && (forall i :: 0 <= i < |es| ==> es[i] == TargetPage)
    ensures var r, a := Run(c, s, es), AbsorbMany(c, s.tgt, s.tgtRing.Contents()[..len]);
            Inv(c, r) && TargetMoved(s, r, a.target, a.used)
    decreases len
  {
    hide WellFormed, Enabled, Next, TransportOk, MessageOk, RoundOk, OnceOk, Ring.Contents, Ring.Ok, Absorb, AbsorbMany, Target.Ok, Side.Exhausted;
    es := [];
    RingSizes(s.tgtRing, c.page);
    var data := s.tgtRing.Contents()[..len];
    TargetOk(c, s);
    TakeNothing(s.tgtRing);
    if len >= c.page && !s.tgt.side.Exhausted(c) {
      NeverRejected(c, s);
      TargetStep(c, s);
      var s1 := Next(c, s, TargetPage);
      RestOfSlice(s.tgtRing.Contents(), s1.tgtRing.Contents(), c.page, len);
      TargetOk(c, s1);
      var rest := TargetPages(c, s1, len - c.page);
      es := [TargetPage] + rest;
      assert es[1..] == rest;
      AbsorbOne(c, s.tgt, data);
      TakeTwice(s.tgtRing, c.page, AbsorbMany(c, s1.tgt, data[c.page..]).used);
    } else {
      AbsorbNone(c, s.tgt, data);
    }
  }

  lemma AbsorbNone(c: Cfg, t: Target, data: seq<byte>)
    requires t.Ok(c) && (|data| < c.page || t.side.Exhausted(c))
    ensures AbsorbMany(c, t, data) == Absorption(t, 0)
  {
    hide Absorb;
  }

  lemma TargetOk(c: Cfg, s: Sys)
    requires WellFormed(c, s)
    ensures s.tgt.Ok(c) && s.tgt.side.Ok(c) && s.tgtRing.Ok(c.page)
  {
  }

  lemma RingSizes(r: Ring, page: nat)
    requires r.Ok(page)
    ensures r.put < |r.data| && r.get < |r.data| && |r.Contents()| == r.Fill() < |r.data| && page > 0
  {
  }

  /** A turn of the target thread, as MigFile.TargetThread performs it, is a run of the system. */
  lemma TargetTurnRuns(c: Cfg, s: Sys, n: nat, done: bool, t: Target, ring: Ring) returns (es: seq<Event>)
    requires Inv(c, s) && s.tgt.Ok(c) && s.tgtRing.Ok(c.page) && TargetTurn(c, s.tgt, s.tgtRing, n, done, t, ring)
    ensures CanRun(c, s, es) && Inv(c, Run(c, s, es))
    ensures forall i :: 0 <= i < |es| ==> es[i] == TargetPage || es[i] == TargetDone
    ensures Run(c, s, es) == s.(tgt := t, tgtRing := ring)
  {
    hide WellFormed, Enabled, Next, TransportOk, MessageOk, RoundOk, OnceOk, Ring.Contents, Ring.Ok, AbsorbMany, Target.Ok, Side.Exhausted,
         ThreadRoom, Ring.Fill;
    RingSizes(s.tgtRing, c.page);
    es := TargetPages(c, s, ThreadRoom(s.tgtRing, c.page, true));
    if done {
      var r := Run(c, s, es);
      TargetDoneStep(c, r);
      RunOne(c, r, TargetDone);
      RunAppend(c, s, es, [TargetDone]);
      es := es + [TargetDone];
    }
  }

  lemma TargetDoneStep(c: Cfg, s: Sys)
    requires Inv(c, s) && s.tgt.side.Exhausted(c)
    ensures Enabled(c, s, TargetDone)
    ensures var r := Next(c, s, TargetDone); Inv(c, r) && r == s.(tgt := s.tgt.(side := Fresh(c)))
  {
    hide Export, Absorb, Decode, InFlight, TransportOk, MessageOk, RoundOk, OnceOk;
    NeverRejected(c, s);
    NextInv(c, s, TargetDone);
  }

  lemma LastPageFails(c: Cfg, t: Target, page: seq<byte>)
    requires t.Ok(c) && |page| == c.page && t.side.copied + c.page == |t.side.msg| && !Welcome(c, t, page)
    ensures !AbsorbMany(c, t, page).target.ok
  {
    hide Cfg.Granularity, Pow2, BitsOf, NextBit, ImportMsg;
    assert t.side.Settle(c) == t.side;
    assert page[..c.page] == page && page[c.page..] == [];
    AbsorbOne(c, t, page);
    NothingMore(c, Absorb(c, t, page), []);
  }

  /** Bytes that complete a message import refuses leave the target failed, however they are cut into pages. */
  lemma UnwelcomeFails(c: Cfg, t: Target, part: seq<byte>)
    requires t.Ok(c) && Mult(|part|, c.page) && |part| > 0 && t.side.copied + |part| == |t.side.msg| && !Welcome(c, t, part)
    ensures !AbsorbMany(c, t, part).target.ok
  {
    hide Cfg.Granularity, Pow2, Cfg.MsgSize, Absorb, Side.Exhausted, Cfg.BitmapOffset, Patch, ImportMsg, AbsorbMany;
    var n := |part| - c.page;
    var a, b := part[..n], part[n..];
    assert part == a + b;
    if n > 0 {
      AbsorbMsgPages(c, t, a);
      AbsorbSplit(c, t, a, b);
      PatchTwice(t.side.msg, t.side.copied, a, b);
      LastPageFails(c, t.(side := Side(Patch(t.side.msg, t.side.copied, a), t.side.copied + n)), b);
    } else {
      assert b == part;
      LastPageFails(c, t, b);
    }
  }

  /**
   * The duplicate, checksum, bounds and granularity checks never fire in a session: whatever message bytes
   * the next turn of the target thread takes, if they complete a message, import accepts it and finds the
   * bitmap where export put it.
   */
  lemma TurnAccepted(c: Cfg, s: Sys, len: nat)
    requires Inv(c, s) && s.tgt.Ok(c) && s.tgtRing.Ok(c.page)
    requires Mult(len, c.page) && len <= |s.tgtRing.Contents()|
    ensures var part := s.tgtRing.Contents()[..MsgPart(c, s.tgt.side, len)]; Welcome(c, s.tgt, part)
  {
    hide WellFormed, TransportOk, MessageOk, RoundOk, OnceOk, Ring.Contents, Cfg.Granularity, Pow2, Cfg.MsgSize, AbsorbMany,
         ImportMsg, Patch, Ring.Fill;
    var n := MsgPart(c, s.tgt.side, len);
    var part := s.tgtRing.Contents()[..n];
    MsgPartPages(c, s.tgt.side, len);
    if !Welcome(c, s.tgt, part) {
      var es := TargetPages(c, s, n);
      NeverRejected(c, Run(c, s, es));
      UnwelcomeFails(c, s.tgt, part);
    }
  }
}
