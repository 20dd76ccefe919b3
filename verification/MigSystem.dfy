/**
 * A whole migration as a step system: the guest writing its framebuffer, dirty-bit queries, the source
 * copy thread, the user-space reader, the user-space writer and the target copy thread, in any order.
 */
module MigSystem {
  import opened Arith
  import opened Bytes
  import opened Bitmap
  import opened MigPages
  import opened MigMessage
  import opened MigRing
  import opened MigTransfer

  datatype Sys = Sys(
    // source: framebuffer, dirty bits the hardware still holds, shadow bitmap, thread state, ring
    srcFb: seq<byte>, hw: set<nat>, shadow: seq<bool>,
    src: Side, nextMask: set<Section>, copiedMask: set<Section>, running: bool, seqNo: nat, srcRing: Ring,
    // bytes user space holds between read() and write()
    net: seq<byte>,
    // target
    tgtRing: Ring, tgt: Target,
    // history: what the target framebuffer will be, the current round, every exported section set
    expected: seq<byte>, base: seq<byte>, round: seq<bool>, secs: set<Section>, pay: Payload, sent: nat,
    exports: seq<set<Section>>)

  datatype Event =
    | GuestWrite(p: nat, data: seq<byte>)
    | Query(dynamic: bool, merges: bool)
    | SizeQuery(merges: bool)
    | Wake
    | SourceStart(pay: Payload)
    | SourcePage
    | SourceDone
    | UserRead(n: nat)
    | UserWrite(n: nat)
    | TargetPage
    | TargetDone

  function InFlight(s: Sys): seq<byte>
    requires s.srcRing.put < |s.srcRing.data| && s.srcRing.get < |s.srcRing.data|
    requires s.tgtRing.put < |s.tgtRing.data| && s.tgtRing.get < |s.tgtRing.data|
  {
    s.tgtRing.Contents() + s.net + s.srcRing.Contents()
  }

  /** Sizes and alignment: what makes the states below meaningful. */
  ghost predicate WellFormed(c: Cfg, s: Sys) {
    && c.Valid()
    && |s.srcFb| == c.bits * c.page && |s.expected| == |s.srcFb| && |s.base| == |s.srcFb|
    && |s.shadow| == c.bits && |s.round| == c.bits
    && (forall p :: p in s.hw ==> p < c.bits)
    && s.src.Ok(c) && s.tgt.Ok(c)
    && |s.srcRing.data| == c.ring && |s.tgtRing.data| == c.ring
    && s.srcRing.Ok(c.page) && s.tgtRing.Ok(c.page)
    && Mult(s.srcRing.put, c.page) && Mult(s.tgtRing.get, c.page)
    && s.pay.Fits(c) && s.seqNo < TWO64
  }

  // ---- steps ----

  /** What a dirty-bit query leaves in the shadow bitmap; some devices OR into it, some overwrite it. */
  function QueryShadow(shadow: seq<bool>, hw: set<nat>, merges: bool): (r: seq<bool>)
    ensures |r| == |shadow|
  {
    seq(|shadow|, i requires 0 <= i < |shadow| => i in hw || (merges && shadow[i]))
  }

  function QueryMask(next: set<Section>, copied: set<Section>, dynamic: bool, shadow: seq<bool>): set<Section> {
    next
    + (if Ctx in copied then {} else {Ctx})
    + (if Static in copied then {} else {Static})
    + (if !dynamic || Dynamic in copied then {} else {Dynamic})
    + (if Count(shadow) > 0 then {FbBitmap} else {})
  }

  ghost predicate Enabled(c: Cfg, s: Sys, e: Event)
    requires WellFormed(c, s)
  {
    match e
    case GuestWrite(p, data) => p < c.bits && |data| == c.page
    case Query(_, _) => true
    case SizeQuery(_) => true
    case Wake => s.srcRing.Fill() == 0 && s.nextMask != {}
    case SourceStart(pay) =>
      s.running && SourceThreadSpace(s.srcRing, c.page) >= c.page && s.src.copied == 0 && s.nextMask != {}
      && pay.Fits(c) && pay.shadow == s.shadow
    case SourcePage =>
      s.running && SourceThreadSpace(s.srcRing, c.page) >= c.page && s.src.copied > 0 && !s.src.Exhausted(c)
    case SourceDone => s.running && s.src.Exhausted(c)
    case UserRead(n) => n <= PendingSpace(s.srcRing)
    case UserWrite(n) => n <= |s.net| && n <= TargetUserSpace(s.tgtRing, c.page)
    case TargetPage => s.tgt.ok && PendingSpace(s.tgtRing) >= c.page && !s.tgt.side.Exhausted(c)
    case TargetDone => s.tgt.ok && s.tgt.side.Exhausted(c)
  }

  /** One page leaves the source: bytes into the ring, and the history follows. */
  ghost function Emitted(c: Cfg, s: Sys, side: Side): Sys
    requires WellFormed(c, s) && SourceReady(c, side, s.srcFb)
  {
    var data := EmitBytes(c, side, s.srcFb);
    s.(src := EmitSide(c, side, s.srcFb), srcRing := s.srcRing.Put(data), sent := s.sent + c.page,
       expected := if side.copied < |side.msg| then s.expected else
                     PageInside(c.bits, c.page, NextBit(side.Bits(c), 0), 1);
                     WritePage(s.expected, c.page, NextBit(side.Bits(c), 0), data))
  }

  /** Export takes the pending sections, and the shadow bitmap if it is among them. */
  ghost function Started(c: Cfg, s: Sys, pay: Payload): (r: Sys)
    requires WellFormed(c, s) && s.src.copied == 0 && pay.Fits(c)
    ensures WellFormed(c, r)
  {
    var taken := FbBitmap in s.nextMask;
    s.(shadow := if taken then NoBits(c.bits) else s.shadow,
       copiedMask := s.copiedMask + s.nextMask, nextMask := {}, seqNo := (s.seqNo + 1) % TWO64,
       base := s.expected, round := if taken then s.shadow else NoBits(c.bits),
       secs := s.nextMask, pay := pay, sent := 0, exports := s.exports + [s.nextMask])
  }

  ghost function Next(c: Cfg, s: Sys, e: Event): Sys
    requires WellFormed(c, s) && Enabled(c, s, e)
  {
    SpaceFormulas(s.srcRing, c.page);
    SpaceFormulas(s.tgtRing, c.page);
    match e
    case GuestWrite(p, data) =>
      PageInside(c.bits, c.page, p, 1);
      s.(srcFb := WritePage(s.srcFb, c.page, p, data), hw := s.hw + {p})
    case Query(dynamic, merges) =>
      var shadow := QueryShadow(s.shadow, s.hw, merges);
      s.(hw := {}, shadow := shadow, nextMask := QueryMask(s.nextMask, s.copiedMask, dynamic, shadow))
    case SizeQuery(merges) =>
      s.(hw := {}, shadow := QueryShadow(s.shadow, s.hw, merges))
    case Wake => s.(running := true)
    case SourceStart(pay) =>
      StepInside(c, 0);
      Emitted(c, Started(c, s, pay), Side(Export(c, s.nextMask, pay, s.seqNo), 0))
    case SourcePage => Emitted(c, s, s.src)
    case SourceDone => s.(src := Fresh(c), running := s.nextMask != {})
    case UserRead(n) => s.(net := s.net + s.srcRing.Contents()[..n], srcRing := s.srcRing.Take(n))
    case UserWrite(n) => s.(tgtRing := s.tgtRing.Put(s.net[..n]), net := s.net[n..])
    case TargetPage =>
      s.(tgt := Absorb(c, s.tgt, s.tgtRing.Contents()[..c.page]), tgtRing := s.tgtRing.Take(c.page))
    case TargetDone => s.(tgt := s.tgt.(side := Fresh(c)))
  }

  /** gim_mig_setup_copy on both ends; every page that may differ is reported by the first query. */
  ghost predicate Init(c: Cfg, s: Sys) {
    && WellFormed(c, s)
    && (forall q :: 0 <= q < c.bits ==> q in s.hw || SamePage(c, s.tgt.fb, s.srcFb, q))
    && Empty(s.shadow)
    && s.src == Fresh(c) && s.nextMask == {} && s.copiedMask == {} && !s.running
    && s.srcRing.put == s.srcRing.get == 0 && s.tgtRing.put == s.tgtRing.get == 0 && s.net == []
    && s.tgt.side == Fresh(c) && s.tgt.mask == {} && s.tgt.ok
    && s.expected == s.tgt.fb && s.base == s.tgt.fb && Empty(s.round) && s.exports == []
  }

  ghost predicate SamePage(c: Cfg, a: seq<byte>, b: seq<byte>, q: nat) {
    q * c.page + c.page <= |a| && q * c.page + c.page <= |b| && PageOf(a, c.page, q) == PageOf(b, c.page, q)
  }

  // ---- the invariant ----

  /** Sections of the message under way that the target has not imported yet. */
  function Underway(s: Sys): set<Section> {
    if 0 < s.src.copied < |s.src.msg| then s.secs * ONCE else {}
  }

  /** Everything under way, decoded by the target, gives exactly the history and leaves both ends in step. */
  ghost predicate TransportOk(c: Cfg, s: Sys)
    requires WellFormed(c, s)
  {
    var d := Decode(c, s.tgt, InFlight(s));
    && Mult(|InFlight(s)|, c.page)
    && InStep(c, d.side, s.src)
    && d.ok && d.fb == s.expected
    && d.mask == s.copiedMask * ONCE - Underway(s)
  }

  ghost predicate MessageOk(c: Cfg, s: Sys)
    requires WellFormed(c, s)
  {
    && FbData !in s.nextMask && (0 < s.src.copied ==> FbData !in s.secs)
    && s.nextMask * s.copiedMask * ONCE == {}
    && (0 < s.src.copied ==> s.secs * ONCE <= s.copiedMask)
    && (0 < s.src.copied < |s.src.msg| ==> exists n :: 0 <= n < TWO64 && s.src.msg == Export(c, s.secs, s.pay, n))
    && (s.running && s.src.copied == 0 ==> s.nextMask != {})
    && (0 < s.src.copied ==> s.sent + s.src.Remaining(c) * c.page == RoundLength(c, s.secs, s.pay.shadow))
  }

  /** Every page is still recorded as dirty somewhere, or the target will hold the source's bytes. */
  ghost predicate DirtyOk(c: Cfg, s: Sys)
    requires WellFormed(c, s)
  {
    forall q :: 0 <= q < c.bits ==> Covered(c, s, q)
  }

  ghost predicate Covered(c: Cfg, s: Sys, q: nat)
    requires WellFormed(c, s) && q < c.bits
  {
    Recorded(c, s, q) || SamePage(c, s.expected, s.srcFb, q)
  }

  ghost predicate Recorded(c: Cfg, s: Sys, q: nat)
    requires WellFormed(c, s) && q < c.bits
  {
    q in s.hw || s.shadow[q] || s.src.Bits(c)[q]
  }

  /** Within a round only pages of its bitmap are sent. */
  ghost predicate RoundOk(c: Cfg, s: Sys)
    requires WellFormed(c, s)
  {
    && (forall q :: 0 <= q < c.bits && s.src.Bits(c)[q] ==> s.round[q])
    && (forall q :: 0 <= q < c.bits && !s.round[q] ==> SamePage(c, s.expected, s.base, q))
  }

  /** Each once-only section was exported at most once. */
  ghost predicate OnceOk(s: Sys) {
    && (forall i :: 0 <= i < |s.exports| ==> s.exports[i] * ONCE <= s.copiedMask)
    && (forall i, j, sec :: 0 <= i < j < |s.exports| && sec in ONCE && sec in s.exports[i] ==> sec !in s.exports[j])
  }

  ghost predicate Inv(c: Cfg, s: Sys) {
    WellFormed(c, s) && TransportOk(c, s) && MessageOk(c, s) && RoundOk(c, s) && OnceOk(s)
  }

  // ---- every step keeps the invariant ----

  lemma InitTransport(c: Cfg, s: Sys)
    requires Init(c, s)
    ensures TransportOk(c, s)
  {
    hide Export, EmitSide, EmitBytes, Absorb;
    assert InFlight(s) == [];
    assert Decode(c, s.tgt, []) == s.tgt;
  }

  lemma InitInv(c: Cfg, s: Sys)
    requires Init(c, s)
    ensures Inv(c, s) && DirtyOk(c, s)
  {
    hide Export, EmitSide, EmitBytes, Absorb, Decode, InStep, InFlight;
    InitTransport(c, s);
    FreshBits(c, s.src);
    forall q | 0 <= q < c.bits
      ensures SamePage(c, s.expected, s.base, q)
    {
      PageInside(c.bits, c.page, q, 1);
    }
  }

  lemma RingAligned(c: Cfg, p: nat)
    requires c.Valid() && p < c.ring && Mult(p, c.page)
    ensures Mult(Wrap(p + c.page, c.ring), c.page)
  {
    MultSum(p, c.page, c.page);
    if p + c.page >= c.ring {
      MultDiff(p + c.page, c.ring, c.page);
    }
  }

  lemma SourceRingPut(c: Cfg, s: Sys, data: seq<byte>)
    requires WellFormed(c, s) && |data| == c.page && SourceThreadSpace(s.srcRing, c.page) >= c.page
    ensures var r := s.srcRing.Put(data);
            && r.Ok(c.page) && Mult(r.put, c.page)
            && s.tgtRing.Contents() + s.net + r.Contents() == InFlight(s) + data
  {
    SpaceFormulas(s.srcRing, c.page);
    PutContents(s.srcRing, data, c.page);
    RingAligned(c, s.srcRing.put);
    var a, b := s.tgtRing.Contents() + s.net, s.srcRing.Contents();
    assert a + (b + data) == (a + b) + data;
  }

  /** One page from the source: both ends stay in step and the page is on its way. */
  lemma EmitTransport(c: Cfg, s: Sys, side: Side, s': Sys, t: Target)
    requires WellFormed(c, s) && SourceReady(c, side, s.srcFb) && s' == Emitted(c, s, side)
    requires SourceThreadSpace(s.srcRing, c.page) >= c.page
    requires Mult(|InFlight(s)|, c.page) && t == Decode(c, s.tgt, InFlight(s))
    ensures WellFormed(c, s')
    ensures Mult(|InFlight(s')|, c.page)
    ensures Decode(c, s'.tgt, InFlight(s')) == Absorb(c, t, EmitBytes(c, side, s.srcFb))
  {
    hide Absorb, Decode, EmitBytes, EmitSide, SourceReady, SourceThreadSpace, Ring.Put, Ring.Contents, Ring.Fill;
    var data := EmitBytes(c, side, s.srcFb);
    SourceRingPut(c, s, data);
    assert InFlight(s') == InFlight(s) + data;
    MultSum(|InFlight(s)|, c.page, c.page);
    DecodeAppend(c, s.tgt, InFlight(s), data);
  }

  lemma SourceStartTransport(c: Cfg, s: Sys, pay: Payload)
    requires Inv(c, s) && Enabled(c, s, SourceStart(pay))
    ensures var s' := Next(c, s, SourceStart(pay)); WellFormed(c, s') && TransportOk(c, s')
  {
    hide Export, Absorb, Decode, RoundOk, OnceOk, EmitBytes, InFlight;
    var side, s1 := Side(Export(c, s.nextMask, pay, s.seqNo), 0), Started(c, s, pay);
    var s' := Next(c, s, SourceStart(pay));
    var t := Decode(c, s.tgt, InFlight(s));
    StepInside(c, 0);
    assert InFlight(s1) == InFlight(s) by { SameInFlight(s, s1); }
    EmitTransport(c, s1, side, s', t);
    StartMasks(s.copiedMask, s.nextMask);
    FirstPage(c, t, s.src, s.srcFb, s.nextMask, pay, s.seqNo);
  }

  lemma StartMasks(copied: set<Section>, next: set<Section>)
    requires next * copied * ONCE == {}
    ensures copied * ONCE * next * ONCE == {}
    ensures (copied + next) * ONCE - next * ONCE == copied * ONCE
    ensures (copied + next) * ONCE == copied * ONCE + next * ONCE
  {
    forall sec | sec in copied * ONCE
      ensures sec !in next * ONCE
    {
      assert sec !in next * copied * ONCE;
    }
  }

  lemma SameInFlight(s: Sys, r: Sys)
    requires s.srcRing.put < |s.srcRing.data| && s.srcRing.get < |s.srcRing.data|
    requires s.tgtRing.put < |s.tgtRing.data| && s.tgtRing.get < |s.tgtRing.data|
    requires r.srcRing == s.srcRing && r.tgtRing == s.tgtRing && r.net == s.net
    ensures InFlight(r) == InFlight(s)
  {
  }

  lemma SourcePageTransport(c: Cfg, s: Sys)
    requires Inv(c, s) && Enabled(c, s, SourcePage)
    ensures var s' := Next(c, s, SourcePage); WellFormed(c, s') && TransportOk(c, s')
  {
    hide Export, Absorb, Decode;
    var s' := Next(c, s, SourcePage);
    var t := Decode(c, s.tgt, InFlight(s));
    EmitTransport(c, s, s.src, s', t);
    if s.src.copied == |s.src.msg| {
      InStepFb(c, t, s.src, s.srcFb);
    } else {
      StepInside(c, s.src.copied);
      assert s.src.Settle(c) == s.src;
      if s.src.copied + c.page < |s.src.msg| {
        InStepMsg(c, t, s.src, s.srcFb);
      } else {
        var n :| 0 <= n < TWO64 && s.src.msg == Export(c, s.secs, s.pay, n);
        InStepImport(c, t, s.src, s.srcFb, s.secs, s.pay, n);
        assert t.mask + s.secs * ONCE == s'.copiedMask * ONCE - Underway(s');
      }
    }
  }

  lemma SourceDoneTransport(c: Cfg, s: Sys)
    requires Inv(c, s) && Enabled(c, s, SourceDone)
    ensures var s' := Next(c, s, SourceDone); WellFormed(c, s') && TransportOk(c, s')
  {
    hide Absorb, Decode, Export, EmitSide, EmitBytes;
    var s' := Next(c, s, SourceDone);
    assert InFlight(s') == InFlight(s);
    assert s.src.Settle(c) == Fresh(c) == s'.src.Settle(c);
  }

  lemma ReadInFlight(c: Cfg, s: Sys, n: nat)
    requires WellFormed(c, s) && n <= PendingSpace(s.srcRing)
    ensures n <= |s.srcRing.Contents()| && n < |s.srcRing.data|
    ensures var r := s.srcRing.Take(n);
            r.Ok(c.page) && s.tgtRing.Contents() + (s.net + s.srcRing.Contents()[..n]) + r.Contents() == InFlight(s)
  {
    SpaceFormulas(s.srcRing, c.page);
    TakeContents(s.srcRing, n, c.page);
    var a, b, d := s.tgtRing.Contents(), s.srcRing.Contents()[..n], s.srcRing.Take(n).Contents();
    assert s.srcRing.Contents() == b + d;
    assert a + (s.net + b) + d == a + s.net + (b + d);
  }

  lemma WriteInFlight(c: Cfg, s: Sys, n: nat)
    requires WellFormed(c, s) && n <= |s.net| && n <= TargetUserSpace(s.tgtRing, c.page)
    ensures n < |s.tgtRing.data|
    ensures var r := s.tgtRing.Put(s.net[..n]);
            r.Ok(c.page) && r.Contents() + s.net[n..] + s.srcRing.Contents() == InFlight(s)
  {
    SpaceFormulas(s.tgtRing, c.page);
    PutContents(s.tgtRing, s.net[..n], c.page);
    var a := s.tgtRing.Contents();
    assert s.net == s.net[..n] + s.net[n..];
    assert a + s.net[..n] + s.net[n..] == a + s.net;
  }

  lemma UserTransport(c: Cfg, s: Sys, e: Event)
    requires Inv(c, s) && Enabled(c, s, e) && (e.UserRead? || e.UserWrite?)
    ensures var s' := Next(c, s, e); WellFormed(c, s') && TransportOk(c, s')
  {
    hide Absorb, Decode, Export, EmitSide, EmitBytes, InStep, MessageOk, RoundOk, OnceOk;
    if e.UserRead? {
      ReadInFlight(c, s, e.n);
    } else {
      WriteInFlight(c, s, e.n);
    }
    assert InFlight(Next(c, s, e)) == InFlight(s);
  }

  lemma TargetPageTransport(c: Cfg, s: Sys)
    requires Inv(c, s) && Enabled(c, s, TargetPage)
    ensures var s' := Next(c, s, TargetPage); WellFormed(c, s') && TransportOk(c, s')
  {
    hide Export, EmitSide, EmitBytes, InStep, Absorb, MessageOk, RoundOk, OnceOk, Ring.Take, Ring.Contents, Ring.Fill, PendingSpace;
    TakePage(c, s);
  }

  /** The page the target takes is the first under way. */
  lemma TakePage(c: Cfg, s: Sys)
    requires WellFormed(c, s) && PendingSpace(s.tgtRing) >= c.page && Mult(|InFlight(s)|, c.page)
    ensures c.page <= |InFlight(s)| && c.page <= |s.tgtRing.Contents()| && c.page < |s.tgtRing.data|
    ensures InFlight(s)[..c.page] == s.tgtRing.Contents()[..c.page]
    ensures var r := s.tgtRing.Take(c.page);
            && |r.data| == c.ring && r.Ok(c.page) && Mult(r.get, c.page)
            && InFlight(s)[c.page..] == r.Contents() + s.net + s.srcRing.Contents() && Mult(|InFlight(s)[c.page..]|, c.page)
  {
    hide Mult, Ring.Contents;
    SpaceFormulas(s.tgtRing, c.page);
    TakeContents(s.tgtRing, c.page, c.page);
    RingAligned(c, s.tgtRing.get);
    FrontTaken(s.tgtRing.Contents(), s.tgtRing.Take(c.page).Contents(), s.net, s.srcRing.Contents(), c.page);
    OneOf(c.page);
    MultDiff(|InFlight(s)|, c.page, c.page);
  }

  lemma OneOf(m: nat)
    requires m > 0
    ensures Mult(m, m)
  {
  }

  lemma FrontTaken(a: seq<byte>, rest: seq<byte>, n: seq<byte>, s: seq<byte>, k: nat)
    requires k <= |a| && a == a[..k] + rest
    ensures (a + n + s)[..k] == a[..k] && (a + n + s)[k..] == rest + n + s
  {
  }

  lemma TargetDoneTransport(c: Cfg, s: Sys)
    requires Inv(c, s) && Enabled(c, s, TargetDone)
    ensures var s' := Next(c, s, TargetDone); WellFormed(c, s') && TransportOk(c, s')
  {
    hide Export, EmitSide, EmitBytes, InStep, Absorb, Decode, InFlight, MessageOk, RoundOk, OnceOk;
    var s' := Next(c, s, TargetDone);
    SameInFlight(s, s');
    var bytes := InFlight(s);
    DecodeFresh(c, s.tgt, bytes);
    if |bytes| < c.page {
      InStepFresh(c, s.tgt.side, s.src);
    }
  }

  lemma DecodeFresh(c: Cfg, t: Target, bytes: seq<byte>)
    requires t.Ok(c) && t.side.Exhausted(c)
    ensures var f := t.(side := Fresh(c));
            if |bytes| >= c.page then Decode(c, f, bytes) == Decode(c, t, bytes)
            else Decode(c, t, bytes) == t && Decode(c, f, bytes) == f
  {
    hide Absorb, Side.Exhausted, Cfg.Valid, Cfg.MsgSize;
    if |bytes| >= c.page {
      AbsorbSettled(c, t, bytes[..c.page]);
    }
  }

  lemma InStepFresh(c: Cfg, t: Side, s: Side)
    requires InStep(c, t, s) && t.Exhausted(c)
    ensures InStep(c, Fresh(c), s)
  {
    hide Cfg.Granularity, Pow2, BitsOf;
    assert Fresh(c).copied < |Fresh(c).msg|;
  }

  lemma QuietTransport(c: Cfg, s: Sys, e: Event)
    requires Inv(c, s) && Enabled(c, s, e) && (e.GuestWrite? || e.Query? || e.SizeQuery? || e.Wake?)
    ensures var s' := Next(c, s, e); WellFormed(c, s') && TransportOk(c, s')
  {
    hide Absorb, Decode, Export, EmitSide, EmitBytes, InStep;
    assert InFlight(Next(c, s, e)) == InFlight(s);
  }

  lemma NextTransport(c: Cfg, s: Sys, e: Event)
    requires Inv(c, s) && Enabled(c, s, e)
    ensures WellFormed(c, Next(c, s, e)) && TransportOk(c, Next(c, s, e))
  {
    match e
    case SourceStart(pay) => SourceStartTransport(c, s, pay);
    case SourcePage => SourcePageTransport(c, s);
    case SourceDone => SourceDoneTransport(c, s);
    case UserRead(_) => UserTransport(c, s, e);
    case UserWrite(_) => UserTransport(c, s, e);
    case TargetPage => TargetPageTransport(c, s);
    case TargetDone => TargetDoneTransport(c, s);
    case _ => QuietTransport(c, s, e);
  }

  /** Bytes still to go shrink by one page with every page emitted. */
  lemma RemainingStep(c: Cfg, s: Side, fb: seq<byte>)
    requires SourceReady(c, s, fb) && s.Ok(c)
    ensures EmitSide(c, s, fb).Remaining(c) == s.Remaining(c) - 1
  {
    if s.copied < |s.msg| {
      StepInside(c, s.copied);
    } else {
      CountClear(s.Bits(c), NextBit(s.Bits(c), 0));
    }
  }

  lemma PageMessage(c: Cfg, s: Sys)
    requires Inv(c, s) && Enabled(c, s, SourcePage) && WellFormed(c, Next(c, s, SourcePage))
    ensures MessageOk(c, Next(c, s, SourcePage))
  {
    hide Export, Absorb, Decode, InStep, InFlight, RoundOk, OnceOk, Side.Remaining;
    RemainingStep(c, s.src, s.srcFb);
    OneLess(s.src.Remaining(c), c.page);
  }

  lemma OneLess(n: nat, m: nat)
    ensures (n - 1) * m == n * m - m
  {
  }

  lemma StartMessage(c: Cfg, s: Sys, pay: Payload)
    requires Inv(c, s) && Enabled(c, s, SourceStart(pay)) && WellFormed(c, Next(c, s, SourceStart(pay)))
    ensures MessageOk(c, Next(c, s, SourceStart(pay)))
  {
    hide Export, Absorb, Decode, InStep, InFlight, RoundOk, OnceOk, Side.Remaining, RoundLength;
    StepInside(c, 0);
    StartRemaining(c, s.nextMask, pay, s.seqNo);
  }

  /** After the first page of an exported message, the rest of its round length is still to go. */
  lemma StartRemaining(c: Cfg, secs: set<Section>, pay: Payload, seqNo: nat)
    requires c.Valid() && pay.Fits(c) && seqNo < TWO64
    ensures c.page <= c.MsgSize()
    ensures var side := Side(Export(c, secs, pay, seqNo), c.page);
            side.Ok(c) && c.page + side.Remaining(c) * c.page == RoundLength(c, secs, pay.shadow)
  {
    StepInside(c, 0);
    ExportBits(c, secs, pay, seqNo);
    var side := Side(Export(c, secs, pay, seqNo), c.page);
    RoundParts(c, side, if FbBitmap in secs then Count(pay.shadow) else 0) by {
      hide Export;
      if FbBitmap !in secs {
        CountEmpty(side.Bits(c));
      }
    }
  }

  lemma RoundParts(c: Cfg, side: Side, n: nat)
    requires side.Ok(c) && side.copied == c.page && c.page <= c.MsgSize() && n == Count(side.Bits(c))
    ensures c.page + side.Remaining(c) * c.page == c.MsgSize() + c.page * n
  {
    hide Side.Bits;
    RoundSum(c.MsgSize(), c.page, n);
  }

  lemma RoundSum(size: nat, page: nat, n: nat)
    requires Mult(size, page) && page <= size
    ensures page + (Quot(size - page, page) + n) * page == size + page * n
  {
    MultMod(size - page, page);
    var q := Quot(size - page, page);
    assert (q + n) * page == q * page + n * page;
  }

  lemma NextMessage(c: Cfg, s: Sys, e: Event)
    requires Inv(c, s) && Enabled(c, s, e) && WellFormed(c, Next(c, s, e))
    ensures MessageOk(c, Next(c, s, e))
  {
    hide Export, Absorb, Decode, InStep, InFlight, RoundOk, OnceOk, Side.Remaining, RoundLength;
    match e
    case SourceStart(pay) => StartMessage(c, s, pay);
    case SourcePage => PageMessage(c, s);
    case _ =>
  }

  lemma StartRound(c: Cfg, s: Sys, pay: Payload)
    requires Inv(c, s) && Enabled(c, s, SourceStart(pay)) && WellFormed(c, Next(c, s, SourceStart(pay)))
    ensures RoundOk(c, Next(c, s, SourceStart(pay)))
  {
    hide Export, Absorb, Decode, InStep, InFlight, OnceOk, MessageOk;
    var s' := Next(c, s, SourceStart(pay));
    StepInside(c, 0);
    ExportBits(c, s.nextMask, pay, s.seqNo);
    forall q | 0 <= q < c.bits
      ensures SamePage(c, s'.expected, s'.base, q)
    {
      PageInside(c.bits, c.page, q, 1);
    }
  }

  lemma PageRound(c: Cfg, s: Sys)
    requires Inv(c, s) && Enabled(c, s, SourcePage) && WellFormed(c, Next(c, s, SourcePage))
    ensures RoundOk(c, Next(c, s, SourcePage))
  {
    hide Export, Absorb, Decode, InStep, InFlight, OnceOk, MessageOk;
    var s' := Next(c, s, SourcePage);
    if s.src.copied == |s.src.msg| {
      var p := NextBit(s.src.Bits(c), 0);
      PageInside(c.bits, c.page, p, 1);
      forall q | 0 <= q < c.bits && !s.round[q]
        ensures SamePage(c, s'.expected, s'.base, q)
      {
        PageInside(c.bits, c.page, q, 1);
        WritePageAt(s.expected, c.page, p, PageOf(s.srcFb, c.page, p), q);
      }
    }
  }

  lemma NextRound(c: Cfg, s: Sys, e: Event)
    requires Inv(c, s) && Enabled(c, s, e) && WellFormed(c, Next(c, s, e))
    ensures RoundOk(c, Next(c, s, e))
  {
    hide Export, Absorb, Decode, InStep, InFlight, OnceOk, MessageOk, SamePage;
    match e
    case SourceStart(pay) => StartRound(c, s, pay);
    case SourcePage => PageRound(c, s);
    case SourceDone => FreshBits(c, Fresh(c));
    case _ =>
  }

  lemma NextOnce(c: Cfg, s: Sys, e: Event)
    requires Inv(c, s) && Enabled(c, s, e)
    ensures OnceOk(Next(c, s, e))
  {
    hide Export, Absorb, Decode, InStep, InFlight, RoundOk, TransportOk, EmitSide, EmitBytes, SourceReady;
    if e.SourceStart? {
      forall i, sec | 0 <= i < |s.exports| && sec in ONCE && sec in s.exports[i]
        ensures sec !in s.nextMask
      {
        assert sec in s.exports[i] * ONCE;
        assert sec !in s.nextMask * s.copiedMask * ONCE;
      }
    }
  }

  lemma NextInv(c: Cfg, s: Sys, e: Event)
    requires Inv(c, s) && Enabled(c, s, e)
    ensures Inv(c, Next(c, s, e))
  {
    NextTransport(c, s, e);
    NextMessage(c, s, e);
    NextRound(c, s, e);
    NextOnce(c, s, e);
  }

  // ---- no dirty page is lost ----

  /** The query merges, or every page the shadow holds is reported again or is still to be sent in the round under way. */
  ghost predicate KeepsShadow(c: Cfg, s: Sys, e: Event)
    requires WellFormed(c, s)
  {
    match e
    case Query(_, merges) => merges || ShadowElsewhere(c, s)
    case SizeQuery(merges) => merges || ShadowElsewhere(c, s)
    case _ => true
  }

  ghost predicate ShadowElsewhere(c: Cfg, s: Sys)
    requires WellFormed(c, s)
  {
    forall q :: 0 <= q < c.bits && s.shadow[q] ==> q in s.hw || s.src.Bits(c)[q]
  }

  lemma NextDirty(c: Cfg, s: Sys, e: Event)
    requires Inv(c, s) && Enabled(c, s, e) && WellFormed(c, Next(c, s, e))
    requires DirtyOk(c, s) && KeepsShadow(c, s, e)
    ensures DirtyOk(c, Next(c, s, e))
  {
    hide Enabled, Next, WellFormed, Covered;
    var s' := Next(c, s, e);
    forall q | 0 <= q < c.bits
      ensures Covered(c, s', q)
    {
      PageStaysCovered(c, s, e, q);
    }
  }

  lemma PageStaysCovered(c: Cfg, s: Sys, e: Event, q: nat)
    requires Inv(c, s) && Enabled(c, s, e) && WellFormed(c, Next(c, s, e)) && KeepsShadow(c, s, e) && q < c.bits
    requires Covered(c, s, q)
    ensures Covered(c, Next(c, s, e), q)
  {
    hide Export, Absorb, Decode, InStep, InFlight, RoundOk, OnceOk, MessageOk;
    PageInside(c.bits, c.page, q, 1);
    match e
    case GuestWrite(p, data) =>
      PageInside(c.bits, c.page, p, 1);
      WritePageAt(s.srcFb, c.page, p, data, q);
    case SourceStart(pay) =>
      StepInside(c, 0);
      FreshBits(c, s.src);
      ExportBits(c, s.nextMask, pay, s.seqNo);
    case SourcePage =>
      if s.src.copied == |s.src.msg| {
        var p := NextBit(s.src.Bits(c), 0);
        PageInside(c.bits, c.page, p, 1);
        WritePageAt(s.expected, c.page, p, PageOf(s.srcFb, c.page, p), q);
      }
    case _ =>
  }

  // ---- runs ----

  ghost predicate CanRun(c: Cfg, s: Sys, es: seq<Event>)
    decreases |es|
  {
    WellFormed(c, s) && (es == [] || (Enabled(c, s, es[0]) && CanRun(c, Next(c, s, es[0]), es[1..])))
  }

  ghost function Run(c: Cfg, s: Sys, es: seq<Event>): Sys
    requires CanRun(c, s, es)
    decreases |es|
  {
    if es == [] then s else Run(c, Next(c, s, es[0]), es[1..])
  }

  /** No query of the run forgets pages the shadow bitmap held. */
  ghost predicate RunKeepsShadow(c: Cfg, s: Sys, es: seq<Event>)
    requires CanRun(c, s, es)
    decreases |es|
  {
    es == [] || (KeepsShadow(c, s, es[0]) && RunKeepsShadow(c, Next(c, s, es[0]), es[1..]))
  }

  lemma {:induction false} RunInv(c: Cfg, s: Sys, es: seq<Event>)
    requires Inv(c, s) && CanRun(c, s, es)
    ensures Inv(c, Run(c, s, es))
    ensures DirtyOk(c, s) && RunKeepsShadow(c, s, es) ==> DirtyOk(c, Run(c, s, es))
    decreases |es|
  {
    hide Inv, Enabled, Next, DirtyOk, KeepsShadow;
    if es != [] {
      NextInv(c, s, es[0]);
      if DirtyOk(c, s) && KeepsShadow(c, s, es[0]) {
        NextDirtyInv(c, s, es[0]);
      }
      RunInv(c, Next(c, s, es[0]), es[1..]);
    }
  }

  lemma NextDirtyInv(c: Cfg, s: Sys, e: Event)
    requires Inv(c, s) && Enabled(c, s, e) && DirtyOk(c, s) && KeepsShadow(c, s, e)
    ensures WellFormed(c, Next(c, s, e)) && DirtyOk(c, Next(c, s, e))
  {
    NextInv(c, s, e);
    NextDirty(c, s, e);
  }

  /** Nothing under way and the source thread between rounds. */
  ghost predicate Drained(c: Cfg, s: Sys)
    requires WellFormed(c, s)
  {
    InFlight(s) == [] && (s.src.copied == 0 || s.src.Exhausted(c))
  }

  lemma DrainedTarget(c: Cfg, s: Sys)
    requires Inv(c, s) && Drained(c, s)
    ensures s.tgt.ok && s.tgt.fb == s.expected
    ensures Empty(s.src.Bits(c)) && Empty(s.tgt.side.Settle(c).Bits(c))
  {
    hide Export, EmitSide, EmitBytes, Absorb;
    assert Decode(c, s.tgt, InFlight(s)) == s.tgt;
    if s.src.copied == 0 {
      FreshBits(c, s.src);
    }
    assert s.src.Settle(c).copied == 0;
    FreshBits(c, s.tgt.side.Settle(c));
  }

  /**
   * End to end. From a fresh session, after any run of guest writes, queries, thread steps and user
   * reads and writes of any size, the target never rejected a message; and once everything under way
   * has arrived, every page either equals the source's page or is still reported dirty. With nothing
   * left to report the two framebuffers are equal.
   */
  lemma Converges(c: Cfg, s0: Sys, es: seq<Event>)
    requires Init(c, s0) && CanRun(c, s0, es) && RunKeepsShadow(c, s0, es)
    ensures var s := Run(c, s0, es);
            && WellFormed(c, s)
            && (Drained(c, s) ==>
                  && s.tgt.ok
                  && (forall q :: 0 <= q < c.bits ==> q in s.hw || s.shadow[q] || SamePage(c, s.tgt.fb, s.srcFb, q))
                  && (s.hw == {} && Empty(s.shadow) ==> s.tgt.fb == s.srcFb))
  {
    hide Init, TransportOk, MessageOk, RoundOk, OnceOk, WellFormed, DirtyOk, Drained;
    InitInv(c, s0);
    RunInv(c, s0, es);
    var s := Run(c, s0, es);
    if Drained(c, s) {
      DrainedPages(c, s);
    }
  }

  lemma DrainedPages(c: Cfg, s: Sys)
    requires Inv(c, s) && Drained(c, s) && DirtyOk(c, s)
    ensures s.tgt.ok
    ensures forall q :: 0 <= q < c.bits ==> q in s.hw || s.shadow[q] || SamePage(c, s.tgt.fb, s.srcFb, q)
    ensures s.hw == {} && Empty(s.shadow) ==> s.tgt.fb == s.srcFb
  {
    hide TransportOk, MessageOk, RoundOk, OnceOk, Drained, SamePage;
    DrainedTarget(c, s);
    forall q | 0 <= q < c.bits
      ensures q in s.hw || s.shadow[q] || SamePage(c, s.tgt.fb, s.srcFb, q)
    {
      assert Covered(c, s, q);
    }
    if s.hw == {} && Empty(s.shadow) {
      PagesEqual(c, s.tgt.fb, s.srcFb);
    }
  }

  lemma PagesEqual(c: Cfg, a: seq<byte>, b: seq<byte>)
    requires c.page > 0 && |a| == |b| == c.bits * c.page
    requires forall q :: 0 <= q < c.bits ==> SamePage(c, a, b, q)
    ensures a == b
  {
    forall i | 0 <= i < |a|
      ensures a[i] == b[i]
    {
      var q := PageHolding(c, i);
      assert SamePage(c, a, b, q);
      assert PageOf(a, c.page, q)[i - q * c.page] == a[i];
      assert PageOf(b, c.page, q)[i - q * c.page] == b[i];
    }
  }

  lemma PageHolding(c: Cfg, i: nat) returns (q: nat)
    requires c.page > 0 && i < c.bits * c.page
    ensures q < c.bits && q * c.page <= i < q * c.page + c.page
  {
    q := i / c.page;
    assert i == q * c.page + i % c.page;
    if q >= c.bits {
      MulMono(c.bits, q, c.page);
      assert false;
    }
  }

  // ---- one round, source unchanging ----

  /** Every page of the round's bitmap that was emitted will be on the target as the source has it. */
  ghost predicate RoundCopied(c: Cfg, s: Sys)
    requires WellFormed(c, s)
  {
    forall q :: 0 <= q < c.bits && s.round[q] && !s.src.Bits(c)[q] ==> SamePage(c, s.expected, s.srcFb, q)
  }

  lemma NextRoundCopied(c: Cfg, s: Sys, e: Event)
    requires Inv(c, s) && Enabled(c, s, e) && WellFormed(c, Next(c, s, e))
    requires !e.GuestWrite? && (e.SourceStart? || RoundCopied(c, s))
    ensures RoundCopied(c, Next(c, s, e))
  {
    hide Export, Absorb, Decode, InStep, InFlight, OnceOk, MessageOk, RoundOk;
    var s' := Next(c, s, e);
    if e.SourceStart? {
      StepInside(c, 0);
      ExportBits(c, s.nextMask, e.pay, s.seqNo);
    } else if e.SourcePage? && s.src.copied == |s.src.msg| {
      var p := NextBit(s.src.Bits(c), 0);
      PageInside(c.bits, c.page, p, 1);
      forall q | 0 <= q < c.bits && s'.round[q] && !s'.src.Bits(c)[q]
        ensures SamePage(c, s'.expected, s'.srcFb, q)
      {
        PageInside(c.bits, c.page, q, 1);
        WritePageAt(s.expected, c.page, p, PageOf(s.srcFb, c.page, p), q);
      }
    } else if e.SourceDone? {
      FreshBits(c, Fresh(c));
    }
  }

  predicate Still(es: seq<Event>) {
    forall i :: 0 <= i < |es| ==> !es[i].GuestWrite? && !es[i].SourceStart?
  }

  lemma {:induction false} StillRun(c: Cfg, s: Sys, es: seq<Event>)
    requires Inv(c, s) && CanRun(c, s, es) && Still(es) && RoundCopied(c, s)
    ensures var r := Run(c, s, es);
            Inv(c, r) && RoundCopied(c, r) && r.round == s.round && r.base == s.base && r.srcFb == s.srcFb
    decreases |es|
  {
    hide Inv, Enabled, Next, RoundCopied;
    if es != [] {
      var s' := Next(c, s, es[0]);
      NextInv(c, s, es[0]);
      NextRoundCopied(c, s, es[0]);
      SameRound(c, s, es[0]);
      StillRun(c, s', es[1..]);
    }
  }

  lemma SameRound(c: Cfg, s: Sys, e: Event)
    requires WellFormed(c, s) && Enabled(c, s, e) && !e.GuestWrite? && !e.SourceStart?
    ensures var s' := Next(c, s, e); s'.round == s.round && s'.base == s.base && s'.srcFb == s.srcFb
  {
  }

  /**
   * One round. Starting a round on a drained link and letting it drain, whatever the schedule, copies
   * exactly the pages set in the exported bitmap and leaves every other target page alone.
   */
  lemma RoundCopiesExactly(c: Cfg, s: Sys, pay: Payload, es: seq<Event>)
    requires Inv(c, s) && Drained(c, s) && Enabled(c, s, SourceStart(pay))
    requires CanRun(c, Next(c, s, SourceStart(pay)), es) && Still(es)
    ensures var r := Run(c, Next(c, s, SourceStart(pay)), es);
            && WellFormed(c, r)
            && (Drained(c, r) ==>
                  && Empty(r.src.Bits(c)) && Empty(r.tgt.side.Settle(c).Bits(c))
                  && forall q :: 0 <= q < c.bits ==>
                       SamePage(c, r.tgt.fb, if FbBitmap in s.nextMask && s.shadow[q] then s.srcFb else s.tgt.fb, q))
  {
    hide Export, Absorb, Decode, InStep, InFlight, OnceOk, MessageOk, EmitSide, EmitBytes;
    var s1 := Next(c, s, SourceStart(pay));
    DrainedTarget(c, s);
    NextInv(c, s, SourceStart(pay));
    NextRoundCopied(c, s, SourceStart(pay));
    StartHistory(c, s, pay);
    StillRun(c, s1, es);
    var r := Run(c, s1, es);
    if Drained(c, r) {
      DrainedTarget(c, r);
    }
  }

  lemma StartHistory(c: Cfg, s: Sys, pay: Payload)
    requires WellFormed(c, s) && Enabled(c, s, SourceStart(pay))
    ensures var s' := Next(c, s, SourceStart(pay));
            s'.base == s.expected && s'.srcFb == s.srcFb
            && s'.round == (if FbBitmap in s.nextMask then s.shadow else NoBits(c.bits))
  {
  }

  // ---- consequences of the invariant on every run ----

  /** Full and empty rings are never confused and thread-side pointers stay page aligned, on both ends. */
  lemma RingsSafe(c: Cfg, s0: Sys, es: seq<Event>)
    requires Init(c, s0) && CanRun(c, s0, es)
    ensures var s := Run(c, s0, es);
            && WellFormed(c, s)
            && s.srcRing.put < c.ring && s.srcRing.get < c.ring && s.srcRing.Fill() <= c.ring - c.page
            && s.tgtRing.put < c.ring && s.tgtRing.get < c.ring && s.tgtRing.Fill() <= c.ring - c.page
            && Mult(s.srcRing.put, c.page) && Mult(s.tgtRing.get, c.page)
  {
    hide Init, Export, TransportOk, MessageOk, RoundOk, OnceOk, DirtyOk;
    InitInv(c, s0);
    RunInv(c, s0, es);
  }

  /** Over a whole session each of the once-only sections travels in at most one message. */
  lemma SectionsOnce(c: Cfg, s0: Sys, es: seq<Event>, i: nat, j: nat, sec: Section)
    requires Init(c, s0) && CanRun(c, s0, es) && sec in ONCE
    requires i < |Run(c, s0, es).exports| && j < |Run(c, s0, es).exports|
    requires sec in Run(c, s0, es).exports[i] && sec in Run(c, s0, es).exports[j]
    ensures i == j
    ensures Run(c, s0, es).nextMask * Run(c, s0, es).copiedMask * ONCE == {}
  {
    hide Init, Export, TransportOk, WellFormed, RoundOk, DirtyOk;
    InitInv(c, s0);
    RunInv(c, s0, es);
  }

  /** When the source thread reports a round done it has put exactly the announced number of bytes. */
  lemma RoundConservesBytes(c: Cfg, s0: Sys, es: seq<Event>)
    requires Init(c, s0) && CanRun(c, s0, es)
    ensures var s := Run(c, s0, es);
            WellFormed(c, s) && (s.src.Exhausted(c) ==> s.sent == RoundLength(c, s.secs, s.pay.shadow))
  {
    hide WellFormed, Init, TransportOk, MessageOk, RoundOk, OnceOk, DirtyOk;
    InitInv(c, s0);
    RunInv(c, s0, es);
    ExhaustedSent(c, Run(c, s0, es));
  }

  lemma ExhaustedSent(c: Cfg, s: Sys)
    requires WellFormed(c, s) && MessageOk(c, s)
    ensures s.src.Exhausted(c) ==> s.sent == RoundLength(c, s.secs, s.pay.shadow)
  {
    hide Export, RoundLength;
    if s.src.Exhausted(c) {
      CountEmpty(s.src.Bits(c));
      assert s.src.Remaining(c) == 0;
    }
  }

  // ---- devices whose query overwrites the shadow bitmap ----

  ghost predicate Lost(c: Cfg, s: Sys, q: nat)
    requires WellFormed(c, s) && q < c.bits
  {
    !Recorded(c, s, q) && !SamePage(c, s.expected, s.srcFb, q)
  }

  /** Whatever the source's framebuffer holds, as long as no page is lost yet, none is lost by the query. */
  ghost predicate KeepsPages(c: Cfg, s: Sys, e: Event)
    requires WellFormed(c, s) && (e.Query? || e.SizeQuery?)
  {
    forall fb: seq<byte> :: |fb| == |s.srcFb| ==> KeepsPagesOf(c, s.(srcFb := fb), e)
  }

  ghost predicate KeepsPagesOf(c: Cfg, s: Sys, e: Event) {
    && WellFormed(c, s) && Enabled(c, s, e) && WellFormed(c, Next(c, s, e))
    && (DirtyOk(c, s) ==> DirtyOk(c, Next(c, s, e)))
  }

  /**
   * A query that overwrites the shadow bitmap keeps the guarantee, for every content of the framebuffer, iff each page the
   * shadow holds is also held by the hardware or by the round under way.
   */
  lemma OverwriteKeepsIff(c: Cfg, s: Sys, e: Event)
    requires WellFormed(c, s) && (e == SizeQuery(false) || e == Query(true, false) || e == Query(false, false))
    ensures KeepsPages(c, s, e) <==> ShadowElsewhere(c, s)
  {
    hide DirtyOk, Export, Absorb, Decode;
    if ShadowElsewhere(c, s) {
      forall fb: seq<byte> | |fb| == |s.srcFb|
        ensures KeepsPagesOf(c, s.(srcFb := fb), e)
      {
        QueryKeeps(c, s.(srcFb := fb), e);
      }
    } else {
      var q := DroppedPage(c, s);
      var fb := OtherPage(c, s, q);
      QueryDrops(c, s.(srcFb := fb), e, q);
    }
  }

  /** Every such content is one the invariant allows: it says nothing about what the guest has written. */
  lemma ContentIsFree(c: Cfg, s: Sys, fb: seq<byte>)
    requires Inv(c, s) && |fb| == |s.srcFb|
    ensures Inv(c, s.(srcFb := fb))
  {
    hide Export, Absorb, Decode, InStep;
    SameInFlight(s, s.(srcFb := fb));
    hide InFlight;
  }

  lemma QueryKeeps(c: Cfg, s: Sys, e: Event)
    requires WellFormed(c, s) && ShadowElsewhere(c, s)
    requires e == SizeQuery(false) || e == Query(true, false) || e == Query(false, false)
    ensures KeepsPagesOf(c, s, e)
  {
    hide Export, Absorb, Decode, SamePage;
    var s' := Next(c, s, e);
    if DirtyOk(c, s) {
      forall q | 0 <= q < c.bits
        ensures Covered(c, s', q)
      {
        assert Covered(c, s, q);
      }
    }
  }

  lemma DroppedPage(c: Cfg, s: Sys) returns (q: nat)
    requires WellFormed(c, s) && !ShadowElsewhere(c, s)
    ensures q < c.bits && s.shadow[q] && q !in s.hw && !s.src.Bits(c)[q]
  {
    q :| 0 <= q < c.bits && s.shadow[q] && q !in s.hw && !s.src.Bits(c)[q];
  }

  /** A framebuffer that is as the target's will be, but for the first byte of page q. */
  lemma OtherPage(c: Cfg, s: Sys, q: nat) returns (fb: seq<byte>)
    requires WellFormed(c, s) && q < c.bits
    ensures |fb| == |s.srcFb| && !SamePage(c, s.expected, fb, q)
    ensures forall p :: 0 <= p < c.bits && p != q ==> SamePage(c, s.expected, fb, p)
  {
    PageInside(c.bits, c.page, q, 1);
    var before := PageOf(s.expected, c.page, q);
    var data := before[0 := if before[0] == 0 then 1 else 0];
    fb := WritePage(s.expected, c.page, q, data);
    assert data[0] != before[0];
    WritePageAt(s.expected, c.page, q, data, q);
    forall p | 0 <= p < c.bits && p != q
      ensures SamePage(c, s.expected, fb, p)
    {
      PageInside(c.bits, c.page, p, 1);
      WritePageAt(s.expected, c.page, q, data, p);
    }
  }

  lemma QueryDrops(c: Cfg, s: Sys, e: Event, q: nat)
    requires WellFormed(c, s) && (e == SizeQuery(false) || e == Query(true, false) || e == Query(false, false))
    requires q < c.bits && s.shadow[q] && q !in s.hw && !s.src.Bits(c)[q]
    requires forall p :: 0 <= p < c.bits && p != q ==> SamePage(c, s.expected, s.srcFb, p)
    requires !SamePage(c, s.expected, s.srcFb, q)
    ensures !KeepsPagesOf(c, s, e)
  {
    hide Export, Absorb, Decode, SamePage;
    var s' := Next(c, s, e);
    assert Recorded(c, s, q);
    assert DirtyOk(c, s);
    assert !Covered(c, s', q);
  }

  // ---- sessions on such a device ----

  /** Between two queries a message is exported, and size is not asked for; `taken` says the shadow has just been exported. */
  predicate Alternates(es: seq<Event>, taken: bool)
    decreases |es|
  {
    es == [] ||
      match es[0]
      case Query(_, _) => taken && Alternates(es[1..], false)
      case SizeQuery(_) => false
      case SourceStart(_) => Alternates(es[1..], true)
      case _ => Alternates(es[1..], taken)
  }

  /** A page in the shadow bitmap is a reason to send the bitmap. */
  predicate ShadowPending(s: Sys) {
    Empty(s.shadow) || FbBitmap in s.nextMask
  }

  lemma NextPending(c: Cfg, s: Sys, e: Event)
    requires WellFormed(c, s) && Enabled(c, s, e) && !e.SizeQuery? && ShadowPending(s)
    ensures ShadowPending(Next(c, s, e))
    ensures e.SourceStart? ==> Empty(Next(c, s, e).shadow)
    ensures !e.SourceStart? && !e.Query? ==> Next(c, s, e).shadow == s.shadow
  {
    hide Export, EmitSide, EmitBytes, Absorb, Count, Side.Exhausted;
    if e.Query? {
      CountEmpty(Next(c, s, e).shadow);
    }
  }

  lemma EmptyKeeps(c: Cfg, s: Sys, e: Event)
    requires WellFormed(c, s) && Empty(s.shadow)
    ensures KeepsShadow(c, s, e)
  {
  }

  /** Then every query finds the shadow bitmap empty, and overwriting it loses nothing. */
  lemma {:induction false} AlternatingKeeps(c: Cfg, s: Sys, es: seq<Event>, taken: bool)
    requires CanRun(c, s, es) && Alternates(es, taken) && ShadowPending(s) && (taken ==> Empty(s.shadow))
    ensures RunKeepsShadow(c, s, es) && ShadowPending(Run(c, s, es))
    decreases |es|
  {
    hide WellFormed, Enabled, Next, ShadowPending;
    if es != [] {
      if taken {
        EmptyKeeps(c, s, es[0]);
      }
      NextPending(c, s, es[0]);
      AlternatingKeeps(c, Next(c, s, es[0]), es[1..], if es[0].Query? then false else es[0].SourceStart? || taken);
    }
  }

  /** On every device, one that overwrites the shadow bitmap included, a session in which queries and exports alternate converges. */
  lemma AlternatingConverges(c: Cfg, s0: Sys, es: seq<Event>)
    requires Init(c, s0) && CanRun(c, s0, es) && Alternates(es, true)
    ensures var s := Run(c, s0, es);
            && WellFormed(c, s)
            && (Drained(c, s) ==>
                  && s.tgt.ok
                  && (forall q :: 0 <= q < c.bits ==> q in s.hw || s.shadow[q] || SamePage(c, s.tgt.fb, s.srcFb, q))
                  && (s.hw == {} && Empty(s.shadow) ==> s.tgt.fb == s.srcFb))
  {
    hide WellFormed, Drained, Run, CanRun, RunKeepsShadow, Alternates;
    AlternatingKeeps(c, s0, es, true);
    Converges(c, s0, es);
  }

  /** A lost page stays lost until the guest writes it again. */
  lemma LostStaysLost(c: Cfg, s: Sys, e: Event, q: nat)
    requires Inv(c, s) && Enabled(c, s, e) && WellFormed(c, Next(c, s, e)) && q < c.bits
    requires Lost(c, s, q) && !(e.GuestWrite? && e.p == q)
    ensures Lost(c, Next(c, s, e), q)
  {
    hide Export, Absorb, Decode, InStep, InFlight, OnceOk, MessageOk, RoundOk;
    var s' := Next(c, s, e);
    PageInside(c.bits, c.page, q, 1);
    match e
    case GuestWrite(p, data) =>
      PageInside(c.bits, c.page, p, 1);
      WritePageAt(s.srcFb, c.page, p, data, q);
    case SourceStart(pay) =>
      StepInside(c, 0);
      ExportBits(c, s.nextMask, pay, s.seqNo);
    case SourcePage =>
      if s.src.copied == |s.src.msg| {
        var p := NextBit(s.src.Bits(c), 0);
        PageInside(c.bits, c.page, p, 1);
        WritePageAt(s.expected, c.page, p, PageOf(s.srcFb, c.page, p), q);
      }
    case SourceDone =>
      FreshBits(c, Fresh(c));
    case _ =>
  }

  /**
   * The guarantee fails on devices that overwrite: two queries before the first export lose every page
   * that differed at the start, in every session.
   */
  lemma TwoOverwritingQueriesLose(c: Cfg, s0: Sys, q: nat)
    requires Init(c, s0) && q < c.bits && !SamePage(c, s0.tgt.fb, s0.srcFb, q)
    ensures CanRun(c, s0, [Query(false, false), Query(false, false)])
    ensures Lost(c, Run(c, s0, [Query(false, false), Query(false, false)]), q)
  {
    var e := Query(false, false);
    InitInv(c, s0);
    NextInv(c, s0, e);
    var s1 := Next(c, s0, e);
    NextInv(c, s1, e);
    var s2 := Next(c, s1, e);
    FreshBits(c, s0.src);
    RunTwo(c, s0, e, e);
    assert s2.src == s0.src && s2.hw == {} && !s2.shadow[q] by { hide Inv, Export, Init; }
  }

  lemma RunTwo(c: Cfg, s: Sys, a: Event, b: Event)
    requires WellFormed(c, s) && Enabled(c, s, a)
    requires WellFormed(c, Next(c, s, a)) && Enabled(c, Next(c, s, a), b)
    requires WellFormed(c, Next(c, Next(c, s, a), b))
    ensures CanRun(c, s, [a, b]) && Run(c, s, [a, b]) == Next(c, Next(c, s, a), b)
  {
    hide WellFormed, Enabled, Next;
    var s1 := Next(c, s, a);
    var s2 := Next(c, s1, b);
    assert [a, b][1..] == [b];
    assert [b][1..] == [];
    assert CanRun(c, s2, []) && Run(c, s2, []) == s2;
    assert CanRun(c, s1, [b]) && Run(c, s1, [b]) == s2;
  }
}
