/**
 * A migration never gets stuck: whatever was done before, and in whatever pieces, the threads and user space can
 * always bring everything under way to the target, and one more round makes the framebuffers equal.
 */
module MigProgress {
  import opened Arith
  import opened Bytes
  import opened Bitmap
  import opened MigPages
  import opened MigMessage
  import opened MigRing
  import opened MigTransfer
  import opened MigSystem
  import opened MigRefine
  import opened MigSections

  // ---- sessions exist ----

  function AllPages(n: nat): (r: set<nat>)
    ensures forall q: nat :: q in r <==> q < n
  {
    if n == 0 then {} else AllPages(n - 1) + {n - 1}
  }

  /** Any two framebuffers can be the start of a session. */
  lemma SessionExists(c: Cfg, srcFb: seq<byte>, tgtFb: seq<byte>) returns (s: Sys)
    requires c.Valid() && |srcFb| == |tgtFb| == c.bits * c.page
    ensures Init(c, s) && s.srcFb == srcFb && s.tgt.fb == tgtFb
  {
    var ring := Ring(seq(c.ring, _ => 0), 0, 0);
    var pay := Payload(Zeros(c.ctxLen), Zeros(c.fwS), Zeros(c.fwD), NoBits(c.bits));
    s := Sys(srcFb, AllPages(c.bits), NoBits(c.bits), Fresh(c), {}, {}, false, 0, ring, [],
             ring, Target(Fresh(c), {}, tgtFb, true), tgtFb, tgtFb, NoBits(c.bits), {}, pay, 0, []);
  }

  // ---- the source thread is awake in the middle of a round ----

  predicate Awake(s: Sys) {
    s.src.copied > 0 ==> s.running
  }

  lemma NextAwake(c: Cfg, s: Sys, e: Event)
    requires WellFormed(c, s) && Enabled(c, s, e) && Awake(s)
    ensures Awake(Next(c, s, e))
  {
    hide Export, EmitSide, EmitBytes, Absorb, QueryMask, QueryShadow, Side.Exhausted;
  }

  lemma {:induction false} RunAwake(c: Cfg, s: Sys, es: seq<Event>)
    requires CanRun(c, s, es) && Awake(s)
    ensures Awake(Run(c, s, es))
    decreases |es|
  {
    hide WellFormed, Enabled, Next, Awake;
    if es != [] {
      NextAwake(c, s, es[0]);
      RunAwake(c, Next(c, s, es[0]), es[1..]);
    }
  }

  // ---- one more step is always possible until everything has arrived ----

  predicate Moves(e: Event) {
    e.SourcePage? || e.UserRead? || e.UserWrite? || e.TargetPage? || e.TargetDone?
  }

  /** Pages of the round the source has not sent. */
  ghost function Left(c: Cfg, s: Sys): nat
    requires WellFormed(c, s)
  {
    if s.src.copied > 0 then s.src.Remaining(c) else 0
  }

  ghost function Waiting(c: Cfg, s: Sys): nat
    requires WellFormed(c, s)
  {
    if s.tgt.side.Exhausted(c) then 1 else 0
  }

  /** r is closer to the end than s: bytes only ever move towards the target. */
  ghost predicate Closer(c: Cfg, s: Sys, r: Sys)
    requires WellFormed(c, s) && WellFormed(c, r)
  {
    || Left(c, r) < Left(c, s)
    || (Left(c, r) == Left(c, s) && r.srcRing.Fill() < s.srcRing.Fill())
    || (Left(c, r) == Left(c, s) && r.srcRing.Fill() == s.srcRing.Fill() && |r.net| < |s.net|)
    || (Left(c, r) == Left(c, s) && r.srcRing.Fill() == s.srcRing.Fill() && r.net == s.net
        && r.tgtRing.Fill() < s.tgtRing.Fill())
    || (Left(c, r) == Left(c, s) && r.srcRing.Fill() == s.srcRing.Fill() && r.net == s.net
        && r.tgtRing == s.tgtRing && Waiting(c, r) < Waiting(c, s))
  }

  /** What draining leaves alone. */
  predicate Kept(s: Sys, r: Sys) {
    r.srcFb == s.srcFb && r.hw == s.hw && r.shadow == s.shadow && r.nextMask == s.nextMask && r.copiedMask == s.copiedMask
  }

  ghost predicate Advances(c: Cfg, s: Sys, e: Event)
    requires WellFormed(c, s)
  {
    Moves(e) && Enabled(c, s, e) && var r := Next(c, s, e); Inv(c, r) && Kept(s, r) && Closer(c, s, r)
  }

  lemma ReadStep(c: Cfg, s: Sys, n: nat)
    requires Inv(c, s) && 0 < n <= s.srcRing.Fill()
    ensures Advances(c, s, UserRead(n))
  {
    hide Export, Absorb, Decode, InFlight, TransportOk, MessageOk, RoundOk, OnceOk, Side.Remaining;
    SpaceFormulas(s.srcRing, c.page);
    NextInv(c, s, UserRead(n));
    TakeContents(s.srcRing, n, c.page);
    assert |s.srcRing.Contents()| == n + |s.srcRing.Take(n).Contents()|;
  }

  lemma WriteStep(c: Cfg, s: Sys, n: nat)
    requires Inv(c, s) && 0 < n <= |s.net| && n <= |s.tgtRing.data| - c.page - s.tgtRing.Fill()
    ensures Advances(c, s, UserWrite(n))
  {
    hide Export, Absorb, Decode, InFlight, TransportOk, MessageOk, RoundOk, OnceOk, Side.Remaining;
    SpaceFormulas(s.tgtRing, c.page);
    NextInv(c, s, UserWrite(n));
  }

  lemma TakeStep(c: Cfg, s: Sys)
    requires Inv(c, s) && s.tgtRing.Fill() >= c.page && !s.tgt.side.Exhausted(c)
    ensures Advances(c, s, TargetPage)
  {
    hide Export, Absorb, Decode, InFlight, TransportOk, MessageOk, RoundOk, OnceOk, Side.Remaining, Side.Exhausted;
    NeverRejected(c, s);
    TargetStep(c, s);
    NextInv(c, s, TargetPage);
    TakeContents(s.tgtRing, c.page, c.page);
  }

  lemma RestartStep(c: Cfg, s: Sys)
    requires Inv(c, s) && s.tgt.side.Exhausted(c)
    ensures Advances(c, s, TargetDone)
  {
    hide Export, Absorb, Decode, InFlight, TransportOk, MessageOk, RoundOk, OnceOk, Side.Remaining;
    TargetDoneStep(c, s);
  }

  lemma SendStep(c: Cfg, s: Sys)
    requires Inv(c, s) && s.running && Room(c, s.srcRing, c.page) && s.src.copied > 0 && !s.src.Exhausted(c)
    ensures Advances(c, s, SourcePage)
  {
    hide Export, Absorb, Decode, InFlight, TransportOk, MessageOk, RoundOk, OnceOk, Side.Remaining, EmitSide, EmitBytes;
    PageStep(c, s);
    RemainingStep(c, s.src, s.srcFb);
  }

  /** A step that moves something, in whatever piece the schedule chose, brings the system closer to being drained. */
  lemma EveryMoveAdvances(c: Cfg, s: Sys, e: Event)
    requires Inv(c, s) && Enabled(c, s, e) && Moves(e)
    requires (e.UserRead? ==> e.n > 0) && (e.UserWrite? ==> e.n > 0)
    ensures Advances(c, s, e)
  {
    hide TransportOk, MessageOk, RoundOk, OnceOk, Advances, Next, Side.Remaining, Side.Exhausted, Absorb, Decode;
    SpaceFormulas(s.srcRing, c.page);
    SpaceFormulas(s.tgtRing, c.page);
    match e
    case UserRead(n) => ReadStep(c, s, n);
    case UserWrite(n) => WriteStep(c, s, n);
    case TargetPage => TakeStep(c, s);
    case TargetDone => RestartStep(c, s);
    case _ => SendStep(c, s);
  }

  /** In every reachable state that is not drained some thread, or user space, can move bytes towards the target. */
  lemma NeverStuck(c: Cfg, s: Sys) returns (e: Event)
    requires Inv(c, s) && Awake(s) && !Drained(c, s)
    ensures Advances(c, s, e)
  {
    hide TransportOk, MessageOk, RoundOk, OnceOk, Advances, Side.Remaining, Side.Exhausted, Absorb, Decode;
    if s.srcRing.Fill() > 0 {
      e := UserRead(s.srcRing.Fill());
      ReadStep(c, s, s.srcRing.Fill());
    } else if s.tgtRing.Fill() >= c.page {
      if s.tgt.side.Exhausted(c) {
        e := TargetDone;
        RestartStep(c, s);
      } else {
        e := TargetPage;
        TakeStep(c, s);
      }
    } else if s.net != [] {
      var room := |s.tgtRing.data| - c.page - s.tgtRing.Fill();
      e := UserWrite(if |s.net| < room then |s.net| else room);
      WriteStep(c, s, e.n);
    } else {
      NothingUnderWay(c, s);
      e := SourcePage;
      SendStep(c, s);
    }
  }

  /** Less than a page under way is nothing: bytes were sent in pages. */
  lemma NothingUnderWay(c: Cfg, s: Sys)
    requires Inv(c, s) && s.srcRing.Fill() == 0 && s.net == [] && s.tgtRing.Fill() < c.page
    ensures InFlight(s) == []
  {
    hide MessageOk, RoundOk, OnceOk, Decode, InStep;
    assert Mult(|InFlight(s)|, c.page);
  }

  /** From any reachable state the threads and user space can bring everything to the target; no guest step is needed. */
  lemma {:induction false} CanDrain(c: Cfg, s: Sys) returns (es: seq<Event>)
    requires Inv(c, s) && Awake(s)
    ensures CanRun(c, s, es) && (forall i :: 0 <= i < |es| ==> Moves(es[i])) && RunKeepsShadow(c, s, es)
    ensures var r := Run(c, s, es); Inv(c, r) && Awake(r) && Kept(s, r) && Drained(c, r)
    decreases Left(c, s), s.srcRing.Fill(), |s.net|, s.tgtRing.Fill(), Waiting(c, s)
  {
    hide TransportOk, MessageOk, RoundOk, OnceOk, Side.Remaining, Side.Exhausted, Absorb, Decode, Next, Enabled, Drained, Awake, Left, Waiting;
    if Drained(c, s) {
      es := [];
    } else {
      var e := NeverStuck(c, s);
      var r := Next(c, s, e);
      NextAwake(c, s, e);
      var rest := CanDrain(c, r);
      es := [e] + rest;
      assert es[0] == e && es[1..] == rest;
    }
  }

  // ---- and one more round is enough ----

  /** A run of the threads and user space, and of queries of one kind of device. */
  predicate Quiet(es: seq<Event>, merges: bool) {
    forall i :: 0 <= i < |es| ==> !es[i].GuestWrite? && !es[i].SizeQuery? && (es[i].Query? ==> es[i].merges == merges)
  }

  /** The source between rounds, nothing under way. */
  ghost predicate Idle(c: Cfg, s: Sys) {
    Inv(c, s) && Awake(s) && Drained(c, s) && s.src.copied == 0
  }

  /** es leads from s, without losing a page, to an idle state with these hardware bits. */
  ghost predicate Leads(c: Cfg, s: Sys, es: seq<Event>, merges: bool, hw: set<nat>) {
    && CanRun(c, s, es) && Quiet(es, merges) && RunKeepsShadow(c, s, es)
    && Idle(c, Run(c, s, es)) && Run(c, s, es).srcFb == s.srcFb && Run(c, s, es).hw == hw
  }

  lemma KeepsOne(c: Cfg, s: Sys, e: Event)
    requires CanRun(c, s, [e]) && KeepsShadow(c, s, e)
    ensures RunKeepsShadow(c, s, [e])
  {
    hide WellFormed, Enabled, Next, KeepsShadow;
    assert [e][1..] == [];
  }

  /** Runs and what they keep can be put behind each other. */
  lemma {:induction false} Continue(c: Cfg, s: Sys, a: seq<Event>, b: seq<Event>)
    requires CanRun(c, s, a) && CanRun(c, Run(c, s, a), b)
    requires RunKeepsShadow(c, s, a) && RunKeepsShadow(c, Run(c, s, a), b)
    ensures CanRun(c, s, a + b) && Run(c, s, a + b) == Run(c, Run(c, s, a), b) && RunKeepsShadow(c, s, a + b)
    decreases |a|
  {
    hide WellFormed, Enabled, Next, KeepsShadow;
    RunAppend(c, s, a, b);
    if a == [] {
      assert a + b == b;
    } else {
      assert (a + b)[0] == a[0] && (a + b)[1..] == a[1..] + b;
      Continue(c, Next(c, s, a[0]), a[1..], b);
    }
  }

  lemma StayPut(c: Cfg, s: Sys)
    requires WellFormed(c, s)
    ensures CanRun(c, s, []) && Run(c, s, []) == s && RunKeepsShadow(c, s, [])
  {
    hide WellFormed;
  }

  lemma IdleFacts(c: Cfg, s: Sys)
    requires Idle(c, s)
    ensures WellFormed(c, s) && Inv(c, s) && Drained(c, s) && |s.shadow| == c.bits && Awake(s)
  {
    hide TransportOk, MessageOk, RoundOk, OnceOk, Drained;
  }

  lemma CanIdle(c: Cfg, s: Sys, merges: bool) returns (es: seq<Event>)
    requires Inv(c, s) && Awake(s)
    ensures Leads(c, s, es, merges, s.hw)
    ensures var r := Run(c, s, es); r.shadow == s.shadow && r.nextMask == s.nextMask && r.copiedMask == s.copiedMask
  {
    hide Inv, Side.Remaining, Absorb, Decode, Next, Enabled, Drained, Awake, RunKeepsShadow, CanRun, Run;
    es := CanDrain(c, s);
    var r := Run(c, s, es);
    if r.src.copied > 0 {
      EndRound(c, r);
      Continue(c, s, es, [SourceDone]);
      es := es + [SourceDone];
    }
  }

  lemma EndRound(c: Cfg, s: Sys)
    requires Inv(c, s) && Awake(s) && Drained(c, s) && s.src.copied > 0
    ensures CanRun(c, s, [SourceDone]) && RunKeepsShadow(c, s, [SourceDone])
    ensures var r := Run(c, s, [SourceDone]);
            && Inv(c, r) && Awake(r) && Drained(c, r) && r.src.copied == 0
            && r.srcFb == s.srcFb && r.hw == s.hw && r.shadow == s.shadow && r.nextMask == s.nextMask && r.copiedMask == s.copiedMask
  {
    hide TransportOk, MessageOk, RoundOk, OnceOk, Side.Remaining, Side.Exhausted, Absorb, Decode, Export;
    DoneStep(c, s);
    RunOne(c, s, SourceDone);
  }

  /** What is pending is sent: the source is woken if it sleeps, exports, and the round is drained. */
  lemma CanFlush(c: Cfg, s: Sys, merges: bool) returns (es: seq<Event>)
    requires Idle(c, s) && ShadowPending(s)
    ensures Leads(c, s, es, merges, s.hw) && Flushed(s, Run(c, s, es))
  {
    hide Inv, Side.Remaining, Absorb, Decode, Next, Enabled, Drained, Awake, RunKeepsShadow, CanRun, Run, ShadowPending, WellFormed;
    IdleFacts(c, s);
    StayPut(c, s);
    es := [];
    if s.nextMask != {} {
      var start := CanStart(c, s);
      var r := Run(c, s, start);
      var rest := CanIdle(c, r, merges);
      Continue(c, s, start, rest);
      assert Quiet(start, merges);
      es := start + rest;
    } else {
      NothingPending(s);
    }
    assert Quiet(es, merges) && Idle(c, Run(c, s, es));
  }

  /** Nothing is pending any more: it all counts as copied. */
  predicate Flushed(s: Sys, r: Sys) {
    Empty(r.shadow) && r.nextMask == {} && r.copiedMask == s.copiedMask + s.nextMask
  }

  lemma NothingPending(s: Sys)
    requires ShadowPending(s) && s.nextMask == {}
    ensures Flushed(s, s)
  {
  }

  lemma CanStart(c: Cfg, s: Sys) returns (es: seq<Event>)
    requires Idle(c, s) && ShadowPending(s) && s.nextMask != {}
    ensures CanRun(c, s, es) && (forall m: bool :: Quiet(es, m)) && RunKeepsShadow(c, s, es)
    ensures var r := Run(c, s, es); Inv(c, r) && Awake(r) && r.hw == s.hw && Flushed(s, r) && r.srcFb == s.srcFb
  {
    hide TransportOk, MessageOk, RoundOk, OnceOk, Side.Remaining, Side.Exhausted, Absorb, Decode, Export, RunKeepsShadow, CanRun, Run, Next, Enabled, WellFormed;
    es := [];
    var r := s;
    IdleFacts(c, s);
    StayPut(c, s);
    if !s.running {
      WakeNext(c, s);
      RunOne(c, s, Wake);
      KeepsOne(c, s, Wake);
      NextInv(c, s, Wake);
      es := [Wake];
      r := Next(c, s, Wake);
    }
    var pay := Payload(Zeros(c.ctxLen), Zeros(c.fwS), Zeros(c.fwD), r.shadow);
    StartNext(c, r, pay);
    NextInv(c, r, SourceStart(pay));
    NextAwake(c, r, SourceStart(pay));
    RunOne(c, r, SourceStart(pay));
    KeepsOne(c, r, SourceStart(pay));
    Continue(c, s, es, [SourceStart(pay)]);
    es := es + [SourceStart(pay)];
  }

  lemma WakeNext(c: Cfg, s: Sys)
    requires Idle(c, s) && ShadowPending(s) && s.nextMask != {}
    ensures WellFormed(c, s) && Enabled(c, s, Wake)
    ensures var r := Next(c, s, Wake); r == s.(running := true) && WellFormed(c, r) && Idle(c, r) && ShadowPending(r)
  {
    hide TransportOk, MessageOk, RoundOk, OnceOk, Side.Remaining, Side.Exhausted;
    NothingInRing(c, s);
    NextInv(c, s, Wake);
    SameInFlight(s, s.(running := true));
  }

  lemma NothingInRing(c: Cfg, s: Sys)
    requires WellFormed(c, s) && Drained(c, s)
    ensures s.srcRing.Fill() == 0
  {
    hide Side.Remaining, Side.Exhausted;
    assert |InFlight(s)| == |s.tgtRing.Contents()| + |s.net| + |s.srcRing.Contents()|;
  }

  lemma StartNext(c: Cfg, s: Sys, pay: Payload)
    requires Idle(c, s) && ShadowPending(s) && s.nextMask != {} && s.running && pay.Fits(c) && pay.shadow == s.shadow
    ensures WellFormed(c, s) && Enabled(c, s, SourceStart(pay))
    ensures var r := Next(c, s, SourceStart(pay)); r.hw == s.hw && Flushed(s, r) && r.srcFb == s.srcFb
  {
    hide TransportOk, MessageOk, RoundOk, OnceOk, Side.Remaining, Side.Exhausted, Export, InFlight;
    NothingInRing(c, s);
    SpaceFormulas(s.srcRing, c.page);
  }

  /** The hardware's bits are moved to the shadow bitmap, which a device that overwrites it must find empty. */
  lemma QueryAll(c: Cfg, s: Sys, merges: bool)
    requires Idle(c, s) && (merges || Empty(s.shadow))
    ensures Leads(c, s, [Query(true, merges)], merges, {})
    ensures var r := Run(c, s, [Query(true, merges)]); ShadowPending(r) && ONCE <= r.nextMask + r.copiedMask
  {
    hide TransportOk, MessageOk, RoundOk, OnceOk, Side.Exhausted, QueryShadow, Count, InFlight, RunKeepsShadow, CanRun, Run, WellFormed, Next, Enabled;
    IdleFacts(c, s);
    QueryNext(c, s, merges);
    QueryPends(c, s, true, merges);
    NextInv(c, s, Query(true, merges));
    RunOne(c, s, Query(true, merges));
    KeepsOne(c, s, Query(true, merges));
  }

  lemma QueryNext(c: Cfg, s: Sys, merges: bool)
    requires WellFormed(c, s) && Drained(c, s) && s.src.copied == 0 && Awake(s) && (merges || Empty(s.shadow))
    ensures Enabled(c, s, Query(true, merges)) && KeepsShadow(c, s, Query(true, merges))
    ensures var r := Next(c, s, Query(true, merges));
            && WellFormed(c, r) && Drained(c, r) && Awake(r) && r.src.copied == 0 && r.hw == {} && r.srcFb == s.srcFb && ShadowPending(r)
  {
    hide Count;
    var r := Next(c, s, Query(true, merges));
    SameInFlight(s, r);
    CountEmpty(r.shadow);
  }

  lemma Chain(c: Cfg, s: Sys, a: seq<Event>, b: seq<Event>, merges: bool, h1: set<nat>, h2: set<nat>)
    requires Leads(c, s, a, merges, h1) && Leads(c, Run(c, s, a), b, merges, h2)
    ensures Leads(c, s, a + b, merges, h2) && Run(c, s, a + b) == Run(c, Run(c, s, a), b)
  {
    hide Idle, CanRun, Run, RunKeepsShadow;
    Continue(c, s, a, b);
  }

  lemma SamePending(s: Sys, r: Sys)
    requires ShadowPending(s) && r.shadow == s.shadow && r.nextMask == s.nextMask
    ensures ShadowPending(r)
  {
  }

  /**
   * From any reachable state, if the guest stops writing, the framebuffers can be made equal, on either kind of device,
   * with the context, the static and the dynamic data taken by the target.
   */
  lemma CanFinish(c: Cfg, s: Sys, merges: bool) returns (es: seq<Event>)
    requires Inv(c, s) && DirtyOk(c, s) && Awake(s) && CopiedOk(s) && (merges || ShadowPending(s))
    ensures CanRun(c, s, es) && Quiet(es, merges)
    ensures var r := Run(c, s, es); r.srcFb == s.srcFb && Complete(r)
  {
    hide TransportOk, MessageOk, RoundOk, OnceOk, WellFormed, Drained, Awake, CanRun, Run, RunKeepsShadow, DirtyOk, ShadowPending, Idle, CopiedOk, SentOnce;
    es := CanIdle(c, s, merges);
    if !merges {
      SamePending(s, Run(c, s, es));
      var first := CanFlush(c, Run(c, s, es), merges);
      Chain(c, s, es, first, merges, s.hw, s.hw);
      es := es + first;
    }
    QueryAll(c, Run(c, s, es), merges);
    Chain(c, s, es, [Query(true, merges)], merges, s.hw, {});
    es := es + [Query(true, merges)];
    var flush := CanFlush(c, Run(c, s, es), merges);
    Chain(c, s, es, flush, merges, {}, {});
    es := es + flush;
    var r := Run(c, s, es);
    IdleFacts(c, r);
    RunInv(c, s, es);
    DrainedPages(c, r);
    RunCopied(c, s, es);
    TakenIsSent(c, r);
  }

  /** The target holds the framebuffer and has taken every once-only section, each of which was in exactly one message. */
  ghost predicate Complete(s: Sys) {
    s.tgt.ok && s.tgt.fb == s.srcFb && forall sec :: sec in {Ctx, Static, Dynamic} ==> sec in s.tgt.mask && SentOnce(s.exports, sec)
  }

  /**
   * After any run at all, thread and user steps in any pieces included, the migration can be completed: some run in
   * which the guest writes nothing ends with nothing rejected, the target's framebuffer equal to the source's, and the
   * context, the static and the dynamic data at the target. On a device whose queries overwrite the shadow bitmap it can
   * where queries and exports have alternated, and the completing run uses such queries too.
   */
  lemma MigrationCompletes(c: Cfg, s0: Sys, es: seq<Event>, merges: bool) returns (more: seq<Event>)
    requires Init(c, s0) && CanRun(c, s0, es) && RunKeepsShadow(c, s0, es) && (merges || Alternates(es, true))
    ensures CanRun(c, s0, es + more) && Quiet(more, merges)
    ensures var s, r := Run(c, s0, es), Run(c, s0, es + more); r.srcFb == s.srcFb && Complete(r)
  {
    hide TransportOk, MessageOk, RoundOk, OnceOk, WellFormed, Awake, CanRun, Run, RunKeepsShadow, DirtyOk, ShadowPending, CopiedOk, Complete;
    InitInv(c, s0);
    RunInv(c, s0, es);
    InitAwake(c, s0);
    RunAwake(c, s0, es);
    NothingCopied(s0);
    RunCopied(c, s0, es);
    if !merges {
      NonePending(s0);
      AlternatingKeeps(c, s0, es, true);
    }
    more := CanFinish(c, Run(c, s0, es), merges);
    RunAppend(c, s0, es, more);
  }

  lemma NothingCopied(s: Sys)
    requires s.copiedMask == {} && s.exports == []
    ensures CopiedOk(s)
  {
  }

  lemma NonePending(s: Sys)
    requires Empty(s.shadow)
    ensures ShadowPending(s)
  {
  }

  lemma InitAwake(c: Cfg, s: Sys)
    requires Init(c, s)
    ensures Awake(s)
  {
    hide WellFormed;
  }
}
