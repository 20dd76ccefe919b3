/** Which parts of the state a migration carries, and when: what a query asks for, what is sent, and what never is. */
module MigSections {
  import opened Arith
  import opened Bytes
  import opened Bitmap
  import opened MigPages
  import opened MigMessage
  import opened MigRing
  import opened MigTransfer
  import opened MigSystem

  // ---- what a query asks for ----

  /**
   * After a query the context and the static data, and in the last phase the dynamic data, are pending unless they were
   * copied; the bitmap is pending if some page is dirty; and nothing else is asked for.
   */
  lemma QueryPends(c: Cfg, s: Sys, dynamic: bool, merges: bool)
    requires WellFormed(c, s)
    ensures var r := Next(c, s, Query(dynamic, merges));
            && r.copiedMask == s.copiedMask && s.nextMask <= r.nextMask
            && (forall sec :: sec in {Ctx, Static} || (dynamic && sec == Dynamic) ==> sec in r.nextMask + r.copiedMask)
            && (forall sec :: sec in r.nextMask && sec !in s.nextMask ==>
                  && (sec in {Ctx, Static, FbBitmap} || (dynamic && sec == Dynamic))
                  && (sec in ONCE ==> sec !in s.copiedMask))
            && (FbBitmap in r.nextMask <==> FbBitmap in s.nextMask || exists q :: 0 <= q < c.bits && r.shadow[q])
  {
    hide Count;
    CountEmpty(Next(c, s, Query(dynamic, merges)).shadow);
  }

  /** Every query moves what the hardware reports to the shadow bitmap; a size query asks for nothing. */
  lemma QueryGathers(c: Cfg, s: Sys, e: Event)
    requires WellFormed(c, s) && (e.Query? || e.SizeQuery?)
    ensures var r := Next(c, s, e);
            && r.hw == {} && (forall q :: 0 <= q < c.bits && q in s.hw ==> r.shadow[q])
            && (e.merges ==> forall q :: 0 <= q < c.bits && s.shadow[q] ==> r.shadow[q])
            && (forall q :: 0 <= q < c.bits && r.shadow[q] ==> q in s.hw || s.shadow[q])
            && (e.SizeQuery? ==> r.nextMask == s.nextMask)
  {
    hide QueryMask;
  }

  /** A run of the precopy phase: no query asks for the dynamic data. */
  predicate Precopy(es: seq<Event>) {
    forall i :: 0 <= i < |es| ==> es[i].Query? ==> !es[i].dynamic
  }

  ghost predicate NoDynamic(s: Sys) {
    Dynamic !in s.nextMask && Dynamic !in s.copiedMask && forall i :: 0 <= i < |s.exports| ==> Dynamic !in s.exports[i]
  }

  lemma NextNoDynamic(c: Cfg, s: Sys, e: Event)
    requires WellFormed(c, s) && Enabled(c, s, e) && NoDynamic(s) && (e.Query? ==> !e.dynamic)
    ensures NoDynamic(Next(c, s, e))
  {
    hide Export, EmitSide, EmitBytes, Absorb, QueryMask, QueryShadow, Side.Exhausted;
    if e.Query? {
      QueryPends(c, s, e.dynamic, e.merges);
    }
  }

  lemma {:induction false} RunNoDynamic(c: Cfg, s: Sys, es: seq<Event>)
    requires CanRun(c, s, es) && Precopy(es) && NoDynamic(s)
    ensures NoDynamic(Run(c, s, es))
    decreases |es|
  {
    hide WellFormed, Enabled, Next, NoDynamic;
    if es != [] {
      NextNoDynamic(c, s, es[0]);
      RunNoDynamic(c, Next(c, s, es[0]), es[1..]);
    }
  }

  /** While the guest may still run the device's dynamic data is neither asked for nor in any message. */
  lemma PrecopyNoDynamic(c: Cfg, s0: Sys, es: seq<Event>)
    requires Init(c, s0) && CanRun(c, s0, es) && Precopy(es)
    ensures NoDynamic(Run(c, s0, es))
  {
    hide WellFormed, Run, CanRun;
    RunNoDynamic(c, s0, es);
  }

  // ---- what is sent ----

  /** What counts as copied is what some message carried. */
  ghost predicate CopiedOk(s: Sys) {
    forall sec :: sec in s.copiedMask <==> exists i :: 0 <= i < |s.exports| && sec in s.exports[i]
  }

  lemma NextCopied(c: Cfg, s: Sys, e: Event)
    requires WellFormed(c, s) && Enabled(c, s, e) && CopiedOk(s)
    ensures CopiedOk(Next(c, s, e))
  {
    hide Export, EmitSide, EmitBytes, Absorb, QueryMask, QueryShadow, Side.Exhausted;
    if e.SourceStart? {
      var r := Next(c, s, e);
      assert r.exports == s.exports + [s.nextMask];
      forall sec
        ensures sec in r.copiedMask <==> exists i :: 0 <= i < |r.exports| && sec in r.exports[i]
      {
        if i :| 0 <= i < |s.exports| && sec in s.exports[i] {
          assert sec in r.exports[i];
        }
        if sec in s.nextMask {
          assert sec in r.exports[|s.exports|];
        }
      }
    }
  }

  lemma {:induction false} RunCopied(c: Cfg, s: Sys, es: seq<Event>)
    requires CanRun(c, s, es) && CopiedOk(s)
    ensures CopiedOk(Run(c, s, es))
    decreases |es|
  {
    hide WellFormed, Enabled, Next, CopiedOk;
    if es != [] {
      NextCopied(c, s, es[0]);
      RunCopied(c, Next(c, s, es[0]), es[1..]);
    }
  }

  /** The section was in one message and in no other. */
  ghost predicate SentOnce(exports: seq<set<Section>>, sec: Section) {
    exists i :: 0 <= i < |exports| && sec in exports[i] && forall j :: 0 <= j < |exports| && j != i ==> sec !in exports[j]
  }

  /** With nothing under way the target has taken exactly the once-only sections that were sent, each sent once. */
  lemma TakenIsSent(c: Cfg, s: Sys)
    requires Inv(c, s) && CopiedOk(s) && Drained(c, s)
    ensures s.tgt.mask == s.copiedMask * ONCE
    ensures forall sec :: sec in s.tgt.mask ==> SentOnce(s.exports, sec)
  {
    hide Export, Absorb, InStep, InFlight, RoundOk;
    assert Decode(c, s.tgt, []) == s.tgt;
    assert Underway(s) == {};
    forall sec | sec in s.tgt.mask
      ensures SentOnce(s.exports, sec)
    {
      var i :| 0 <= i < |s.exports| && sec in s.exports[i];
      assert OnceOk(s);
    }
  }

  // ---- the numbers of the messages ----

  lemma NextNumber(c: Cfg, s: Sys, e: Event, first: nat)
    requires WellFormed(c, s) && Enabled(c, s, e) && s.seqNo == (first + |s.exports|) % TWO64
    ensures Next(c, s, e).seqNo == (first + |Next(c, s, e).exports|) % TWO64
  {
    hide *;
    NumberStep(c, s, e);
    PlusOne(first + |s.exports|);
  }

  lemma NumberStep(c: Cfg, s: Sys, e: Event)
    requires WellFormed(c, s) && Enabled(c, s, e)
    ensures var r := Next(c, s, e);
            if e.SourceStart? then r.seqNo == (s.seqNo + 1) % TWO64 && |r.exports| == |s.exports| + 1
            else r.seqNo == s.seqNo && r.exports == s.exports
  {
    hide Export, EmitSide, EmitBytes, Absorb, QueryMask, QueryShadow, Side.Exhausted;
  }

  lemma PlusOne(a: nat)
    ensures (a % TWO64 + 1) % TWO64 == (a + 1) % TWO64
  {
  }

  lemma {:induction false} RunNumber(c: Cfg, s: Sys, es: seq<Event>, first: nat)
    requires CanRun(c, s, es) && s.seqNo == (first + |s.exports|) % TWO64
    ensures Run(c, s, es).seqNo == (first + |Run(c, s, es).exports|) % TWO64
    decreases |es|
  {
    hide WellFormed, Enabled, Next;
    if es != [] {
      NextNumber(c, s, es[0], first);
      RunNumber(c, Next(c, s, es[0]), es[1..], first);
    }
  }

  /** After n messages the next one is exported with the n-th number behind the first, in 64 bits. */
  lemma MessagesNumbered(c: Cfg, s0: Sys, es: seq<Event>, pay: Payload)
    requires Init(c, s0) && CanRun(c, s0, es) && WellFormed(c, Run(c, s0, es)) && Enabled(c, Run(c, s0, es), SourceStart(pay))
    ensures var s := Run(c, s0, es);
            var msg := Next(c, s, SourceStart(pay)).src.msg;
            |msg| >= 112 && LongAt(msg, 16) == (s0.seqNo + |s.exports|) % TWO64
  {
    hide Export, LongAt, Run, CanRun;
    var s := Run(c, s0, es);
    RunNumber(c, s0, es, s0.seqNo);
    StepInside(c, 0);
    HeaderInMemory(c, s.nextMask, pay, s.seqNo);
  }

  // ---- which pages are sent ----

  /** The pages that were dirty at the start or that the guest has written since. */
  function Touched(start: set<nat>, es: seq<Event>): set<nat>
    decreases |es|
  {
    if es == [] then start else Touched(if es[0].GuestWrite? then start + {es[0].p} else start, es[1..])
  }

  ghost predicate OnlyOf(c: Cfg, s: Sys, pages: set<nat>)
    requires WellFormed(c, s)
  {
    s.hw <= pages && forall q :: 0 <= q < c.bits && (s.shadow[q] || s.round[q]) ==> q in pages
  }

  lemma NextOnly(c: Cfg, s: Sys, e: Event, pages: set<nat>)
    requires WellFormed(c, s) && Enabled(c, s, e) && WellFormed(c, Next(c, s, e)) && OnlyOf(c, s, pages)
    ensures OnlyOf(c, Next(c, s, e), if e.GuestWrite? then pages + {e.p} else pages)
  {
    hide Export, EmitSide, EmitBytes, Absorb, QueryMask, Side.Exhausted;
  }

  lemma {:induction false} RunOnly(c: Cfg, s: Sys, es: seq<Event>, pages: set<nat>)
    requires CanRun(c, s, es) && WellFormed(c, s) && OnlyOf(c, s, pages)
    ensures WellFormed(c, Run(c, s, es)) && OnlyOf(c, Run(c, s, es), Touched(pages, es))
    decreases |es|
  {
    hide WellFormed, Enabled, Next, OnlyOf;
    if es != [] {
      NextOnly(c, s, es[0], pages);
      RunOnly(c, Next(c, s, es[0]), es[1..], if es[0].GuestWrite? then pages + {es[0].p} else pages);
    }
  }

  /** Whatever the devices and the schedule do, only pages that were dirty or written are ever reported, or sent. */
  lemma OnlyTouchedPages(c: Cfg, s0: Sys, es: seq<Event>)
    requires Init(c, s0) && CanRun(c, s0, es)
    ensures var s := Run(c, s0, es);
            && WellFormed(c, s) && s.hw <= Touched(s0.hw, es)
            && forall q :: 0 <= q < c.bits && (s.shadow[q] || s.src.Bits(c)[q]) ==> q in Touched(s0.hw, es)
  {
    hide TransportOk, MessageOk, OnceOk, DirtyOk, Run, CanRun, WellFormed, Export;
    InitInv(c, s0);
    RunInv(c, s0, es);
    StartOnly(c, s0);
    RunOnly(c, s0, es, s0.hw);
  }

  lemma StartOnly(c: Cfg, s: Sys)
    requires Init(c, s)
    ensures WellFormed(c, s) && OnlyOf(c, s, s.hw)
  {
  }
}
