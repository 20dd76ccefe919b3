/**
 * The POST log (amdgv_diag_data_host_drv.c): every entry is written into its slot first and then, if it repeats the one
 * logged last, wiped again and not counted. An entry is the 64 bytes of its struct, time stamp last.
 */
module DiagPostLog {
  import opened Arith
  import opened Bytes
  import opened DiagRing
  import opened DiagLoggers

  const SIZE: nat := 64
  const STAMP: nat := 8
  const DATA: nat := 32
  const DATA_LEN: nat := 24

  /** Ring, count, and the slot the last counted entry went to, or -1. */
  datatype Post = Post(ring: seq<Entry>, w: nat, last: int) {
    ghost predicate Shaped() {
      1 < |ring| < TWO32 && w < TWO32 && -1 <= last < |ring| && Uniform(ring, SIZE)
    }

    /** During a POST; between POSTs the count is 0. */
    ghost predicate Ok() {
      Shaped() && w > 0
    }
  }

  /** The slot after an operation of n data bytes was written over it: the data bytes behind keep what they held. */
  function Overlay(slot: Entry, e: Entry, n: nat): (r: Entry)
    requires |slot| == |e| == SIZE && n <= DATA_LEN
    ensures |r| == SIZE
  {
    e[..DATA + n] + slot[DATA + n..DATA + DATA_LEN] + e[DATA + DATA_LEN..]
  }

  /** The comparison leaves out the time stamp. */
  predicate Similar(a: Entry, b: Entry)
    requires |a| == |b| == SIZE
  {
    a[..SIZE - STAMP] == b[..SIZE - STAMP]
  }

  /** Byte by byte: what stands before the data, and the time stamp, is the entry's, and so are n bytes of the data. */
  lemma OverlayIs(slot: Entry, e: Entry, n: nat)
    requires |slot| == |e| == 64 && n <= 24
    ensures var r := Overlay(slot, e, n);
            forall k :: 0 <= k < 64 ==> r[k] == if 32 + n <= k < 56 then slot[k] else e[k]
  {
  }

  /** Two entries count as the same iff they differ in their time stamps at most. */
  lemma SimilarIff(a: Entry, b: Entry)
    requires |a| == |b| == 64
    ensures Similar(a, b) <==> forall k :: 0 <= k < 56 ==> a[k] == b[k]
  {
    if Similar(a, b) {
      forall k | 0 <= k < 56
        ensures a[k] == b[k]
      {
        assert a[..56][k] == b[..56][k];
      }
    }
  }

  ghost predicate Event(e: (Entry, nat)) {
    |e.0| == SIZE && e.1 <= DATA_LEN
  }

  /** The ring with the entry in its slot, before it is compared. */
  ghost function Written(p: Post, e: (Entry, nat)): (r: seq<Entry>)
    requires p.Ok() && Event(e)
    ensures |r| == |p.ring| && Uniform(r, SIZE)
  {
    var i := KeepIndex(p.w, |p.ring|, 1);
    p.ring[i := Overlay(p.ring[i], e.0, e.1)]
  }

  /** The last counted entry is looked up after the write, so it may be the very slot just written. */
  ghost predicate Drops(p: Post, e: (Entry, nat))
    requires p.Ok() && Event(e)
  {
    p.last >= 0 && Similar(Written(p, e)[p.last], Written(p, e)[KeepIndex(p.w, |p.ring|, 1)])
  }

  ghost function AddPost(p: Post, e: (Entry, nat)): (r: Post)
    requires p.Ok() && Event(e)
    ensures r.Ok() && |r.ring| == |p.ring|
  {
    var i := KeepIndex(p.w, |p.ring|, 1);
    if Drops(p, e) then p.(ring := p.ring[i := Zeros(SIZE)]) else Post(Written(p, e), Bump(p.w, |p.ring|), i)
  }

  /** amdgv_diag_data_vbios_post_start: the header takes the kept slot, and nothing else is cleared. */
  ghost function Start(p: Post, hdr: Entry): (r: Post)
    requires p.Shaped() && |hdr| == SIZE
    ensures r.Ok()
  {
    Post(p.ring[0 := hdr], 1, p.last)
  }

  class PostLog {
    const ring: array<Entry>
    var w: nat
    var last: int

    ghost function View(): Post
      reads this, ring
    {
      Post(ring[..], w, last)
    }

    constructor (ring: array<Entry>)
      requires 1 < ring.Length < TWO32 && Uniform(ring[..], SIZE)
      ensures View() == Post(ring[..], 0, -1) && View().Shaped() && this.ring == ring
    {
      this.ring, w, last := ring, 0, -1;
    }

    method VbiosPostStart(hdr: Entry)
      requires View().Shaped() && |hdr| == SIZE
      modifies this`w, ring
      ensures View() == Start(old(View()), hdr)
    {
      ring[0] := hdr;
      w := 1;
    }

    /** amdgv_diag_data_vbios_post_end: only the count is cleared, not the memory of the entry logged last. */
    method VbiosPostEnd()
      requires View().Shaped()
      modifies this`w
      ensures View() == old(View()).(w := 0) && View().Shaped()
    {
      w := 0;
    }

    /** amdgv_diag_data_add_vbios_post_log; e is the entry as the operation describes it, n its number of data bytes. */
    method AddVbiosPostLog(e: Entry, n: nat)
      requires View().Ok() && |e| == SIZE && n <= DATA_LEN
      modifies this`w, this`last, ring
      ensures View() == AddPost(old(View()), (e, n))
    {
      hide KeepIndex, Overlay, Bump;
      ghost var p := View();
      var index := KeepIndex(w, ring.Length, 1);
      ring[index] := Overlay(ring[index], e, n);
      assert ring[..] == Written(p, (e, n));
      if last >= 0 && Similar(ring[last], ring[index]) {
        ring[index] := Zeros(SIZE);
        assert ring[..] == p.ring[index := Zeros(SIZE)];
        return;
      }
      w := Bump(w, ring.Length);
      last := index;
    }
  }

  // ---- what a reader finds ----

  /** The log and whether the last operation was dropped, next to the state. */
  datatype Run = Run(p: Post, log: seq<Entry>, dropped: bool)

  ghost function After(p: Post, hdr: Entry, es: seq<(Entry, nat)>): (r: Run)
    requires p.Shaped() && |hdr| == SIZE && forall k :: 0 <= k < |es| ==> Event(es[k])
    ensures r.p.Ok() && |r.p.ring| == |p.ring| && |r.log| > 0
  {
    if es == [] then Run(Start(p, hdr), [hdr], false) else
      var r, e := After(p, hdr, es[..|es| - 1]), es[|es| - 1];
      var q := AddPost(r.p, e);
      if Drops(r.p, e) then Run(q, r.log, true)
      else Run(q, r.log + [Written(r.p, e)[KeepIndex(r.p.w, |r.p.ring|, 1)]], false)
  }

  /** The ring is that of the counted entries, but for a wiped slot where the next one would go. */
  ghost predicate Tracks(base: seq<Entry>, r: Run)
    requires 1 < |base| < TWO32 && r.p.w < TWO32
  {
    var ring := RingAfter(base, r.log, 1);
    && r.p.w == Counter(|r.log|, |base|)
    && r.p.ring == if r.dropped then ring[Slot(r.p.w, |base|, 1) := Zeros(SIZE)] else ring
  }

  lemma {:induction false} RunTracks(p: Post, hdr: Entry, es: seq<(Entry, nat)>)
    requires p.Shaped() && |hdr| == SIZE && forall k :: 0 <= k < |es| ==> Event(es[k])
    requires |After(p, hdr, es).log| < TWO32 || RestartFits(|p.ring|, 1)
    ensures Tracks(p.ring, After(p, hdr, es))
    decreases |es|
  {
    hide RestartFits, KeepIndex, Overlay, Drops, Bump, RbIndex;
    if es == [] {
      StartTracks(p, hdr);
    } else {
      var r, e := After(p, hdr, es[..|es| - 1]), es[|es| - 1];
      RunTracks(p, hdr, es[..|es| - 1]);
      StepTracks(p.ring, r, e);
    }
  }

  lemma StartTracks(p: Post, hdr: Entry)
    requires p.Shaped() && |hdr| == SIZE
    ensures Tracks(p.ring, Run(Start(p, hdr), [hdr], false))
  {
    assert [hdr][..0] == [];
    assert RingAfter(p.ring, [], 1) == p.ring;
    assert Counter(1, |p.ring|) == Bump(Counter(0, |p.ring|), |p.ring|);
  }

  lemma StepTracks(base: seq<Entry>, r: Run, e: (Entry, nat))
    requires r.p.Ok() && Event(e) && |r.log| > 0 && |base| == |r.p.ring| && Tracks(base, r)
    requires |r.log| < TWO32 || RestartFits(|base|, 1)
    ensures Drops(r.p, e) ==> Tracks(base, Run(AddPost(r.p, e), r.log, true))
    ensures !Drops(r.p, e) ==> Tracks(base, Run(AddPost(r.p, e), r.log + [Written(r.p, e)[KeepIndex(r.p.w, |r.p.ring|, 1)]], false))
  {
    hide RestartFits, KeepIndex, Overlay, Drops, Bump, RbIndex;
    var n, total := |r.log|, |base|;
    SameSlot(r.p.w, total);
    if n < TWO32 {
      CounterCounts(n, total);
    } else {
      CounterIndex(n, total, 1);
    }
    var x := Written(r.p, e)[KeepIndex(r.p.w, total, 1)];
    assert (r.log + [x])[..n] == r.log;
  }

  /**
   * After any POST: the counted entries are copied out in order, except that an operation dropped just before wipes the
   * oldest of them once the ring is full.
   */
  lemma PostInOrder(p: Post, hdr: Entry, es: seq<(Entry, nat)>)
    requires p.Shaped() && |hdr| == SIZE && forall k :: 0 <= k < |es| ==> Event(es[k])
    requires |After(p, hdr, es).log| < TWO32 || RestartFits(|p.ring|, 1)
    ensures var r := After(p, hdr, es);
            var should := Retained(r.log, |p.ring|, 1);
            Linear(r.p.ring, r.p.w, 1) == if r.dropped && |r.log| >= |p.ring| then should[1 := Zeros(SIZE)] else should
  {
    hide RestartFits, KeepIndex, RbIndex, After, Counter, RingAfter, Linear;
    var r, total := After(p, hdr, es), |p.ring|;
    var ring, n := RingAfter(p.ring, r.log, 1), |r.log|;
    RunTracks(p, hdr, es);
    CountedLinear(ring, n, 1);
    LinearIsRetained(p.ring, r.log, 1);
    if r.dropped {
      if n < total {
        CounterCounts(n, total);
        ShortLinear(ring, n, Zeros(SIZE));
      } else {
        CounterFull(n, total);
        WipedLinear(ring, r.p.w, Zeros(SIZE));
      }
    }
  }

  lemma ShortLinear(ring: seq<Entry>, n: nat, z: Entry)
    requires 1 < |ring| && n < |ring|
    ensures Slot(n, |ring|, 1) == n && Linear(ring[n := z], n, 1) == Linear(ring, n, 1)
  {
  }

  lemma WipedLinear(ring: seq<Entry>, w: nat, z: Entry)
    requires 1 < |ring| <= w
    ensures |Linear(ring, w, 1)| == |ring|
    ensures Linear(ring[Slot(w, |ring|, 1) := z], w, 1) == Linear(ring, w, 1)[1 := z]
  {
    hide KeepIndex, Linear;
    FullLinear(ring, w, 1);
    FullLinear(ring[Slot(w, |ring|, 1) := z], w, 1);
  }

  // ---- a POST after another ----

  /** Nothing is logged behind the header, whatever the operations are. */
  ghost predicate LogsNothing(p: Post, hdr: Entry)
    requires p.Shaped() && |hdr| == SIZE
  {
    forall es: seq<(Entry, nat)> :: (forall k :: 0 <= k < |es| ==> Event(es[k])) ==> After(p, hdr, es).log == [hdr]
  }

  /**
   * The slot logged last is remembered from one POST to the next. If it is the first slot behind the header, every
   * operation is compared with itself, and the next POST logs nothing at all; otherwise it can log.
   */
  lemma NextPostIsEmptyIff(p: Post, hdr: Entry)
    requires p.Shaped() && |hdr| == SIZE
    ensures LogsNothing(p, hdr) <==> p.last == 1
  {
    if p.last == 1 {
      forall es: seq<(Entry, nat)> | forall k :: 0 <= k < |es| ==> Event(es[k])
        ensures After(p, hdr, es).log == [hdr]
      {
        AllDropped(p, hdr, es);
      }
    } else {
      var e := OtherEntry(p, hdr);
      var none: seq<(Entry, nat)> := [];
      assert [e][..0] == none;
      assert After(p, hdr, none) == Run(Start(p, hdr), [hdr], false);
      assert |After(p, hdr, [e]).log| == 2;
    }
  }

  lemma {:induction false} AllDropped(p: Post, hdr: Entry, es: seq<(Entry, nat)>)
    requires p.Shaped() && |hdr| == SIZE && p.last == 1 && forall k :: 0 <= k < |es| ==> Event(es[k])
    ensures var r := After(p, hdr, es); r.log == [hdr] && r.p.last == 1 && r.p.w == 1
    decreases |es|
  {
    hide Overlay;
    if es != [] {
      AllDropped(p, hdr, es[..|es| - 1]);
      FirstSlot(|p.ring|);
    }
  }

  lemma FirstSlot(total: nat)
    requires 1 < total
    ensures KeepIndex(1, total, 1) == 1
  {
    DivIs(0, total - 1, 0);
  }

  lemma OtherEntry(p: Post, hdr: Entry) returns (e: (Entry, nat))
    requires p.Shaped() && |hdr| == SIZE && p.last != 1
    ensures Event(e) && !Drops(Start(p, hdr), e)
  {
    FirstSlot(|p.ring|);
    var q := Start(p, hdr);
    var b: byte := if q.last >= 0 && q.ring[q.last][0] == 0 then 1 else 0;
    e := (seq(SIZE, _ => b), 0);
    var w := Written(q, e);
    assert w[1][..SIZE - STAMP][0] == b;
    if q.last >= 0 {
      assert w[q.last] == q.ring[q.last];
      assert w[q.last][..SIZE - STAMP][0] != b;
    }
  }
}
