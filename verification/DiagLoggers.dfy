/**
 * The writers of the ring logs of the host driver: what they do to a ring when several entries arrive at once, when an
 * entry is dropped as a duplicate, and when the 32-bit count of writes starts over.
 */
module DiagLoggers {
  import opened Arith
  import opened Bytes
  import opened DiagRing

  // ---- the count of writes ----

  /** w_count++; a count that overflowed to 0 becomes the number of entries, which stands for a full ring. */
  function Bump(w: nat, total: nat): (r: nat)
    requires w < TWO32 && 0 < total < TWO32
    ensures 0 < r < TWO32
  {
    if (w + 1) % TWO32 == 0 then total else w + 1
  }

  /** The count after n writes. */
  function Counter(n: nat, total: nat): (w: nat)
    requires 0 < total < TWO32
    ensures w < TWO32
  {
    if n == 0 then 0 else Bump(Counter(n - 1, total), total)
  }

  lemma {:induction false} CounterCounts(n: nat, total: nat)
    requires 0 < total < TWO32 && n < TWO32
    ensures Counter(n, total) == n
    decreases n
  {
    if n > 0 {
      CounterCounts(n - 1, total);
    }
  }

  lemma {:induction false} CounterFull(n: nat, total: nat)
    requires 0 < total <= n && total < TWO32
    ensures total <= Counter(n, total)
    decreases n
  {
    if n == total {
      CounterCounts(n, total);
    } else {
      CounterFull(n - 1, total);
    }
  }

  /** Starting over leaves the next index where it would have been. */
  predicate RestartFits(total: nat, keep: nat)
    requires keep < total < TWO32
  {
    (TWO32 - keep) % (total - keep) == 0
  }

  /** Then the count, though it starts over again and again, always gives the index of the true number of writes. */
  lemma {:induction false} CounterIndex(n: nat, total: nat, keep: nat)
    requires keep < total <= n && total < TWO32 && RestartFits(total, keep)
    ensures total <= Counter(n, total) && KeepIndex(Counter(n, total), total, keep) == KeepIndex(n, total, keep)
    decreases n
  {
    hide KeepIndex, RestartFits;
    if n == total {
      CounterCounts(n, total);
    } else {
      CounterIndex(n - 1, total, keep);
      var w := Counter(n - 1, total);
      NextIndex(w, total, keep);
      NextIndex(n - 1, total, keep);
      NextIndex(total, total, keep);
      RestartIndex(total, keep);
    }
  }

  lemma RestartIndex(total: nat, keep: nat)
    requires keep < total < TWO32
    ensures KeepIndex(TWO32, total, keep) == keep <==> RestartFits(total, keep)
    ensures KeepIndex(total, total, keep) == keep
  {
    NextIndex(total, total, keep);
  }

  // ---- one entry at a time ----

  datatype Dump = Dump(ring: seq<Entry>, w: nat)

  function Record(d: Dump, e: Entry, keep: nat): (r: Dump)
    requires keep < |d.ring| < TWO32 && d.w < TWO32
    ensures |r.ring| == |d.ring| && r.w < TWO32
  {
    Dump(d.ring[Slot(d.w, |d.ring|, keep) := e], Bump(d.w, |d.ring|))
  }

  function RecordAll(d: Dump, es: seq<Entry>, keep: nat): (r: Dump)
    requires keep < |d.ring| < TWO32 && d.w < TWO32
    ensures |r.ring| == |d.ring| && r.w < TWO32
  {
    if es == [] then d else Record(RecordAll(d, es[..|es| - 1], keep), es[|es| - 1], keep)
  }

  /** The trace log takes its index from the other macro, the POST log from the keep macro even before the ring is full. */
  lemma SameSlot(w: nat, total: nat)
    requires 0 < total
    ensures RbIndex(w, total) == Slot(w, total, 0)
    ensures 1 < total && 0 < w ==> KeepIndex(w, total, 1) == Slot(w, total, 1)
  {
    IndexIsModulo(w, total);
    if w < total {
      DivIs(w, total, 0);
      if 1 < total && 0 < w {
        DivIs(w - 1, total - 1, 0);
      }
    }
  }

  lemma {:induction false} RecordedIs(init: seq<Entry>, log: seq<Entry>, keep: nat)
    requires keep < |init| < TWO32 && (|log| <= TWO32 || RestartFits(|init|, keep))
    ensures RecordAll(Dump(init, 0), log, keep) == Dump(RingAfter(init, log, keep), Counter(|log|, |init|))
    decreases |log|
  {
    hide KeepIndex, RestartFits, Bump;
    if log != [] {
      var n, total := |log| - 1, |init|;
      RecordedIs(init, log[..n], keep);
      if n < TWO32 {
        CounterCounts(n, total);
      } else {
        CounterIndex(n, total, keep);
      }
    }
  }

  /** What a full ring yields, whether it was just filled or went round. */
  lemma FullLinear(ring: seq<Entry>, w: nat, keep: nat)
    requires keep < |ring| <= w
    ensures var i := KeepIndex(w, |ring|, keep); Linear(ring, w, keep) == ring[..keep] + ring[i..] + ring[keep..i]
  {
    hide KeepIndex, RbIndex;
    WriteIndex(w, |ring|, keep);
    if w == |ring| {
      NextIndex(w, |ring|, keep);
      assert ring == ring[..keep] + ring[keep..] + ring[keep..keep];
    }
  }

  /** Copying out by the count that started over gives what the true number of writes would. */
  lemma CountedLinear(ring: seq<Entry>, n: nat, keep: nat)
    requires keep < |ring| < TWO32 && (n < TWO32 || RestartFits(|ring|, keep))
    ensures Linear(ring, Counter(n, |ring|), keep) == Linear(ring, n, keep)
  {
    hide KeepIndex, Linear, RestartFits, Counter;
    if n < TWO32 {
      CounterCounts(n, |ring|);
    } else {
      CounterIndex(n, |ring|, keep);
      FullLinear(ring, Counter(n, |ring|), keep);
      FullLinear(ring, n, keep);
    }
  }

  lemma RecordedLinear(init: seq<Entry>, log: seq<Entry>, keep: nat)
    requires keep < |init| < TWO32 && (|log| < TWO32 || RestartFits(|init|, keep))
    ensures var d := RecordAll(Dump(init, 0), log, keep); Linear(d.ring, d.w, keep) == Retained(log, |init|, keep)
  {
    hide RingAfter, Linear, Retained, Counter, RecordAll, RestartFits;
    RecordedIs(init, log, keep);
    CountedLinear(RingAfter(init, log, keep), |log|, keep);
    LinearIsRetained(init, log, keep);
  }

  /** Every log, however long, is copied out in order. */
  ghost predicate AlwaysInOrder(total: nat, keep: nat)
    requires keep < total < TWO32
  {
    forall init: seq<Entry>, log: seq<Entry> :: |init| == total ==> InOrder(init, log, keep)
  }

  ghost predicate InOrder(init: seq<Entry>, log: seq<Entry>, keep: nat)
    requires keep < |init| < TWO32
  {
    var d := RecordAll(Dump(init, 0), log, keep);
    Linear(d.ring, d.w, keep) == Retained(log, |init|, keep)
  }

  /** The order survives the count starting over, for every log, iff the restart fits the ring. */
  lemma RestartKeepsOrderIff(total: nat, keep: nat)
    requires keep < total < TWO32
    ensures AlwaysInOrder(total, keep) <==> RestartFits(total, keep)
  {
    hide Linear, Retained, RecordAll, RestartFits;
    if RestartFits(total, keep) {
      forall init: seq<Entry>, log: seq<Entry> | |init| == total
        ensures InOrder(init, log, keep)
      {
        RecordedLinear(init, log, keep);
      }
    } else {
      var init, log := RestartMixes(total, keep);
    }
  }

  /** As many writes as the count can tell apart: the entry that should come first after the kept ones does not. */
  lemma RestartMixes(total: nat, keep: nat) returns (init: seq<Entry>, log: seq<Entry>)
    requires keep < total < TWO32 && !RestartFits(total, keep)
    ensures |init| == total && |log| == TWO32 && !InOrder(init, log, keep)
  {
    hide KeepIndex, RestartFits, RingAfter, Counter, RecordAll;
    var oldest := TWO32 - (total - keep);
    init := seq(total, _ => [0]);
    log := seq(TWO32, j => if j == oldest then [1] else [0]);
    RecordedIs(init, log, keep);
    RingHolds(init, log, keep);
    RestartIndex(total, keep);
    CounterRestarts(total);
    var ring, i := RingAfter(init, log, keep), KeepIndex(TWO32, total, keep);
    assert ring[keep] == log[TWO32 - (i - keep)] == [0];
    assert Linear(ring, total, keep)[keep] == [0];
    assert Retained(log, total, keep)[keep] == log[oldest];
  }

  lemma CounterRestarts(total: nat)
    requires 0 < total < TWO32
    ensures Counter(TWO32, total) == total
  {
    CounterCounts(TWO32 - 1, total);
  }

  /** With the block sizes compiled in the error dump is not affected; the POST log would be. */
  lemma ShippedRings()
    ensures RestartFits(256, 16) && !RestartFits(512, 1)
  {
  }

  // ---- several errors at once: one index for the whole batch ----

  function BumpBy(w: nat, total: nat, n: nat): (r: nat)
    requires w < TWO32 && 0 < total < TWO32
    ensures r < TWO32
  {
    if n == 0 then w else Bump(BumpBy(w, total, n - 1), total)
  }

  /** amdgv_diag_data_add_error: the index is computed before the loop, the count goes up inside it. */
  function AddBatch(d: Dump, batch: seq<Entry>, keep: nat): (r: Dump)
    requires keep < |d.ring| < TWO32 && d.w < TWO32
    ensures |r.ring| == |d.ring| && r.w < TWO32
  {
    if batch == [] then d
    else Dump(d.ring[Slot(d.w, |d.ring|, keep) := batch[|batch| - 1]], BumpBy(d.w, |d.ring|, |batch|))
  }

  function AddAll(d: Dump, batches: seq<seq<Entry>>, keep: nat): (r: Dump)
    requires keep < |d.ring| < TWO32 && d.w < TWO32
    ensures |r.ring| == |d.ring| && r.w < TWO32
  {
    if batches == [] then d else AddBatch(AddAll(d, batches[..|batches| - 1], keep), batches[|batches| - 1], keep)
  }

  function Concat(batches: seq<seq<Entry>>): seq<Entry> {
    if batches == [] then [] else Concat(batches[..|batches| - 1]) + batches[|batches| - 1]
  }

  function Sum(sizes: seq<nat>): nat {
    if sizes == [] then 0 else Sum(sizes[..|sizes| - 1]) + sizes[|sizes| - 1]
  }

  ghost predicate Sized(batches: seq<seq<Entry>>, sizes: seq<nat>) {
    |batches| == |sizes| && forall k :: 0 <= k < |sizes| ==> |batches[k]| == sizes[k]
  }

  /** After every call, copying the ring out yields the retained entries. */
  ghost predicate RightAfterEach(init: seq<Entry>, batches: seq<seq<Entry>>, keep: nat)
    requires keep < |init| < TWO32
  {
    forall k :: 0 <= k <= |batches| ==> RightNow(init, batches[..k], keep)
  }

  ghost predicate RightNow(init: seq<Entry>, batches: seq<seq<Entry>>, keep: nat)
    requires keep < |init| < TWO32
  {
    var d := AddAll(Dump(init, 0), batches, keep);
    Linear(d.ring, d.w, keep) == Retained(Concat(batches), |init|, keep)
  }

  /** Batches of these sizes are always copied out right, whatever they hold and whatever the ring held before. */
  ghost predicate SizesAreRight(total: nat, keep: nat, sizes: seq<nat>)
    requires keep < total < TWO32
  {
    forall init: seq<Entry>, batches: seq<seq<Entry>> ::
      |init| == total && Sized(batches, sizes) ==> RightAfterEach(init, batches, keep)
  }

  /** One entry per call; more only where all entries that are not kept share one slot anyway. */
  predicate Single(total: nat, keep: nat, at: nat, size: nat) {
    size <= 1 || (total == keep + 1 && keep <= at)
  }

  predicate Singles(total: nat, keep: nat, sizes: seq<nat>) {
    forall k :: 0 <= k < |sizes| ==> Single(total, keep, Sum(sizes[..k]), sizes[k])
  }

  lemma {:induction false} SumPrefix(sizes: seq<nat>, k: nat)
    requires k <= |sizes|
    ensures Sum(sizes[..k]) <= Sum(sizes)
    decreases |sizes|
  {
    if k < |sizes| {
      assert sizes[..|sizes| - 1][..k] == sizes[..k];
      SumPrefix(sizes[..|sizes| - 1], k);
    } else {
      assert sizes[..k] == sizes;
    }
  }

  lemma {:induction false} ConcatSize(batches: seq<seq<Entry>>, sizes: seq<nat>)
    requires Sized(batches, sizes)
    ensures |Concat(batches)| == Sum(sizes)
    decreases |sizes|
  {
    if sizes != [] {
      ConcatSize(batches[..|batches| - 1], sizes[..|sizes| - 1]);
    }
  }

  // ---- where the batches are harmless ----

  lemma {:induction false} RecordMany(d: Dump, a: seq<Entry>, b: seq<Entry>, keep: nat)
    requires keep < |d.ring| < TWO32 && d.w < TWO32
    ensures RecordAll(d, a + b, keep) == RecordAll(RecordAll(d, a, keep), b, keep)
    decreases |b|
  {
    hide Record;
    if b == [] {
      assert a + b == a;
    } else {
      assert (a + b)[..|a + b| - 1] == a + b[..|b| - 1];
      RecordMany(d, a, b[..|b| - 1], keep);
    }
  }

  /** With one slot for everything that is not kept, a batch is as good as its entries one by one. */
  lemma {:induction false} OneSlotBatch(d: Dump, batch: seq<Entry>, keep: nat)
    requires keep + 1 == |d.ring| < TWO32 && keep <= d.w < TWO32
    ensures AddBatch(d, batch, keep) == RecordAll(d, batch, keep) && keep <= RecordAll(d, batch, keep).w
    decreases |batch|
  {
    if batch != [] {
      OneSlotBatch(d, batch[..|batch| - 1], keep);
      OneSlot(RecordAll(d, batch[..|batch| - 1], keep).w, keep);
      OneSlot(d.w, keep);
    }
  }

  lemma OneSlot(w: nat, keep: nat)
    requires keep <= w
    ensures Slot(w, keep + 1, keep) == keep
  {
  }

  lemma SingleBatch(d: Dump, batch: seq<Entry>, at: nat, keep: nat)
    requires keep < |d.ring| < TWO32 && d.w == Counter(at, |d.ring|) && Single(|d.ring|, keep, at, |batch|)
    ensures AddBatch(d, batch, keep) == RecordAll(d, batch, keep)
  {
    hide Slot, Counter;
    if |batch| <= 1 {
      if batch != [] {
        assert batch[..0] == [];
        assert BumpBy(d.w, |d.ring|, 1) == Bump(BumpBy(d.w, |d.ring|, 0), |d.ring|);
      }
    } else {
      if at == keep {
        CounterCounts(at, |d.ring|);
      } else {
        CounterFull(at, |d.ring|);
      }
      OneSlotBatch(d, batch, keep);
    }
  }

  lemma {:induction false} CounterAfter(d: Dump, es: seq<Entry>, at: nat, keep: nat)
    requires keep < |d.ring| < TWO32 && d.w == Counter(at, |d.ring|)
    ensures RecordAll(d, es, keep).w == Counter(at + |es|, |d.ring|)
    decreases |es|
  {
    hide Slot, Bump;
    if es != [] {
      CounterAfter(d, es[..|es| - 1], at, keep);
    }
  }

  lemma {:induction false} SinglesRecord(init: seq<Entry>, batches: seq<seq<Entry>>, sizes: seq<nat>, keep: nat)
    requires keep < |init| < TWO32 && Sized(batches, sizes) && Singles(|init|, keep, sizes)
    ensures AddAll(Dump(init, 0), batches, keep) == RecordAll(Dump(init, 0), Concat(batches), keep)
    decreases |sizes|
  {
    hide Slot, Bump, AddBatch, Single, Counter, RecordAll, Sum;
    if batches == [] {
      RecordNone(Dump(init, 0), keep);
    } else {
      var n := |batches| - 1;
      var before := Concat(batches[..n]);
      forall k | 0 <= k < n
        ensures Single(|init|, keep, Sum(sizes[..n][..k]), sizes[..n][k])
      {
        assert sizes[..n][..k] == sizes[..k];
      }
      SinglesRecord(init, batches[..n], sizes[..n], keep);
      ConcatSize(batches[..n], sizes[..n]);
      CounterNone(|init|);
      CounterAfter(Dump(init, 0), before, 0, keep);
      assert Single(|init|, keep, Sum(sizes[..n]), sizes[n]);
      SingleBatch(RecordAll(Dump(init, 0), before, keep), batches[n], |before|, keep);
      RecordMany(Dump(init, 0), before, batches[n], keep);
    }
  }

  lemma RecordNone(d: Dump, keep: nat)
    requires keep < |d.ring| < TWO32 && d.w < TWO32
    ensures RecordAll(d, [], keep) == d
  {
  }

  lemma CounterNone(total: nat)
    requires 0 < total < TWO32
    ensures Counter(0, total) == 0
  {
  }

  // ---- where they are not ----

  ghost predicate NoneIs(s: seq<Entry>, x: Entry) {
    forall i :: 0 <= i < |s| ==> s[i] != x
  }

  /** Only the last entry of a batch ever reaches the ring. */
  lemma {:induction false} OnlyLastArrive(init: seq<Entry>, batches: seq<seq<Entry>>, keep: nat, x: Entry)
    requires keep < |init| < TWO32 && NoneIs(init, x)
    requires forall k :: 0 <= k < |batches| && batches[k] != [] ==> batches[k][|batches[k]| - 1] != x
    ensures NoneIs(AddAll(Dump(init, 0), batches, keep).ring, x)
    decreases |batches|
  {
    hide Slot, BumpBy;
    if batches != [] {
      OnlyLastArrive(init, batches[..|batches| - 1], keep, x);
    }
  }

  lemma LinearFromRing(ring: seq<Entry>, w: nat, keep: nat, x: Entry)
    requires keep < |ring| && NoneIs(ring, x)
    ensures NoneIs(Linear(ring, w, keep), x)
  {
    hide KeepIndex, RbIndex;
    if w > |ring| {
      FullLinear(ring, w, keep);
    }
  }

  /** An entry that is not the last of its batch and should be retained is missing. */
  lemma MissingEntry(init: seq<Entry>, batches: seq<seq<Entry>>, keep: nat, x: Entry, j: nat)
    requires keep < |init| < TWO32 && NoneIs(init, x)
    requires forall k :: 0 <= k < |batches| && batches[k] != [] ==> batches[k][|batches[k]| - 1] != x
    requires j < |Concat(batches)| && Concat(batches)[j] == x
    requires |Concat(batches)| <= |init| || j < keep || |Concat(batches)| - (|init| - keep) <= j
    ensures !RightNow(init, batches, keep)
  {
    hide AddAll, Linear;
    OnlyLastArrive(init, batches, keep, x);
    var d, log := AddAll(Dump(init, 0), batches, keep), Concat(batches);
    LinearFromRing(d.ring, d.w, keep, x);
    var r := Retained(log, |init|, keep);
    var i := if |log| <= |init| || j < keep then j else keep + (j - (|log| - (|init| - keep)));
    assert i < |r| && r[i] == x;
  }

  lemma SinglesAreRight(init: seq<Entry>, batches: seq<seq<Entry>>, sizes: seq<nat>, keep: nat)
    requires keep < |init| < TWO32 && Sized(batches, sizes) && Singles(|init|, keep, sizes)
    requires Sum(sizes) < TWO32 || RestartFits(|init|, keep)
    ensures RightAfterEach(init, batches, keep)
  {
    hide AddAll, Linear, Retained, RecordAll, RestartFits, Single, Sum, Concat;
    forall k | 0 <= k <= |batches|
      ensures RightNow(init, batches[..k], keep)
    {
      forall m | 0 <= m < k
        ensures Single(|init|, keep, Sum(sizes[..k][..m]), sizes[..k][m])
      {
        assert sizes[..k][..m] == sizes[..m];
      }
      SumPrefix(sizes, k);
      SinglesRecord(init, batches[..k], sizes[..k], keep);
      ConcatSize(batches[..k], sizes[..k]);
      RecordedLinear(init, Concat(batches[..k]), keep);
    }
  }

  /** Entries [0] but for one [1], in a batch of two or more, not in last place. */
  lemma BatchLoses(total: nat, keep: nat, sizes: seq<nat>, k: nat) returns (init: seq<Entry>, batches: seq<seq<Entry>>)
    requires keep < total < TWO32 && k < |sizes| && !Single(total, keep, Sum(sizes[..k]), sizes[k])
    ensures |init| == total && Sized(batches, sizes) && !RightNow(init, batches[..k + 1], keep)
  {
    hide AddAll, Linear, Retained, Concat, Sum;
    var p := if total == keep + 1 then 0 else sizes[k] - 2;
    init := seq(total, _ => [0]);
    batches := seq(|sizes|, m requires 0 <= m < |sizes| => seq(sizes[m], i => if m == k && i == p then [1] else [0]));
    ConcatSize(batches[..k], sizes[..k]);
    ConcatLast(batches[..k + 1]);
    assert batches[..k + 1][..k] == batches[..k];
    MissingEntry(init, batches[..k + 1], keep, [1], Sum(sizes[..k]) + p);
  }

  lemma ConcatLast(batches: seq<seq<Entry>>)
    requires batches != []
    ensures Concat(batches) == Concat(batches[..|batches| - 1]) + batches[|batches| - 1]
  {
  }

  // ---- when the count starts over under one entry per call ----

  lemma {:induction false} ReachSum(sizes: seq<nat>, target: nat) returns (k: nat)
    requires (forall m :: 0 <= m < |sizes| ==> sizes[m] <= 1) && target <= Sum(sizes)
    ensures k <= |sizes| && Sum(sizes[..k]) == target
    decreases |sizes|
  {
    assert sizes[..|sizes|] == sizes;
    if Sum(sizes) == target {
      k := |sizes|;
    } else {
      k := ReachSum(sizes[..|sizes| - 1], target);
      assert sizes[..|sizes| - 1][..k] == sizes[..k];
    }
  }

  /** The batches of the given sizes that make up a log. */
  function Spread(sizes: seq<nat>, log: seq<Entry>): (r: seq<seq<Entry>>)
    requires forall m :: 0 <= m < |sizes| ==> sizes[m] <= 1
    ensures Sized(r, sizes)
  {
    seq(|sizes|, m requires 0 <= m < |sizes| =>
          if sizes[m] == 0 then [] else [if Sum(sizes[..m]) < |log| then log[Sum(sizes[..m])] else []])
  }

  lemma {:induction false} SpreadConcat(sizes: seq<nat>, log: seq<Entry>, k: nat)
    requires (forall m :: 0 <= m < |sizes| ==> sizes[m] <= 1) && k <= |sizes| && Sum(sizes[..k]) <= |log|
    ensures Concat(Spread(sizes, log)[..k]) == log[..Sum(sizes[..k])]
    decreases k
  {
    var batches := Spread(sizes, log);
    if k > 0 {
      SumPrefix(sizes[..k], k - 1);
      assert sizes[..k][..k - 1] == sizes[..k - 1];
      assert batches[..k][..k - 1] == batches[..k - 1];
      SpreadConcat(sizes, log, k - 1);
    }
  }

  lemma RestartLoses(total: nat, keep: nat, sizes: seq<nat>)
    returns (init: seq<Entry>, batches: seq<seq<Entry>>, k: nat)
    requires keep < total < TWO32 && Singles(total, keep, sizes) && TWO32 <= Sum(sizes) && !RestartFits(total, keep)
    ensures |init| == total && Sized(batches, sizes) && k <= |batches| && !RightNow(init, batches[..k], keep)
  {
    hide AddAll, Linear, Retained, RecordAll, Sum, Concat;
    MoreSlots(total, keep);
    forall m | 0 <= m < |sizes|
      ensures sizes[m] <= 1
    {
      assert Single(total, keep, Sum(sizes[..m]), sizes[m]);
    }
    hide RestartFits;
    var log;
    init, log := RestartMixes(total, keep);
    k := ReachSum(sizes, TWO32);
    batches := Spread(sizes, log);
    SpreadConcat(sizes, log, k);
    assert log[..TWO32] == log;
    SinglesRecord(init, batches[..k], sizes[..k], keep);
  }

  lemma MoreSlots(total: nat, keep: nat)
    requires keep < total < TWO32 && !RestartFits(total, keep)
    ensures keep + 1 < total
  {
  }

  /**
   * Over runs of calls: the log is copied out right after each of them, whatever the entries are, iff no call adds two
   * entries at once, or only where all entries that are not kept share one slot, and the count does not start over, or
   * does so where it fits the ring.
   */
  lemma BatchesRightIff(total: nat, keep: nat, sizes: seq<nat>)
    requires keep < total < TWO32
    ensures SizesAreRight(total, keep, sizes)
            <==> Singles(total, keep, sizes) && (Sum(sizes) < TWO32 || RestartFits(total, keep))
  {
    hide RightNow, Sum, RestartFits, Single;
    if !Singles(total, keep, sizes) {
      var k :| 0 <= k < |sizes| && !Single(total, keep, Sum(sizes[..k]), sizes[k]);
      var init, batches := BatchLoses(total, keep, sizes, k);
      assert !RightAfterEach(init, batches, keep);
    } else if TWO32 <= Sum(sizes) && !RestartFits(total, keep) {
      var init, batches, k := RestartLoses(total, keep, sizes);
      assert !RightAfterEach(init, batches, keep);
    } else {
      forall init: seq<Entry>, batches: seq<seq<Entry>> | |init| == total && Sized(batches, sizes)
        ensures RightAfterEach(init, batches, keep)
      {
        SinglesAreRight(init, batches, sizes, keep);
      }
    }
  }

  /** Two errors drained by one call into an empty error dump: the first is gone, and what the ring held shows up. */
  lemma TwoErrorsAtOnce(init: seq<Entry>, a: Entry, b: Entry)
    requires |init| == 256
    ensures var d := AddAll(Dump(init, 0), [[a, b]], 16);
            Linear(d.ring, d.w, 16) == [b, init[1]] && Retained(Concat([[a, b]]), 256, 16) == [a, b]
  {
    var d0 := Dump(init, 0);
    assert [[a, b]][..0] == [];
    assert AddAll(d0, [], 16) == d0 && Concat([]) == [];
    assert BumpBy(0, 256, 0) == 0 && BumpBy(0, 256, 1) == 1 && BumpBy(0, 256, 2) == 2;
    assert [] + [a, b] == [a, b];
  }

  // ---- the writers ----

  /** write_count - read_count in 32 bits */
  function Behind(writeCount: u32, readCount: u32): u32 {
    (writeCount - readCount) % TWO32
  }

  lemma BehindFacts(writeCount: u32, readCount: u32)
    ensures Behind(writeCount, readCount) == 0 <==> writeCount == readCount
    ensures readCount == (writeCount - Behind(writeCount, readCount)) % TWO32
    ensures Behind(writeCount, readCount) > 0 ==>
              Behind(writeCount, (readCount + 1) % TWO32) == Behind(writeCount, readCount) - 1
  {
  }

  lemma BehindShifted(writeCount: u32, n: nat)
    requires 1 < n < TWO32
    ensures Behind(writeCount, (writeCount - n + 1) % TWO32) == n - 1
  {
  }

  /** The errors a call drains: those between the two counts, or the most recent of them if more were lost. */
  function Drained(errors: seq<Entry>, writeCount: u32, readCount: u32): (r: seq<Entry>)
    requires |errors| > 1
    ensures |r| == if Behind(writeCount, readCount) > |errors| then |errors| - 1 else Behind(writeCount, readCount)
    ensures forall k :: 0 <= k < |r| ==> r[k] == ErrorAt(errors, writeCount, |r| - k)
  {
    var n := Behind(writeCount, readCount);
    var m := if n > |errors| then |errors| - 1 else n;
    seq(m, k requires 0 <= k < m => ErrorAt(errors, writeCount, m - k))
  }

  /** The error that is `back` behind the write count. */
  function ErrorAt(errors: seq<Entry>, writeCount: u32, back: nat): Entry
    requires |errors| > 1
  {
    errors[And((writeCount - back) % TWO32, |errors| - 1)]
  }

  /** The error buffer: error number n stands in slot n modulo the size, the last ones written being there. */
  ghost predicate Buffers(errors: seq<Entry>, all: seq<Entry>) {
    |errors| > 1 && And(|errors|, |errors| - 1) == 0 && TWO32 % |errors| == 0
    && forall n :: 0 <= n < |all| && n + |errors| >= |all| ==> errors[n % |errors|] == all[n]
  }

  /**
   * A call drains, in order, exactly the errors written since the last call; if the buffer was overrun, the last of
   * them, one fewer than it holds.
   */
  lemma DrainedAre(errors: seq<Entry>, all: seq<Entry>, read: nat)
    requires Buffers(errors, all) && read <= |all| && |all| - read < TWO32
    ensures Drained(errors, |all| % TWO32, read % TWO32)
            == if |all| - read <= |errors| then all[read..] else all[|all| - (|errors| - 1)..]
  {
    hide And, Behind, ErrorAt, Buffers;
    var w := |all|;
    BehindIs(w, read);
    BufferSize(errors, all);
    var d, m := Drained(errors, w % TWO32, read % TWO32), if w - read <= |errors| then w - read else |errors| - 1;
    forall k | 0 <= k < m
      ensures d[k] == all[w - m + k]
    {
      ErrorIs(errors, all, m - k);
    }
  }

  lemma BufferSize(errors: seq<Entry>, all: seq<Entry>)
    requires Buffers(errors, all)
    ensures |errors| > 1
  {
  }

  lemma ErrorIs(errors: seq<Entry>, all: seq<Entry>, back: nat)
    requires Buffers(errors, all) && 0 < back <= |errors| && back <= |all|
    ensures ErrorAt(errors, |all| % TWO32, back) == all[|all| - back]
  {
    hide And;
    MaskIsModulo((|all| % TWO32 - back) % TWO32, |errors|);
    SlotOf(|all|, back, |errors|);
  }

  lemma BehindIs(w: nat, read: nat)
    requires read <= w && w - read < TWO32
    ensures Behind(w % TWO32, read % TWO32) == w - read
  {
    var a, b := w / TWO32, read / TWO32;
    assert w == TWO32 * a + w % TWO32 && read == TWO32 * b + read % TWO32;
    assert w % TWO32 - read % TWO32 == w - read - TWO32 * (a - b);
    DropMultiple(w - read, a - b);
  }

  lemma DropMultiple(x: nat, k: int)
    requires x < TWO32
    ensures (x - TWO32 * k) % TWO32 == x
  {
  }

  /** The slot of a number, through the wrapped count. */
  lemma SlotOf(w: nat, back: nat, size: nat)
    requires 0 < size && TWO32 % size == 0 && back <= w
    ensures (w % TWO32 - back) % TWO32 % size == (w - back) % size
  {
    var a, c := w / TWO32, (w % TWO32 - back) / TWO32;
    assert (w % TWO32 - back) % TWO32 == w - back - TWO32 * (a + c);
    var q := TWO32 / size;
    assert TWO32 == size * q;
    Multiples(size, q, a + c);
    ShiftMod(w - back, (w % TWO32 - back) % TWO32, size, q * (a + c));
  }

  lemma Multiples(size: nat, q: nat, k: int)
    ensures (size * q) * k == size * (q * k)
  {
  }

  lemma ShiftMod(x: nat, y: nat, size: nat, k: int)
    requires size > 0 && y == x - size * k
    ensures y % size == x % size
  {
    var q := x / size;
    assert x == q * size + x % size;
    assert y == (q - k) * size + x % size by { LessTimes(q, k, size); }
    NotNegative(q - k, size, y, x % size);
    DivIs(y, size, q - k);
  }

  lemma LessTimes(q: int, k: int, size: nat)
    ensures (q - k) * size == q * size - size * k
  {
  }

  lemma NotNegative(n: int, size: int, y: int, r: int)
    requires y == n * size + r && 0 <= r < size && 0 <= y
    ensures 0 <= n
  {
    if n < 0 {
      Negative(n, size);
    }
  }

  lemma Negative(n: int, size: int)
    requires n < 0 <= size
    ensures n * size <= -size
  {
    assert n * size == (n + 1) * size - size;
    NotPositive(n + 1, size);
  }

  lemma NotPositive(n: int, size: int)
    requires n <= 0 <= size
    ensures n * size <= 0
  {
  }

  /** In the loop: i errors were counted, and the slot holds the last of them. */
  ghost predicate Draining(errors: seq<Entry>, writeCount: u32, read: u32, d: Dump, index: nat, i: nat, readCount: u32, w: nat, ring: seq<Entry>) {
    && |errors| > 1 && 0 < |d.ring| < TWO32 && d.w < TWO32 && index < |d.ring|
    && var batch := Drained(errors, writeCount, read);
    && i <= |batch| && w == BumpBy(d.w, |d.ring|, i)
    && Behind(writeCount, readCount) == (if i == 0 then Behind(writeCount, read) else |batch| - i)
    && ring == if i == 0 then d.ring else d.ring[index := batch[i - 1]]
  }

  lemma DrainFirst(errors: seq<Entry>, writeCount: u32, read: u32, d: Dump, index: nat)
    requires |errors| > 1 && 0 < |d.ring| < TWO32 && d.w < TWO32 && index < |d.ring|
    ensures Draining(errors, writeCount, read, d, index, 0, read, d.w, d.ring)
  {
    hide Behind;
  }

  /** One error more, after the skip if the buffer was overrun. */
  lemma DrainStep(errors: seq<Entry>, writeCount: u32, read: u32, d: Dump, index: nat, i: nat, readCount: u32, w: nat, ring: seq<Entry>)
    requires Draining(errors, writeCount, read, d, index, i, readCount, w, ring) && writeCount != readCount
    ensures index < |ring| == |d.ring| && i < |Drained(errors, writeCount, read)| && w < TWO32
    ensures var rc := if Behind(writeCount, readCount) > |errors| then (writeCount - |errors| + 1) % TWO32 else readCount;
            && 0 <= rc < TWO32
            && Draining(errors, writeCount, read, d, index, i + 1, (rc + 1) % TWO32, Bump(w, |d.ring|), ring[index := errors[And(rc, |errors| - 1)]])
  {
    hide Behind, Bump, And;
    var n, m := |errors|, |Drained(errors, writeCount, read)|;
    var rc := if Behind(writeCount, readCount) > n then (writeCount - n + 1) % TWO32 else readCount;
    NextRead(writeCount, read, readCount, n, m, i, rc);
    assert Drained(errors, writeCount, read)[i] == ErrorAt(errors, writeCount, m - i);
  }

  /** Where the loop reads, counted back from the write count. */
  lemma NextRead(writeCount: u32, read: u32, readCount: u32, n: nat, m: nat, i: nat, rc: int)
    requires 1 < n && i <= m && writeCount != readCount
    requires m == if Behind(writeCount, read) > n then n - 1 else Behind(writeCount, read)
    requires Behind(writeCount, readCount) == if i == 0 then Behind(writeCount, read) else m - i
    requires rc == if Behind(writeCount, readCount) > n then (writeCount - n + 1) % TWO32 else readCount
    ensures i < m && 0 <= rc < TWO32 && rc == (writeCount - (m - i)) % TWO32
    ensures Behind(writeCount, (rc + 1) % TWO32) == m - i - 1
  {
    hide Behind;
    BehindFacts(writeCount, readCount);
    if Behind(writeCount, readCount) > n {
      BehindSmall(writeCount, readCount);
      BehindShifted(writeCount, n);
      BehindFacts(writeCount, rc);
    }
  }

  lemma BehindSmall(writeCount: u32, readCount: u32)
    ensures Behind(writeCount, readCount) < TWO32
  {
  }

  lemma DrainLast(errors: seq<Entry>, writeCount: u32, read: u32, d: Dump, index: nat, i: nat, readCount: u32, w: nat, ring: seq<Entry>, keep: nat)
    requires Draining(errors, writeCount, read, d, index, i, readCount, w, ring) && writeCount == readCount
    requires keep < |d.ring| && index == Slot(d.w, |d.ring|, keep)
    ensures Dump(ring, w) == AddBatch(d, Drained(errors, writeCount, read), keep)
  {
    hide Behind, Bump, KeepIndex, Drained;
    BehindFacts(writeCount, readCount);
    BehindFacts(writeCount, read);
    DrainedSize(errors, writeCount, read);
  }

  lemma DrainedSize(errors: seq<Entry>, writeCount: u32, read: u32)
    requires |errors| > 1
    ensures |Drained(errors, writeCount, read)| == 0 <==> Behind(writeCount, read) == 0
  {
    hide Behind;
  }

  class HostLog {
    const ring: array<Entry>
    var w: nat
    var readCount: u32

    ghost function View(): Dump
      reads this, ring
    {
      Dump(ring[..], w)
    }

    ghost predicate Valid()
      reads this
    {
      0 < ring.Length < TWO32 && w < TWO32
    }

    constructor (ring: array<Entry>)
      requires 0 < ring.Length < TWO32
      ensures Valid() && this.ring == ring && View() == Dump(ring[..], 0) && readCount == 0
    {
      this.ring, w, readCount := ring, 0, 0;
    }

    /** amdgv_diag_data_add_error */
    method AddErrors(errors: seq<Entry>, writeCount: u32, keep: nat)
      requires Valid() && keep < ring.Length && 1 < |errors| < TWO32
      modifies this`w, this`readCount, ring
      ensures Valid() && readCount == writeCount
      ensures View() == AddBatch(old(View()), Drained(errors, writeCount, old(readCount)), keep)
    {
      hide KeepIndex, Bump, Drained, Draining, Behind;
      var total := ring.Length;
      var index := if total > w then w else KeepIndex(w, total, keep);
      ghost var d, read, i := View(), readCount, 0;
      DrainFirst(errors, writeCount, read, d, index);
      while writeCount != readCount
        invariant Valid() && Draining(errors, writeCount, read, d, index, i, readCount, w, ring[..])
        decreases |Drained(errors, writeCount, read)| - i
      {
        DrainStep(errors, writeCount, read, d, index, i, readCount, w, ring[..]);
        if Behind(writeCount, readCount) > |errors| {
          readCount := (writeCount - |errors| + 1) % TWO32;
        }
        ring[index] := errors[And(readCount, |errors| - 1)];
        readCount := (readCount + 1) % TWO32;
        w := Bump(w, total);
        i := i + 1;
      }
      DrainLast(errors, writeCount, read, d, index, i, readCount, w, ring[..], keep);
    }

    /** amdgv_diag_data_add_trace_log, on the ring of one feature */
    method AddTraceLog(e: Entry)
      requires Valid()
      modifies this`w, ring
      ensures Valid() && View() == Record(old(View()), e, 0)
    {
      hide RbIndex, Bump;
      IndexIsModulo(w, ring.Length);
      SameSlot(w, ring.Length);
      ring[RbIndex(w, ring.Length)] := e;
      w := Bump(w, ring.Length);
    }
  }
}
