/** The ring of CPER records and its cursor paging (amdgv_cper.c), against the list of everything ever committed. */
module CperRing {
  import opened Arith
  import opened Bytes

  const MAX_ALLOWED: nat := 0x1000
  const MAX_RECORD: nat := 0x2000

  /** A slot of the ring; after a live import the slots are empty although the write pointer is not zero. */
  datatype Slot = Hole | Rec(bytes: seq<byte>)

  /** hdr->record_length of what a slot holds; a hole is skipped. */
  function Len(s: Slot): nat {
    match s
    case Hole => 0
    case Rec(bytes) => |bytes|
  }

  // ---- the list of records: slot i is what was committed as number i ----

  function SizeOf(log: seq<Slot>, from: nat, end: nat): nat
    requires from <= end <= |log|
  {
    if from == end then 0 else SizeOf(log, from, end - 1) + Len(log[end - 1])
  }

  /** The bytes of the records numbered from..to, one after the other. */
  function BytesOf(log: seq<Slot>, from: nat, end: nat): (r: seq<byte>)
    requires from <= end <= |log|
    ensures |r| == SizeOf(log, from, end)
  {
    if from == end then [] else BytesOf(log, from, end - 1) + (if log[end - 1].Rec? then log[end - 1].bytes else [])
  }

  /** How many of them are records. */
  function CountOf(log: seq<Slot>, from: nat, end: nat): (n: nat)
    requires from <= end <= |log|
    ensures n <= end - from
  {
    if from == end then 0 else CountOf(log, from, end - 1) + (if log[end - 1].Rec? then 1 else 0)
  }

  predicate NoHole(log: seq<Slot>, from: nat, end: nat)
    requires from <= end <= |log|
  {
    forall i :: from <= i < end ==> log[i].Rec?
  }

  lemma {:induction false} SizeSplit(log: seq<Slot>, a: nat, b: nat, c: nat)
    requires a <= b <= c <= |log|
    ensures SizeOf(log, a, c) == SizeOf(log, a, b) + SizeOf(log, b, c)
    decreases c
  {
    if b < c {
      SizeSplit(log, a, b, c - 1);
    }
  }

  lemma {:induction false} BytesSplit(log: seq<Slot>, a: nat, b: nat, c: nat)
    requires a <= b <= c <= |log|
    ensures BytesOf(log, a, c) == BytesOf(log, a, b) + BytesOf(log, b, c)
    decreases c
  {
    if b < c {
      BytesSplit(log, a, b, c - 1);
    }
  }

  /** Every number visited is a record iff there are as many records as numbers. */
  lemma {:induction false} CountsAllIff(log: seq<Slot>, from: nat, end: nat)
    requires from <= end <= |log|
    ensures CountOf(log, from, end) == end - from <==> NoHole(log, from, end)
    decreases end
  {
    if end > from {
      CountsAllIff(log, from, end - 1);
      if NoHole(log, from, end) {
        assert log[end - 1].Rec?;
      }
    }
  }

  /** Each record stands whole at the place the sizes of those before it give. */
  lemma {:induction false} RecordStands(log: seq<Slot>, from: nat, end: nat, k: nat)
    requires from <= k < end <= |log| && log[k].Rec?
    ensures var at := SizeOf(log, from, k);
            at + |log[k].bytes| <= |BytesOf(log, from, end)| && BytesOf(log, from, end)[at..at + |log[k].bytes|] == log[k].bytes
    decreases end
  {
    if k < end - 1 {
      RecordStands(log, from, end - 1, k);
    }
  }

  /** CPER_MOVE_TO_FIRST_VALID: the first record number still in the ring. */
  function First(w: nat, max: nat, rptr: nat): (f: nat)
    ensures rptr <= w ==> rptr <= f <= w
  {
    if rptr > w then w else if w - rptr > max then w - max else rptr
  }

  /** It is the least number from the cursor on whose slot was not used again; a cursor beyond the end is moved to it. */
  lemma FirstIsHeld(w: nat, max: nat, rptr: nat)
    ensures var f, start := First(w, max, rptr), if rptr < w then rptr else w;
            start <= f <= w <= f + max && (f > start ==> f - 1 + max < w)
  {
  }

  /** Where a page that starts at `from` ends: at the first record that does not fit. */
  function PageEnd(log: seq<Slot>, from: nat, room: nat): (end: nat)
    requires from <= |log|
    ensures from <= end <= |log|
    decreases |log| - from
  {
    if from == |log| || Len(log[from]) > room then from else PageEnd(log, from + 1, room - Len(log[from]))
  }

  /** A page is as long as it can be: it fits, and the next record would not. */
  lemma {:induction false} PageIsLongest(log: seq<Slot>, from: nat, room: nat)
    requires from <= |log|
    ensures var end := PageEnd(log, from, room);
            && SizeOf(log, from, end) <= room
            && (end < |log| ==> SizeOf(log, from, end + 1) > room)
    decreases |log| - from
  {
    if from < |log| && Len(log[from]) <= room {
      var end := PageEnd(log, from, room);
      PageIsLongest(log, from + 1, room - Len(log[from]));
      SizeSplit(log, from, from + 1, end);
      assert SizeOf(log, from, from) == 0;
      if end < |log| {
        SizeSplit(log, from, from + 1, end + 1);
      }
    } else if from < |log| {
      assert SizeOf(log, from, from) == 0;
    }
  }

  // ---- the ring ----

  ghost predicate AllSmall(s: seq<Slot>) {
    forall i :: 0 <= i < |s| ==> Len(s[i]) <= MAX_RECORD
  }

  class Cper {
    var max: nat
    var count: nat
    var wptr: nat
    var ring: array<Slot>
    ghost var log: seq<Slot>

    /** The ring holds the most recent records, each in the slot of its number. */
    ghost predicate Valid()
      reads this, ring
    {
      && 0 < max <= MAX_ALLOWED && ring.Length == MAX_ALLOWED && wptr == |log|
      && AllSmall(log) && AllSmall(ring[..])
      && (forall i :: 0 <= i < |log| && i + max >= |log| ==> ring[i % max] == log[i])
    }

    /** amdgv_cper_sw_init; a negative option disables the ring, which is not modelled further. */
    constructor (opt: nat)
      ensures Valid() && log == [] && count == 0
      ensures max == if 0 < opt <= 0x1000 then opt else 0x1000
    {
      max := if 0 < opt <= MAX_ALLOWED then opt else MAX_ALLOWED;
      count, wptr, log := 0, 0, [];
      ring := new Slot[MAX_ALLOWED](_ => Hole);
    }

    /** amdgv_cper_import_live_data: the pointer moves, the slots keep what they hold, which on a fresh ring is nothing. */
    method ImportLiveData(newMax: nat, newCount: nat, newWptr: nat)
      requires Valid()
      modifies this
      ensures Valid() && wptr == newWptr && count == newCount && ring == old(ring)
      ensures max == if 0 < newMax <= MAX_ALLOWED then newMax else MAX_ALLOWED
      ensures log == Found(ring[..], max, newWptr)
    {
      max := if 0 < newMax <= MAX_ALLOWED then newMax else MAX_ALLOWED;
      count, wptr := newCount, newWptr;
      log := Found(ring[..], max, newWptr);
    }

    /** amdgv_cper_commit_entry */
    method CommitEntry(hdr: seq<byte>)
      requires Valid() && |hdr| <= MAX_RECORD
      modifies this`count, this`wptr, this`log, ring
      ensures Valid() && log == old(log) + [Rec(hdr)] && count == old(count) + 1
    {
      var i := wptr % max;
      ring[i] := Rec(hdr);
      SlotsDiffer(wptr, max);
      count := count + 1;
      wptr := wptr + 1;
      log := log + [Rec(hdr)];
    }

    /** amdgv_cper_get_count */
    method GetCount(rptr: nat) returns (w: nat, avail: nat, size: nat)
      requires Valid()
      ensures w == |log| && avail == w - First(w, max, rptr) && avail <= max
      ensures size == SizeOf(log, First(w, max, rptr), w)
    {
      var r := if rptr > wptr then wptr else rptr;
      var first := First(wptr, max, r);
      avail, w, size := wptr - first, wptr, 0;
      var i := first;
      while i < wptr
        invariant first <= i <= wptr && size == SizeOf(log, first, i)
      {
        size := size + Len(ring[i % max]);
        i := i + 1;
      }
    }

    /** amdgv_cper_get_entries: one page of records, the number lost before it, and the size of the rest. */
    method GetEntries(rptr: nat, buf: array<byte>, bufSize: nat) returns (writeCount: nat, overflow: nat, left: nat)
      requires Valid() && bufSize <= buf.Length
      modifies buf
      ensures var first := First(|log|, max, rptr);
              var end := PageEnd(log, first, bufSize);
              && SizeOf(log, first, end) <= bufSize
              && buf[..] == Patch(old(buf[..]), 0, BytesOf(log, first, end))
              && writeCount == CountOf(log, first, end)
              && left == SizeOf(log, end, |log|)
              && overflow == first - (if rptr > |log| then |log| else rptr)
    {
      hide SizeOf, BytesOf, CountOf, PageEnd, Patch;
      var r := if rptr > wptr then wptr else rptr;
      var first := First(wptr, max, r);
      overflow := first - r;
      PageIsLongest(log, first, bufSize);
      var i;
      writeCount, i := FillPage(first, buf, bufSize);
      left := RestSize(first, i);
    }

    /** The loop that fills the caller's buffer, up to the first record that does not fit. */
    method FillPage(first: nat, buf: array<byte>, bufSize: nat) returns (writeCount: nat, i: nat)
      requires Valid() && bufSize <= buf.Length && first <= |log| <= first + max
      modifies buf
      ensures i == PageEnd(log, first, bufSize) && writeCount == CountOf(log, first, i)
      ensures |BytesOf(log, first, i)| <= bufSize && buf[..] == Patch(old(buf[..]), 0, BytesOf(log, first, i))
    {
      hide SizeOf, BytesOf, CountOf, PageEnd, Patch, AllSmall, InPage;
      ghost var buf0 := buf[..];
      var offset: nat := 0;
      writeCount, i := 0, first;
      PageFirst(log, first, buf0);
      while i < wptr
        invariant first <= i <= wptr && InPage(log, first, i, buf0, bufSize, offset, writeCount, buf[..])
      {
        var hdr := ring[i % max];
        PageStep(log, first, i, max, buf0, bufSize, offset, writeCount, buf[..]);
        if hdr.Hole? {
          i := i + 1;
          continue;
        }
        if (offset + |hdr.bytes|) % TWO32 > bufSize {
          break;
        }
        WriteAt(buf, offset, hdr.bytes);
        offset, writeCount, i := offset + |hdr.bytes|, writeCount + 1, i + 1;
      }
      PageDone(log, first, i, buf0, bufSize, offset, writeCount, buf[..]);
    }

    /** The loop that adds up what did not fit. */
    method RestSize(first: nat, from: nat) returns (left: nat)
      requires Valid() && first <= from <= |log| <= first + max
      ensures left == SizeOf(log, from, |log|)
    {
      left := 0;
      var i := from;
      while i < wptr
        invariant from <= i <= wptr && left == SizeOf(log, from, i)
      {
        left := left + Len(ring[i % max]);
        i := i + 1;
      }
    }

    method WriteAt(buf: array<byte>, at: nat, data: seq<byte>)
      requires at + |data| <= buf.Length
      modifies buf
      ensures buf[..] == Patch(old(buf[..]), at, data)
    {
      forall i | 0 <= i < |data| {
        buf[at + i] := data[i];
      }
    }
  }

  /** What the slots amount to when the write pointer stands at w: numbers out of reach are holes. */
  ghost function Found(ring: seq<Slot>, max: nat, w: nat): (log: seq<Slot>)
    requires 0 < max <= |ring|
    ensures |log| == w
  {
    seq(w, i requires 0 <= i < w => if i + max >= w then ring[i % max] else Hole)
  }

  /** Inside the page loop: everything before i that is a record was written. */
  ghost predicate InPage(log: seq<Slot>, first: nat, i: nat, buf0: seq<byte>, bufSize: nat, offset: nat, n: nat, buf: seq<byte>) {
    && first <= i <= |log| && offset == SizeOf(log, first, i) <= bufSize <= |buf0| && n == CountOf(log, first, i)
    && PageEnd(log, i, bufSize - offset) == PageEnd(log, first, bufSize)
    && buf == Patch(buf0, 0, BytesOf(log, first, i))
  }

  lemma PageFirst(log: seq<Slot>, first: nat, buf0: seq<byte>)
    requires first <= |log|
    ensures forall bufSize: nat :: bufSize <= |buf0| ==> InPage(log, first, first, buf0, bufSize, 0, 0, buf0)
  {
    PatchEmpty(buf0, 0);
  }

  /** What one turn may find: a hole, a record that fits, or the end of the page. */
  lemma PageStep(log: seq<Slot>, first: nat, i: nat, max: nat, buf0: seq<byte>, bufSize: nat, offset: nat, n: nat, buf: seq<byte>)
    requires InPage(log, first, i, buf0, bufSize, offset, n, buf) && i < |log|
    requires |log| - first <= max <= MAX_ALLOWED && AllSmall(log)
    ensures |buf| == |buf0| && offset <= bufSize <= |buf0|
    ensures log[i].Hole? ==> InPage(log, first, i + 1, buf0, bufSize, offset, n, buf)
    ensures log[i].Rec? ==> (offset + |log[i].bytes|) % TWO32 == offset + |log[i].bytes|
    ensures log[i].Rec? && offset + |log[i].bytes| <= bufSize ==>
              InPage(log, first, i + 1, buf0, bufSize, offset + |log[i].bytes|, n + 1, Patch(buf, offset, log[i].bytes))
    ensures log[i].Rec? && offset + |log[i].bytes| > bufSize ==> i == PageEnd(log, first, bufSize)
  {
    hide InPage;
    PageFacts(log, first, i, max, buf0, bufSize, offset, n, buf);
    if log[i].Hole? {
      PageHole(log, first, i, buf0, bufSize, offset, n, buf);
    } else if offset + |log[i].bytes| <= bufSize {
      PageRecord(log, first, i, buf0, bufSize, offset, n, buf);
    }
  }

  lemma PageFacts(log: seq<Slot>, first: nat, i: nat, max: nat, buf0: seq<byte>, bufSize: nat, offset: nat, n: nat, buf: seq<byte>)
    requires InPage(log, first, i, buf0, bufSize, offset, n, buf) && i < |log|
    requires |log| - first <= max <= MAX_ALLOWED && AllSmall(log)
    ensures |buf| == |buf0| && offset <= bufSize <= |buf0| && (offset + Len(log[i])) % TWO32 == offset + Len(log[i])
    ensures offset + Len(log[i]) > bufSize ==> i == PageEnd(log, first, bufSize)
  {
    OffsetSmall(log, first, i, max);
  }

  lemma PageHole(log: seq<Slot>, first: nat, i: nat, buf0: seq<byte>, bufSize: nat, offset: nat, n: nat, buf: seq<byte>)
    requires InPage(log, first, i, buf0, bufSize, offset, n, buf) && i < |log| && log[i].Hole?
    ensures InPage(log, first, i + 1, buf0, bufSize, offset, n, buf)
  {
    hide Patch;
    assert BytesOf(log, first, i) + [] == BytesOf(log, first, i);
  }

  lemma PageRecord(log: seq<Slot>, first: nat, i: nat, buf0: seq<byte>, bufSize: nat, offset: nat, n: nat, buf: seq<byte>)
    requires InPage(log, first, i, buf0, bufSize, offset, n, buf) && i < |log| && log[i].Rec? && offset + |log[i].bytes| <= bufSize
    ensures offset + |log[i].bytes| <= |buf|
    ensures InPage(log, first, i + 1, buf0, bufSize, offset + |log[i].bytes|, n + 1, Patch(buf, offset, log[i].bytes))
  {
    hide Patch;
    PatchTwice(buf0, 0, BytesOf(log, first, i), log[i].bytes);
  }

  lemma PageDone(log: seq<Slot>, first: nat, i: nat, buf0: seq<byte>, bufSize: nat, offset: nat, n: nat, buf: seq<byte>)
    requires InPage(log, first, i, buf0, bufSize, offset, n, buf) && (i == |log| || i == PageEnd(log, first, bufSize))
    ensures i == PageEnd(log, first, bufSize) && n == CountOf(log, first, i)
    ensures |BytesOf(log, first, i)| <= bufSize <= |buf0| && buf == Patch(buf0, 0, BytesOf(log, first, i))
  {
  }

  /** Within a window of `max` numbers no two share a slot. */
  lemma SlotsDiffer(w: nat, max: nat)
    requires max > 0
    ensures forall i :: 0 <= i < w && i + max > w ==> i % max != w % max
  {
    forall i | 0 <= i < w && i + max > w
      ensures i % max != w % max
    {
      ModDiffers(i, w - i, max);
    }
  }

  lemma ModDiffers(i: nat, d: nat, max: nat)
    requires 0 < d < max
    ensures (i + d) % max != i % max
  {
    var q, r := i / max, i % max;
    assert i == q * max + r;
    if r + d < max {
      DivIs(i + d, max, q);
    } else {
      assert (q + 1) * max == q * max + max;
      DivIs(i + d, max, q + 1);
    }
  }

  /** The 32-bit offset never wraps: the window is short and records are small. */
  lemma {:induction false} OffsetSmall(log: seq<Slot>, first: nat, i: nat, max: nat)
    requires first <= i < |log| && |log| - first <= max <= MAX_ALLOWED && AllSmall(log)
    ensures SizeOf(log, first, i) <= (i - first) * MAX_RECORD
    ensures SizeOf(log, first, i) + Len(log[i]) < TWO32
    decreases i
  {
    if first < i {
      OffsetSmall(log, first, i - 1, max);
    }
  }

  // ---- paging ----

  /** What get_count announces is what the page writes plus what it reports as left. */
  lemma CountIsWrittenPlusLeft(log: seq<Slot>, max: nat, rptr: nat, room: nat)
    ensures var first := First(|log|, max, rptr);
            var end := PageEnd(log, first, room);
            SizeOf(log, first, |log|) == |BytesOf(log, first, end)| + SizeOf(log, end, |log|)
  {
    var first := First(|log|, max, rptr);
    SizeSplit(log, first, PageEnd(log, first, room), |log|);
  }

  /** The cursor a caller computes, its old value plus overflow plus write count, is where a page ended. */
  predicate CursorRight(log: seq<Slot>, max: nat, rptr: nat, room: nat)
    requires rptr <= |log|
  {
    var first := First(|log|, max, rptr);
    var end := PageEnd(log, first, room);
    rptr + (first - rptr) + CountOf(log, first, end) == end
  }

  lemma CursorCounts(log: seq<Slot>, max: nat, rptr: nat, room: nat)
    requires rptr <= |log|
    ensures var first := First(|log|, max, rptr);
            CursorRight(log, max, rptr, room) <==> NoHole(log, first, PageEnd(log, first, room))
  {
    var first := First(|log|, max, rptr);
    CountsAllIff(log, first, PageEnd(log, first, room));
  }

  /** Holes come from an import, so they come first. */
  predicate HolesFirst(log: seq<Slot>, h: nat) {
    h <= |log| && forall i :: 0 <= i < |log| ==> log[i].Hole? == (i < h)
  }

  /** With h holes in front the cursor comes out right, for a page of any size, iff the page starts behind them. */
  lemma CursorIsRightIff(log: seq<Slot>, h: nat, max: nat, rptr: nat, room: nat)
    requires rptr <= |log| && HolesFirst(log, h)
    ensures CursorRight(log, max, rptr, room) <==> h <= First(|log|, max, rptr)
  {
    hide CountOf;
    CursorCounts(log, max, rptr, room);
  }

  /** An import on a fresh ring and the commits after it. */
  function Imported(w: nat, recs: seq<seq<byte>>): (log: seq<Slot>)
    ensures |log| == w + |recs| && HolesFirst(log, w)
  {
    seq(w, _ => Hole) + seq(|recs|, i requires 0 <= i < |recs| => Rec(recs[i]))
  }

  /** Then a reader's cursor is right iff it has passed the imported count, or so many were committed that no hole is left. */
  lemma CursorAfterImportIff(w: nat, recs: seq<seq<byte>>, max: nat, rptr: nat, room: nat)
    requires rptr <= w + |recs|
    ensures CursorRight(Imported(w, recs), max, rptr, room) <==> w <= rptr || max <= |recs|
  {
    hide CursorRight, Imported;
    CursorIsRightIff(Imported(w, recs), w, max, rptr, room);
  }

  /** One imported record, nothing committed, a reader that starts at 0: the page ends at 1, the cursor stays at 0. */
  lemma StuckCursor(room: nat)
    ensures !CursorRight(Imported(1, []), MAX_ALLOWED, 0, room)
    ensures PageEnd(Imported(1, []), 0, room) == 1 && CountOf(Imported(1, []), 0, 1) == 0
  {
    CursorAfterImportIff(1, [], MAX_ALLOWED, 0, room);
    assert Imported(1, [])[0] == Hole;
  }

  /** An import on a fresh ring leaves such a log. */
  lemma FreshImport(ring: seq<Slot>, max: nat, w: nat)
    requires 0 < max <= |ring| && forall i :: 0 <= i < |ring| ==> ring[i] == Hole
    ensures Found(ring, max, w) == Imported(w, [])
  {
  }

  /** A reader between pages: its cursor, the numbers of the records it got, and how many it was told it lost. */
  datatype Reader = Reader(rptr: nat, got: seq<nat>, lost: nat)

  datatype Event = Commit(rec: seq<byte>) | ReadPage(room: nat)

  function Numbers(from: nat, end: nat): (r: seq<nat>)
    requires from <= end
    ensures |r| == end - from
  {
    seq(end - from, k requires 0 <= k < end - from => from + k)
  }

  function Next(log: seq<Slot>, max: nat, r: Reader, e: Event): (seq<Slot>, Reader)
    requires r.rptr <= |log|
  {
    match e
    case Commit(rec) => (log + [Rec(rec)], r)
    case ReadPage(room) =>
      var first := First(|log|, max, r.rptr);
      var end := PageEnd(log, first, room);
      (log, Reader(r.rptr + (first - r.rptr) + CountOf(log, first, end), r.got + Numbers(first, end), r.lost + (first - r.rptr)))
  }

  /** Everything below the cursor was delivered once, in order, or counted as lost. */
  ghost predicate Accounted(log: seq<Slot>, start: nat, r: Reader) {
    && start <= r.rptr <= |log| && NoHole(log, start, |log|)
    && (forall x, y :: 0 <= x < y < |r.got| ==> r.got[x] < r.got[y])
    && (forall x :: 0 <= x < |r.got| ==> start <= r.got[x] < r.rptr)
    && |r.got| + r.lost == r.rptr - start
  }

  lemma NextAccounted(log: seq<Slot>, max: nat, start: nat, r: Reader, e: Event)
    requires Accounted(log, start, r)
    ensures var (log', r') := Next(log, max, r, e); Accounted(log', start, r') && log <= log'
  {
    hide PageEnd, CountOf;
    if e.ReadPage? {
      var first := First(|log|, max, r.rptr);
      CursorCounts(log, max, r.rptr, e.room);
    }
  }

  ghost function Run(log: seq<Slot>, max: nat, r: Reader, es: seq<Event>): (seq<Slot>, Reader)
    requires exists start :: Accounted(log, start, r)
    decreases |es|
  {
    if es == [] then (log, r) else
      var start :| Accounted(log, start, r);
      NextAccounted(log, max, start, r, es[0]);
      var (log', r') := Next(log, max, r, es[0]);
      Run(log', max, r', es[1..])
  }

  /**
   * Over any run of commits and pages of any size, on a ring without holes: the records delivered are in
   * commit order, none twice, and exactly those not delivered below the cursor were reported as lost.
   */
  lemma {:induction false} PagingAccounts(log: seq<Slot>, max: nat, start: nat, r: Reader, es: seq<Event>)
    requires Accounted(log, start, r)
    ensures var (log', r') := Run(log, max, r, es); Accounted(log', start, r')
    decreases |es|
  {
    hide Next, NoHole;
    if es != [] {
      NextAccounted(log, max, start, r, es[0]);
      var (log', r') := Next(log, max, r, es[0]);
      PagingAccounts(log', max, start, r', es[1..]);
    }
  }
}
