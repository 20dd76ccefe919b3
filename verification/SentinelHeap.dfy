/**
 * The allocation wrappers of the memory sentinel: header and rear words around every user region, and the
 * index that must agree with a plain map from user pointers to live allocations.
 */
module SentinelHeap {
  import opened Bytes
  import opened Bitmap
  import opened SentinelIndex

  const PAGE: nat := 4096
  const HDR: nat := 8
  const REAR: nat := 8

  /** A live allocation; `base` is what the kernel allocator returned. */
  datatype Alloc = Alloc(base: nat, size: nat, typ: nat, func: nat, index: nat) {
    function User(): nat {
      UserOf(base, typ)
    }

    function Total(): nat {
      TotalOf(size, typ)
    }

    /** In both layouts the header ends where the user region starts. */
    function HeaderAt(): nat {
      User() - HDR
    }

    /** In both layouts the rear word starts where the user region ends. */
    function RearAt(): nat {
      User() + size
    }

    function Record(): Entry {
      Entry(base, func, 0, typ, Total() % TWO32)
    }
  }

  predicate Apart(a: Alloc, b: Alloc) {
    a.base + a.Total() <= b.base || b.base + b.Total() <= a.base
  }

  function U64Bytes(v: nat): (s: seq<byte>)
    requires v < TWO64
    ensures |s| == 8
  {
    U32Bytes(v % TWO32) + U32Bytes(v / TWO32)
  }

  /** The comparison of the eight bytes at o with a number. */
  predicate IsU64(s: seq<byte>, o: nat, v: nat)
    requires o + 8 <= |s|
  {
    v < TWO64 && U32At(s, o) == v % TWO32 && U32At(s, o + 4) == v / TWO32
  }

  lemma IsU64Iff(s: seq<byte>, o: nat, v: nat)
    requires o + 8 <= |s|
    ensures IsU64(s, o, v) <==> v < TWO64 && s[o..o + 8] == U64Bytes(v)
  {
    hide U32At, U32Bytes;
    if v < TWO64 {
      U32RoundTrip(s, o, v % TWO32);
      U32RoundTrip(s, o + 4, v / TWO32);
      EightBytes(s, o, U32Bytes(v % TWO32), U32Bytes(v / TWO32));
    }
  }

  lemma EightBytes(s: seq<byte>, o: nat, lo: seq<byte>, hi: seq<byte>)
    requires o + 8 <= |s| && |lo| == |hi| == 4
    ensures s[o..o + 8] == lo + hi <==> s[o..o + 4] == lo && s[o + 4..o + 8] == hi
  {
    var t := s[o..o + 8];
    assert t[..4] == s[o..o + 4] && t[4..] == s[o + 4..o + 8];
    assert (lo + hi)[..4] == lo && (lo + hi)[4..] == hi;
    if s[o..o + 4] == lo && s[o + 4..o + 8] == hi {
      assert t == t[..4] + t[4..];
    }
  }

  /** The bytes of the header are what malloc left there: size and index. */
  predicate Intact(mem: seq<byte>, a: Alloc)
    requires a.base + a.Total() <= |mem|
  {
    && a.Total() < TWO32 && mem[a.HeaderAt()..a.HeaderAt() + 4] == U32Bytes(a.Total())
    && a.index < TWO32 && mem[a.HeaderAt() + 4..a.User()] == U32Bytes(a.index)
  }

  /** So are the eight bytes behind the user region: the caller's address. */
  predicate RearIntact(mem: seq<byte>, a: Alloc)
    requires a.base + a.Total() <= |mem|
  {
    a.func < TWO64 && mem[a.RearAt()..a.RearAt() + REAR] == U64Bytes(a.func)
  }

  /** The two words free reads at the header. */
  lemma IntactIff(mem: seq<byte>, a: Alloc)
    requires a.base + a.Total() <= |mem| && a.Total() < TWO32 && a.index < TWO32
    ensures Intact(mem, a) <==> U32At(mem, a.HeaderAt()) == a.Total() && U32At(mem, a.HeaderAt() + 4) == a.index
  {
    hide U32At, U32Bytes;
    U32RoundTrip(mem, a.HeaderAt(), a.Total());
    U32RoundTrip(mem, a.HeaderAt() + 4, a.index);
  }

  type Live = map<nat, Alloc>

  ghost predicate LiveOk(live: Live, size: nat) {
    && (forall p :: p in live ==>
          live[p].User() == p && live[p].base > 0 && live[p].base + live[p].Total() <= size
          && live[p].typ <= PAGE_ALIGN && live[p].func < TWO64 && live[p].Total() < TWO32)
    && (forall p, q :: p in live && q in live && p != q ==> Apart(live[p], live[q]))
  }

  /** The index holds exactly the live allocations, each under its own number. */
  ghost predicate Agree(x: Index, live: Live) {
    && Ok(x)
    && (forall p :: p in live ==>
          live[p].index < TABLE * |x.tables| && !Free(x, live[p].index) && At(x, live[p].index) == live[p].Record())
    && (forall n: nat :: n < TABLE * |x.tables| && !Free(x, n) ==> exists p :: p in live && live[p].index == n)
  }

  /** No live user region overlaps any header or rear word, its own included. */
  lemma WordsApart(live: Live, size: nat, p: nat, q: nat)
    requires LiveOk(live, size) && p in live && q in live
    ensures p + live[p].size <= live[q].HeaderAt() || q <= p
    ensures p + live[p].size <= live[q].RearAt() || live[q].RearAt() + REAR <= p
  {
  }

  // ---- what malloc and free do to map and index ----

  lemma AgreeExtend(x: Index, live: Live, t: Table)
    requires Agree(x, live) && |x.tables| < 64 && t == EMPTY_TABLE
    ensures Grown(x, Extended(x, t)) && Agree(Extended(x, t), live)
  {
    hide Ok, Free, At, Extended, EMPTY_TABLE;
    var y := Extended(x, t);
    ExtendAdds(x, t);
    forall n: nat | n < TABLE * |y.tables| && !Free(y, n)
      ensures exists p :: p in live && live[p].index == n
    {
      assert GrownAt(x, y, n);
    }
    forall p | p in live
      ensures live[p].index < TABLE * |y.tables| && !Free(y, live[p].index) && At(y, live[p].index) == live[p].Record()
    {
      assert GrownAt(x, y, live[p].index);
    }
  }

  lemma AgreeInsert(x: Index, live: Live, y: Index, a: Alloc, size: nat)
    requires Agree(x, live) && LiveOk(live, size) && LiveOk(live[a.User() := a], size) && a.User() !in live
    requires Ok(y) && Least(x, a.index) && Changed(x, y, a.index, false, a.Record())
    ensures Agree(y, live[a.User() := a])
  {
    hide Ok, Free, At;
    var after := live[a.User() := a];
    forall p | p in after
      ensures after[p].index < TABLE * |y.tables| && !Free(y, after[p].index) && At(y, after[p].index) == after[p].Record()
    {
      if p != a.User() {
        assert after[p] == live[p] && live[p].index != a.index;
      }
    }
    forall n: nat | n < TABLE * |y.tables| && !Free(y, n)
      ensures exists p :: p in after && after[p].index == n
    {
      if n == a.index {
        assert after[a.User()].index == n;
      } else {
        var p :| p in live && live[p].index == n;
        assert p in after && after[p].index == n;
      }
    }
  }

  /** Two live allocations never share an index. */
  lemma OwnIndex(x: Index, live: Live, size: nat, p: nat, q: nat)
    requires Agree(x, live) && LiveOk(live, size) && p in live && q in live && live[p].index == live[q].index
    ensures p == q
  {
    hide Ok, Free, At;
    assert live[p].Record() == live[q].Record();
  }

  lemma AgreeRemove(x: Index, live: Live, y: Index, p: nat, size: nat)
    requires Agree(x, live) && LiveOk(live, size) && p in live
    requires Ok(y) && Changed(x, y, live[p].index, true, ZERO)
    ensures Agree(y, live - {p}) && LiveOk(live - {p}, size)
  {
    hide Ok, Free, At, LiveOk, Alloc.Record;
    LiveLess(live, p, size);
    var after := live - {p};
    forall q | q in after
      ensures after[q].index < TABLE * |y.tables| && !Free(y, after[q].index) && At(y, after[q].index) == after[q].Record()
    {
      if live[q].index == live[p].index {
        OwnIndex(x, live, size, p, q);
      }
    }
    forall n: nat | n < TABLE * |y.tables| && !Free(y, n)
      ensures exists q :: q in after && after[q].index == n
    {
      var q :| q in live && live[q].index == n;
      assert q in after && after[q].index == n;
    }
  }

  lemma LiveLess(live: Live, p: nat, size: nat)
    requires LiveOk(live, size)
    ensures LiveOk(live - {p}, size)
  {
  }

  /**
   * Whatever the header says: if the entry it names has the right type, size and base for this pointer, the
   * pointer is live and the entry is its own.
   */
  lemma CheckedEntryIsLive(x: Index, live: Live, p: nat, n: nat)
    requires Agree(x, live) && n < TABLE * |x.tables| && (forall q :: q in live ==> live[q].User() == q)
    requires p > HDR
    requires At(x, n).typ == NORMAL ==> At(x, n).pointer == p - HDR
    requires At(x, n).typ != NORMAL ==> At(x, n).typ == PAGE_ALIGN && p >= PAGE && At(x, n).pointer == p - PAGE
    ensures p in live && live[p].index == n && live[p].base == At(x, n).pointer
  {
    hide Ok;
    FreeIsZero(x, n);
    var q :| q in live && live[q].index == n;
    assert live[q].User() == q;
  }

  lemma FreeIsZero(x: Index, n: nat)
    requires Ok(x) && n < TABLE * |x.tables|
    ensures Free(x, n) ==> At(x, n) == ZERO
  {
    Whole(n);
  }

  /** A write that stays clear of an allocation leaves its words and its user data alone. */
  lemma KeptApart(mem: seq<byte>, at: nat, data: seq<byte>, a: Alloc)
    requires at + |data| <= |mem| && a.base + a.Total() <= |mem|
    requires at + |data| <= a.base || a.base + a.Total() <= at
    ensures var m := Patch(mem, at, data);
            && Intact(m, a) == Intact(mem, a) && RearIntact(m, a) == RearIntact(mem, a)
            && m[a.User()..a.User() + a.size] == mem[a.User()..a.User() + a.size]
  {
    hide U32Bytes, U64Bytes, Patch;
    SliceKept(mem, at, data, a.HeaderAt(), a.HeaderAt() + 4);
    SliceKept(mem, at, data, a.HeaderAt() + 4, a.User());
    SliceKept(mem, at, data, a.User(), a.RearAt());
    SliceKept(mem, at, data, a.RearAt(), a.RearAt() + REAR);
  }

  lemma SliceKept(mem: seq<byte>, at: nat, data: seq<byte>, x: nat, y: nat)
    requires at + |data| <= |mem| && x <= y <= |mem| && (at + |data| <= x || y <= at)
    ensures Patch(mem, at, data)[x..y] == mem[x..y]
  {
  }

  /** Writing inside the user region leaves its own words alone. */
  lemma KeptInside(mem: seq<byte>, off: nat, data: seq<byte>, a: Alloc)
    requires a.base + a.Total() <= |mem| && off + |data| <= a.size
    ensures a.User() + off + |data| <= |mem|
    ensures var m := Patch(mem, a.User() + off, data);
            Intact(m, a) == Intact(mem, a) && RearIntact(m, a) == RearIntact(mem, a)
  {
    hide U32Bytes, U64Bytes, Patch;
    KeptBehind(mem, off, data, a);
    SliceKept(mem, a.User() + off, data, a.RearAt(), a.RearAt() + REAR);
  }

  /** Writing from inside the user region on leaves the header alone. */
  lemma KeptBehind(mem: seq<byte>, off: nat, data: seq<byte>, a: Alloc)
    requires a.base + a.Total() <= |mem| && off + |data| <= a.size + REAR
    ensures a.User() + off + |data| <= |mem|
    ensures Intact(Patch(mem, a.User() + off, data), a) == Intact(mem, a)
  {
    hide U32Bytes, Patch;
    SliceKept(mem, a.User() + off, data, a.HeaderAt(), a.HeaderAt() + 4);
    SliceKept(mem, a.User() + off, data, a.HeaderAt() + 4, a.User());
  }

  /** The three writes of malloc leave exactly what free will look for. */
  lemma WordsWritten(mem: seq<byte>, a: Alloc, m1: seq<byte>, m2: seq<byte>, m3: seq<byte>)
    requires a.base + a.Total() <= |mem| && a.Total() < TWO32 && a.func < TWO64 && a.index < TWO32
    requires m1 == Patch(mem, a.HeaderAt(), U32Bytes(a.Total()))
    requires m2 == Patch(m1, a.RearAt(), U64Bytes(a.func))
    requires m3 == Patch(m2, a.HeaderAt() + 4, U32Bytes(a.index))
    ensures Intact(m3, a) && RearIntact(m3, a)
  {
    hide U32Bytes, U64Bytes, Patch;
    var h, r := a.HeaderAt(), a.RearAt();
    SlicePatched(mem, h, U32Bytes(a.Total()));
    SliceKept(m1, r, U64Bytes(a.func), h, h + 4);
    SliceKept(m2, h + 4, U32Bytes(a.index), h, h + 4);
    SlicePatched(m1, r, U64Bytes(a.func));
    SliceKept(m2, h + 4, U32Bytes(a.index), r, r + REAR);
    SlicePatched(m2, h + 4, U32Bytes(a.index));
  }

  lemma SlicePatched(mem: seq<byte>, at: nat, data: seq<byte>)
    requires at + |data| <= |mem|
    ensures Patch(mem, at, data)[at..at + |data|] == data
  {
  }

  class Sentinel {
    var tableBitmap: Word
    var tables: seq<Table>
    const mem: array<byte>
    ghost var live: Live

    ghost function View(): Index
      reads this
    {
      Index(tableBitmap, tables)
    }

    /** Map and index agree and live regions are apart; nothing is said about what memory holds. */
    ghost predicate RegionsOk()
      reads this
    {
      LiveOk(live, mem.Length) && Agree(View(), live)
    }

    ghost predicate Valid()
      reads this, mem
    {
      RegionsOk() && WordsOk(mem[..], live)
    }

    constructor (mem: array<byte>)
      ensures Valid() && live == map[] && this.mem == mem && |tables| == DEFAULT_TABLES
    {
      tableBitmap := seq(64, k => k < DEFAULT_TABLES);
      tables := seq(DEFAULT_TABLES, _ => EMPTY_TABLE);
      this.mem := mem;
      live := map[];
      InitOk(DEFAULT_TABLES);
    }

    /** gim_memroy_sentinel_extend_table when there is memory for another table. */
    method ExtendTable() returns (ok: bool)
      requires RegionsOk()
      modifies this`tableBitmap, this`tables
      ensures RegionsOk() && ok == (old(|tables|) < 64)
      ensures if ok then Grown(old(View()), View()) else View() == old(View())
    {
      hide Grown, Ok, LiveOk, Agree;
      if |tables| >= 64 {
        return false;
      }
      var t := EMPTY_TABLE;
      AgreeExtend(View(), live, t);
      tableBitmap := tableBitmap[|tables| := true];
      tables := tables + [t];
      ok := true;
    }

    method InsertEntry(e: Entry) returns (n: nat)
      requires Ok(View())
      modifies this`tableBitmap, this`tables
      ensures (View(), n) == old(Inserted(View(), e)) && Ok(View())
      ensures if old(Full(View())) then n == MAX + 1 && View() == old(View())
              else old(Least(View(), n)) && Changed(old(View()), View(), n, false, e)
    {
      InsertTakesLeast(View(), e);
      hide Free, At, Full, Least, Changed, TableOk;
      var k := NextBit(tableBitmap, 0);
      if k == 64 {
        return MAX + 1;
      }
      var i := NextBit(tables[k].row, 0);
      RowFound(k);
      var j := NextBit(tables[k].cols[i], 0);
      var t := TakeEntry(tables[k], i, j, e);
      tables := tables[k := t];
      if Empty(t.row) {
        tableBitmap := tableBitmap[k := false];
      }
      n := IndexOf(k, i, j);
    }

    lemma RowFound(k: nat)
      requires Ok(View()) && k == NextBit(tableBitmap, 0) < 64
      ensures k < |tables| && |tables[k].cols| == 64 && |tables[k].entries| == TABLE
      ensures NextBit(tables[k].row, 0) < 64 && NextBit(tables[k].cols[NextBit(tables[k].row, 0)], 0) < 64
    {
    }

    /** __gim_memory_sentinel_remove_entry: 0, or -1 for an index out of range or an entry outsiders may not remove. */
    method RemoveEntry(n: u32, internal: bool) returns (ret: int)
      requires Ok(View())
      modifies this`tableBitmap, this`tables
      ensures ret == if n < TABLE * old(|tables|) && (internal || (old(At(View(), n)).typ != NORMAL && old(At(View(), n)).typ != PAGE_ALIGN))
                     then 0 else -1
      ensures |tables| == old(|tables|)
      ensures if ret == 0 then View() == old(Removed(View(), n)) && Ok(View()) && Changed(old(View()), View(), n, true, ZERO)
              else View() == old(View())
    {
      hide Ok, Free, At, Removed, Changed, TableOk, GiveEntry;
      TablesFit();
      if n >= MAX {
        return -1;
      }
      IndexParts(n, |tables|);
      var k, e := n / TABLE % 64, n % TABLE;
      if k >= |tables| {
        return -1;
      }
      RemoveFacts(n);
      RemoveFreesOne(View(), n);
      var typ := tables[k].entries[e].typ;
      if !internal && (typ == NORMAL || typ == PAGE_ALIGN) {
        return -1;
      }
      tables := tables[k := GiveEntry(tables[k], e / 64 % 64, e % 64)];
      tableBitmap := tableBitmap[k := true];
      ret := 0;
    }

    lemma TablesFit()
      requires Ok(View())
      ensures |tables| <= 64
    {
    }

    /** The entry and the removal by table and place. */
    lemma RemoveFacts(n: nat)
      requires Ok(View()) && n < TABLE * |tables|
      ensures var k, e := n / TABLE, n % TABLE;
              && k < |tables| && |tables[k].cols| == 64 && |tables[k].entries| == TABLE
              && At(View(), n) == tables[k].entries[e]
              && Removed(View(), n) == Index(tableBitmap[k := true], tables[k := GiveEntry(tables[k], e / 64 % 64, e % 64)])
    {
      hide GiveEntry, Free;
      Whole(n);
      IndexParts(n, |tables|);
    }

    method WriteMem(at: nat, data: seq<byte>)
      requires at + |data| <= mem.Length
      modifies mem
      ensures mem[..] == Patch(old(mem[..]), at, data)
    {
      forall i | 0 <= i < |data| {
        mem[at + i] := data[i];
      }
    }

    /**
     * gim_sentinel_malloc_helper on a fresh block: the user pointer of a new live allocation, or, when every
     * table is full, the block itself, which is then not monitored.
     */
    method MallocHelper(ptr: nat, size: nat, func: nat, typ: nat) returns (ret: nat)
      requires Valid() && Fresh(live, mem.Length, Alloc(ptr, size, typ, func, 0))
      modifies this, mem
      ensures Valid()
      ensures if old(Full(View())) then ret == ptr && live == old(live) && View() == old(View())
              else exists n :: var a := Alloc(ptr, size, typ, func, n);
                     ret == a.User() == (if typ == PAGE_ALIGN then ptr + 4096 else ptr + 8) && ret !in old(live) && live == old(live)[ret := a] && old(Least(View(), n))
      ensures DataSame(old(mem[..]), mem[..], old(live))
    {
      hide LiveOk, DataSame, Agree, WordsOk, Fresh, U32Bytes, U64Bytes, Patch, Full, Least, Changed, Inserted, Ok, UserOf, TotalOf;
      var total := TotalOf(size, typ);
      var user := UserOf(ptr, typ);
      ghost var m0, x0, a0 := mem[..], View(), Alloc(ptr, size, typ, func, 0);
      MallocFacts(ptr, size, func, typ);
      WriteMem(user - HDR, U32Bytes(total));
      ghost var m1 := mem[..];
      WriteMem(user + size, U64Bytes(func));
      ghost var m2 := mem[..];
      var n := InsertEntry(Entry(ptr, func, 0, typ, total));
      MallocIndex(x0, View(), n, Entry(ptr, func, 0, typ, total));
      if n >= MAX {
        Unmonitored(live, mem.Length, a0, m0, m1, m2);
        return ptr;
      }
      WriteMem(user - HDR + 4, U32Bytes(n));
      Monitored(live, mem.Length, Alloc(ptr, size, typ, func, n), m0, m1, m2, mem[..], x0, View());
      live := live[user := Alloc(ptr, size, typ, func, n)];
      ret := user;
    }

    /** gim_memory_sentinel_get_entry_by_index */
    method GetEntryByIndex(n: u32) returns (found: bool, e: Entry)
      requires Ok(View())
      ensures found == (n < TABLE * |tables|) && (found ==> e == At(View(), n))
    {
      found, e := false, ZERO;
      if n < MAX {
        var k := n / TABLE % 64;
        if k < |tables| {
          found, e := true, tables[k].entries[n % TABLE];
        }
      }
    }

    /**
     * gim_sentinel_free_helper: the base to hand back to the kernel allocator, or 0. `valid` and
     * `accessible` are the kernel's answers about the address. Memory may hold anything.
     */
    method FreeHelper(p: nat, valid: bool, accessible: bool) returns (r: nat, warned: bool)
      requires RegionsOk() && (valid ==> HDR < p <= mem.Length)
      modifies this
      ensures RegionsOk() && |tables| == old(|tables|)
      ensures r > 0 ==>
                && valid && accessible && p in old(live) && r == old(live)[p].base && live == old(live) - {p}
                && Changed(old(View()), View(), old(live)[p].index, true, ZERO)
                && View() == Removed(old(View()), old(live)[p].index)
                && p + old(live)[p].size + 8 <= mem.Length && old(live)[p].func < TWO64
                && (warned <==> mem[p + old(live)[p].size..p + old(live)[p].size + 8] != U64Bytes(old(live)[p].func))
      ensures r == 0 ==> live == old(live) && View() == old(View()) && !warned
      ensures p in old(live) && old(live)[p].base + old(live)[p].Total() <= mem.Length ==>
                (r > 0 <==> valid && accessible && Intact(mem[..], old(live)[p]))
      ensures old(WordsOk(mem[..], live)) ==> WordsOk(mem[..], live)
    {
      hide Ok, Free, At, Changed, LiveOk, Removed, U32At, WordsOk, Agree, Intact, U64Bytes, IsU64;
      r, warned := 0, false;
      RegionFacts(p);
      HeaderFacts(p);
      if p == 0 || !valid || !accessible {
        return;
      }
      var size, n := U32At(mem[..], p - HDR), U32At(mem[..], p - 4);
      var found, e := GetEntryByIndex(n);
      if !found || size != e.size || !(e.typ == NORMAL || e.typ == PAGE_ALIGN) {
        return;
      }
      var allocPtr: int := if e.typ == NORMAL then p - HDR else p - PAGE;
      if allocPtr != e.pointer {
        return;
      }
      Checked(p, n, allocPtr);
      IsU64Iff(mem[..], p + live[p].size, live[p].func);
      var rear := allocPtr + e.size - (if e.typ == NORMAL then REAR else PAGE);
      warned := !IsU64(mem[..], rear, e.func);
      var ret := RemoveEntry(n, true);
      AgreeRemove(old(View()), live, View(), p, mem.Length);
      WordsLess(mem[..], live, p);
      live := live - {p};
      r := allocPtr;
    }

    lemma RegionFacts(p: nat)
      requires RegionsOk()
      ensures Ok(View()) && LiveOk(live, mem.Length) && Agree(View(), live)
      ensures p in live ==>
                && p == live[p].User() && live[p].base > 0 && live[p].typ <= PAGE_ALIGN && live[p].Total() < TWO32
                && live[p].HeaderAt() == p - HDR && live[p].HeaderAt() + 4 == p - 4 && live[p].base + live[p].Total() <= mem.Length
                && live[p].index < TABLE * |tables| && At(View(), live[p].index) == live[p].Record()
                && live[p].index < TWO32 && live[p].func < TWO64
    {
    }

    /** What free reads in front of a live region whose header is intact. */
    lemma HeaderFacts(p: nat)
      requires RegionsOk()
      ensures p in live && live[p].base + live[p].Total() <= mem.Length ==>
                && HDR <= p <= mem.Length
                && (Intact(mem[..], live[p]) <==> U32At(mem[..], p - HDR) == live[p].Total() && U32At(mem[..], p - 4) == live[p].index)
    {
      hide Ok, Free, At, U32At, Intact;
      RegionFacts(p);
      if p in live && live[p].base + live[p].Total() <= mem.Length {
        IntactIff(mem[..], live[p]);
      }
    }

    /** An entry that passed the checks is the one of a live allocation at p. */
    lemma Checked(p: nat, n: nat, allocPtr: int)
      requires RegionsOk() && n < TABLE * |tables| && HDR < p
      requires var e := At(View(), n);
               && (e.typ == NORMAL || e.typ == PAGE_ALIGN)
               && allocPtr == (if e.typ == NORMAL then p - HDR else p - PAGE) && allocPtr == e.pointer
      ensures p in live && live[p].index == n && live[p].base == allocPtr > 0 && At(View(), n) == live[p].Record()
      ensures live[p].RearAt() == allocPtr + At(View(), n).size - (if At(View(), n).typ == NORMAL then REAR else PAGE)
      ensures live[p].base + live[p].Total() <= mem.Length
    {
      hide Ok, Free, At, Apart;
      CheckedEntryIsLive(View(), live, p, n);
    }

    /** A user writes inside its own region; a step of the environment. */
    method UserWrite(p: nat, off: nat, data: seq<byte>)
      requires Valid() && p in live && off + |data| <= live[p].size
      modifies mem
      ensures Valid() && p + live[p].size <= mem.Length
      ensures mem[..] == Patch(old(mem[..]), p + off, data) && DataSame(old(mem[..]), mem[..], live - {p})
    {
      hide Ok, Free, At, Agree, Patch, Intact, RearIntact, LiveOk, WordsOk, DataSame;
      ghost var m0 := mem[..];
      RegionFacts(p);
      WriteMem(p + off, data);
      UserWriteKeeps(live, mem.Length, p, off, data, m0);
    }

    /**
     * A user writes from inside its region on, perhaps over its end, and frees: the free succeeds, and it warns iff the
     * write changed a byte behind the region.
     */
    method WriteThenFree(p: nat, off: nat, data: seq<byte>) returns (r: nat, warned: bool)
      requires Valid() && p in live && off + |data| <= live[p].size + REAR
      modifies this, mem
      ensures RegionsOk() && r == old(live)[p].base && live == old(live) - {p} && p + off + |data| <= mem.Length
      ensures warned <==> exists k :: 0 <= k < |data| && old(live)[p].size <= off + k && data[k] != old(mem[..])[p + off + k]
    {
      hide Ok, Free, At, Agree, LiveOk, Intact, RearIntact, U64Bytes, Changed, Removed, Patch;
      ghost var m, a := mem[..], live[p];
      RegionFacts(p);
      KeptBehind(m, off, data, a);
      RearBytes(m, a);
      WriteMem(p + off, data);
      r, warned := FreeHelper(p, true, true);
      RearChanged(m, a, off, data);
    }

    lemma MallocFacts(ptr: nat, size: nat, func: nat, typ: nat)
      requires Valid() && Fresh(live, mem.Length, Alloc(ptr, size, typ, func, 0))
      ensures Ok(View()) && LiveOk(live, mem.Length) && Agree(View(), live) && WordsOk(mem[..], live)
      ensures Fresh(live, mem.Length, Alloc(ptr, size, typ, func, 0))
      ensures UserOf(ptr, typ) + size + REAR <= mem.Length && UserOf(ptr, typ) >= HDR && TotalOf(size, typ) < TWO32 && func < TWO64
      ensures UserOf(ptr, typ) == if typ == PAGE_ALIGN then ptr + 4096 else ptr + 8
    {
    }
  }

  lemma RearBytes(mem: seq<byte>, a: Alloc)
    requires a.base + a.Total() <= |mem| && RearIntact(mem, a)
    ensures a.RearAt() + 8 <= |mem| && a.func < TWO64 && mem[a.RearAt()..a.RearAt() + 8] == U64Bytes(a.func)
  {
  }

  /** Which writes change the rear word. */
  lemma RearChanged(mem: seq<byte>, a: Alloc, off: nat, data: seq<byte>)
    requires a.base + a.Total() <= |mem| && off + |data| <= a.size + REAR
    ensures a.User() + off + |data| <= |mem|
    ensures var x, m := a.RearAt(), Patch(mem, a.User() + off, data);
            m[x..x + 8] == mem[x..x + 8] <==> !exists k :: 0 <= k < |data| && a.size <= off + k && data[k] != mem[a.User() + off + k]
  {
    var x, m := a.RearAt(), Patch(mem, a.User() + off, data);
    if k :| 0 <= k < |data| && a.size <= off + k && data[k] != mem[a.User() + off + k] {
      assert m[x..x + 8][off + k - a.size] == data[k] && mem[x..x + 8][off + k - a.size] == mem[a.User() + off + k];
    } else {
      forall j | x <= j < x + 8
        ensures m[j] == mem[j]
      {
        var k := j - a.User() - off;
        if 0 <= k < |data| {
          assert data[k] == mem[a.User() + off + k];
        }
      }
    }
  }

  /** Both layouts: the region behind eight bytes of header or a page, in front of eight bytes or a page. */
  lemma LayoutIs(a: Alloc)
    requires a.typ == NORMAL || a.typ == PAGE_ALIGN
    ensures a.typ == NORMAL ==> a.User() == a.base + 8 && a.Total() == a.size + 16
    ensures a.typ == PAGE_ALIGN ==> a.User() == a.base + 4096 && a.Total() == a.size + 8192
    ensures a.HeaderAt() == a.User() - 8 && a.RearAt() == a.User() + a.size
  {
  }

  /** A page-aligned block gives a page-aligned user pointer. */
  lemma PagesAligned(base: nat)
    requires base % 4096 == 0
    ensures UserOf(base, PAGE_ALIGN) % 4096 == 0
  {
  }

  lemma IndexParts(n: nat, t: nat)
    requires n < MAX
    ensures n / TABLE % 64 == n / TABLE && (n / TABLE < t <==> n < TABLE * t)
    ensures n % TABLE / 64 % 64 == n / 64 % 64 && n % TABLE % 64 == n % 64
  {
    Whole(n);
    assert n % TABLE == 64 * (n / 64 % 64) + n % 64;
    assert n == TABLE * (n / TABLE) + n % TABLE;
  }

  function UserOf(base: nat, typ: nat): nat {
    if typ == PAGE_ALIGN then base + PAGE else base + HDR
  }

  function TotalOf(size: nat, typ: nat): nat {
    if typ == PAGE_ALIGN then PAGE + size + PAGE else HDR + size + REAR
  }

  ghost predicate WordsOk(mem: seq<byte>, live: Live) {
    forall p :: p in live && live[p].base + live[p].Total() <= |mem| ==> Intact(mem, live[p]) && RearIntact(mem, live[p])
  }

  /** The data in the user regions is the same in both memories. */
  ghost predicate DataSame(m: seq<byte>, k: seq<byte>, live: Live) {
    |m| == |k| && forall p :: p in live && p + live[p].size <= |m| ==> m[p..p + live[p].size] == k[p..p + live[p].size]
  }

  /** What the kernel allocator promises of a block it returns. */
  ghost predicate Fresh(live: Live, size: nat, a: Alloc) {
    && a.base > 0 && a.base + a.Total() <= size && a.typ <= PAGE_ALIGN && a.func < TWO64 && a.Total() < TWO32
    && forall p :: p in live ==> Apart(live[p], a)
  }

  lemma MallocIndex(x: Index, y: Index, n: nat, e: Entry)
    requires Ok(x)
    requires if Full(x) then n == MAX + 1 && y == x else Least(x, n) && Changed(x, y, n, false, e)
    ensures n >= MAX ==> Full(x) && y == x
    ensures n < MAX ==> !Full(x) && Least(x, n) && Changed(x, y, n, false, e) && n < TWO32
  {
    hide Free, At;
  }

  /** A write inside a fresh block keeps the words and data of every live one. */
  lemma WritesKeep(live: Live, size: nat, a: Alloc, at: nat, data: seq<byte>, mem: seq<byte>)
    requires LiveOk(live, size) && |mem| == size && Fresh(live, size, a) && a.base <= at && at + |data| <= a.base + a.Total()
    ensures WordsOk(mem, live) ==> WordsOk(Patch(mem, at, data), live)
    ensures DataSame(mem, Patch(mem, at, data), live)
  {
    hide Patch, Intact, RearIntact, LiveOk, Fresh;
    assert at + |data| <= |mem| by { InBlock(live, size, a); }
    var m := Patch(mem, at, data);
    forall p | p in live
      ensures p + live[p].size <= |mem| && m[p..p + live[p].size] == mem[p..p + live[p].size]
      ensures live[p].base + live[p].Total() <= |mem|
      ensures Intact(mem, live[p]) && RearIntact(mem, live[p]) ==> Intact(m, live[p]) && RearIntact(m, live[p])
    {
      KeptLive(live, size, a, at, data, mem, p);
    }
  }

  lemma InBlock(live: Live, size: nat, a: Alloc)
    requires Fresh(live, size, a)
    ensures a.base + a.Total() <= size
  {
  }

  lemma KeptLive(live: Live, size: nat, a: Alloc, at: nat, data: seq<byte>, mem: seq<byte>, p: nat)
    requires LiveOk(live, size) && |mem| == size && Fresh(live, size, a) && a.base <= at && at + |data| <= a.base + a.Total()
    requires p in live
    ensures live[p].base + live[p].Total() <= |mem| && p + live[p].size <= |mem| && at + |data| <= |mem|
    ensures var m := Patch(mem, at, data);
            && Intact(m, live[p]) == Intact(mem, live[p]) && RearIntact(m, live[p]) == RearIntact(mem, live[p])
            && m[p..p + live[p].size] == mem[p..p + live[p].size]
  {
    hide Patch, Intact, RearIntact;
    KeptApart(mem, at, data, live[p]);
  }

  lemma WordsLess(mem: seq<byte>, live: Live, p: nat)
    ensures WordsOk(mem, live) ==> WordsOk(mem, live - {p})
  {
  }

  lemma UserWriteKeeps(live: Live, size: nat, p: nat, off: nat, data: seq<byte>, mem: seq<byte>)
    requires LiveOk(live, size) && |mem| == size && p in live && off + |data| <= live[p].size && WordsOk(mem, live)
    ensures p + live[p].size <= |mem|
    ensures WordsOk(Patch(mem, p + off, data), live) && DataSame(mem, Patch(mem, p + off, data), live - {p})
  {
    hide Intact, RearIntact, LiveOk, Patch;
    UserKept(live, size, p, off, data, mem, p);
    var m := Patch(mem, p + off, data);
    forall q | q in live
      ensures q + live[q].size <= |mem| && (q != p ==> m[q..q + live[q].size] == mem[q..q + live[q].size])
      ensures live[q].base + live[q].Total() <= |mem|
      ensures Intact(m, live[q]) == Intact(mem, live[q]) && RearIntact(m, live[q]) == RearIntact(mem, live[q])
    {
      UserKept(live, size, p, off, data, mem, q);
    }
  }

  lemma UserKept(live: Live, size: nat, p: nat, off: nat, data: seq<byte>, mem: seq<byte>, q: nat)
    requires LiveOk(live, size) && |mem| == size && p in live && off + |data| <= live[p].size && q in live
    ensures p + live[p].size <= |mem| && q + live[q].size <= |mem| && live[q].base + live[q].Total() <= |mem|
    ensures var m := Patch(mem, p + off, data);
            && (q != p ==> m[q..q + live[q].size] == mem[q..q + live[q].size])
            && Intact(m, live[q]) == Intact(mem, live[q]) && RearIntact(m, live[q]) == RearIntact(mem, live[q])
  {
    hide Intact, RearIntact, Patch;
    assert live[p].User() == p && live[q].User() == q;
    if q == p {
      KeptInside(mem, off, data, live[p]);
    } else {
      assert Apart(live[p], live[q]);
      KeptApart(mem, p + off, data, live[q]);
    }
  }

  lemma SameThrough(m: seq<byte>, k: seq<byte>, l: seq<byte>, live: Live)
    requires DataSame(m, k, live) && DataSame(k, l, live)
    ensures DataSame(m, l, live)
  {
  }

  lemma Unmonitored(live: Live, size: nat, a: Alloc, m0: seq<byte>, m1: seq<byte>, m2: seq<byte>)
    requires LiveOk(live, size) && Fresh(live, size, a) && WordsOk(m0, live) && |m0| == size
    requires m1 == Patch(m0, a.HeaderAt(), U32Bytes(a.Total()))
    requires m2 == Patch(m1, a.RearAt(), U64Bytes(a.func))
    ensures WordsOk(m2, live) && DataSame(m0, m2, live)
  {
    hide LiveOk, WordsOk, DataSame, U32Bytes, Patch, Apart;
    WritesKeep(live, size, a, a.HeaderAt(), U32Bytes(a.Total()), m0);
    WritesKeep(live, size, a, a.RearAt(), U64Bytes(a.func), m1);
    SameThrough(m0, m1, m2, live);
  }

  lemma Monitored(live: Live, size: nat, a: Alloc, m0: seq<byte>, m1: seq<byte>, m2: seq<byte>, m3: seq<byte>, x: Index, y: Index)
    requires LiveOk(live, size) && Fresh(live, size, a.(index := 0)) && WordsOk(m0, live) && |m0| == size && a.index < TWO32
    requires m1 == Patch(m0, a.HeaderAt(), U32Bytes(a.Total()))
    requires m2 == Patch(m1, a.RearAt(), U64Bytes(a.func))
    requires m3 == Patch(m2, a.HeaderAt() + 4, U32Bytes(a.index))
    requires Agree(x, live) && Ok(y) && Least(x, a.index) && Changed(x, y, a.index, false, Entry(a.base, a.func, 0, a.typ, a.Total()))
    ensures a.User() !in live
    ensures var after := live[a.User() := a];
            LiveOk(after, size) && Agree(y, after) && WordsOk(m3, after) && DataSame(m0, m3, live)
  {
    hide LiveOk, DataSame, U32Bytes, Patch, Apart, Ok, Free, At, Changed, Least, Agree, Intact, RearIntact;
    assert Fresh(live, size, a) by { OtherIndex(live, size, a); }
    Unmonitored(live, size, a, m0, m1, m2);
    WritesKeep(live, size, a, a.HeaderAt() + 4, U32Bytes(a.index), m2);
    SameThrough(m0, m2, m3, live);
    WordsWritten(m0, a, m1, m2, m3);
    NewIsNew(live, size, a);
    assert a.Record() == Entry(a.base, a.func, 0, a.typ, a.Total());
    AgreeInsert(x, live, y, a, size);
  }

  lemma OtherIndex(live: Live, size: nat, a: Alloc)
    requires Fresh(live, size, a.(index := 0))
    ensures Fresh(live, size, a)
  {
    forall p | p in live
      ensures Apart(live[p], a)
    {
      assert Apart(live[p], a.(index := 0));
    }
  }

  lemma NewIsNew(live: Live, size: nat, a: Alloc)
    requires LiveOk(live, size) && Fresh(live, size, a)
    ensures a.User() !in live && LiveOk(live[a.User() := a], size)
  {
    forall p | p in live
      ensures p != a.User()
    {
      assert Apart(live[p], a);
    }
  }
}
