/**
 * The three-level index of the memory sentinel (gim_memory_sentinel.c): a word of free tables, per table
 * a word of rows that are not full, per row a word of free columns, and the entries themselves. A 64-bit
 * word is modelled by its 64 bits.
 */
module SentinelIndex {
  import opened Bitmap

  type Word = w: seq<bool> | |w| == 64 witness seq(64, _ => false)

  const ALL: Word := seq(64, _ => true)
  const NONE: Word := seq(64, _ => false)

  const TABLE: nat := 4096
  const MAX: nat := 64 * TABLE
  const DEFAULT_TABLES: nat := 4

  const NORMAL: nat := 0
  const PAGE_ALIGN: nat := 1

  datatype Entry = Entry(pointer: nat, func: nat, status: nat, typ: nat, size: nat)

  const ZERO: Entry := Entry(0, 0, 0, 0, 0)

  datatype Table = Table(row: Word, cols: seq<Word>, entries: seq<Entry>)

  datatype Index = Index(tableBitmap: Word, tables: seq<Table>)

  ghost predicate TableOk(t: Table) {
    && |t.cols| == 64 && |t.entries| == TABLE
    && (forall i :: 0 <= i < 64 ==> t.row[i] == !Empty(t.cols[i]))
    && (forall i, j :: 0 <= i < 64 && 0 <= j < 64 && t.cols[i][j] ==> t.entries[64 * i + j] == ZERO)
  }

  /** A row bit is set iff the row has a free column, a table bit iff the table has a row that is not full. */
  ghost predicate Ok(x: Index) {
    && |x.tables| <= 64
    && (forall k :: 0 <= k < |x.tables| ==> TableOk(x.tables[k]))
    && (forall k :: 0 <= k < 64 ==> x.tableBitmap[k] == (k < |x.tables| && !Empty(x.tables[k].row)))
  }

  ghost predicate Shaped(x: Index) {
    forall k :: 0 <= k < |x.tables| ==> |x.tables[k].cols| == 64 && |x.tables[k].entries| == TABLE
  }

  /** The set the three levels stand for. */
  ghost predicate Free(x: Index, n: nat)
    requires Shaped(x)
  {
    n < TABLE * |x.tables| && x.tables[n / TABLE].cols[n / 64 % 64][n % 64]
  }

  ghost function At(x: Index, n: nat): Entry
    requires Shaped(x) && n < TABLE * |x.tables|
  {
    x.tables[n / TABLE].entries[n % TABLE]
  }

  /** The least free index. */
  ghost predicate Least(x: Index, n: nat)
    requires Shaped(x)
  {
    Free(x, n) && forall m: nat :: m < n ==> !Free(x, m)
  }

  ghost predicate Full(x: Index)
    requires Shaped(x)
  {
    forall m: nat :: !Free(x, m)
  }

  /** y is x but for index n, which is free in y iff `free` says so and holds e. */
  ghost predicate Changed(x: Index, y: Index, n: nat, free: bool, e: Entry) {
    && Shaped(x) && Shaped(y) && |y.tables| == |x.tables| && n < TABLE * |x.tables|
    && Free(y, n) == free && At(y, n) == e
    && forall m: nat :: m < TABLE * |x.tables| && m != n ==> Free(y, m) == Free(x, m) && At(y, m) == At(x, m)
  }

  function IndexOf(k: nat, i: nat, j: nat): nat {
    TABLE * k + 64 * i + j
  }

  lemma Parts(k: nat, i: nat, j: nat)
    requires i < 64 && j < 64
    ensures var n := IndexOf(k, i, j);
            n / TABLE == k && n / 64 % 64 == i && n % 64 == j && n % TABLE == 64 * i + j
  {
    var n := IndexOf(k, i, j);
    assert n / 64 == 64 * k + i;
  }

  lemma Whole(n: nat)
    ensures n == IndexOf(n / TABLE, n / 64 % 64, n % 64) && n / 64 % 64 < 64 && n % 64 < 64
    ensures n % TABLE == 64 * (n / 64 % 64) + n % 64
  {
    assert n / 64 / 64 == n / TABLE;
    assert n == 64 * (n / 64) + n % 64;
    assert n / 64 == 64 * (n / 64 / 64) + n / 64 % 64;
  }

  // ---- insert and remove on values ----

  function TakeEntry(t: Table, i: nat, j: nat, e: Entry): Table
    requires |t.cols| == 64 && |t.entries| == TABLE && i < 64 && j < 64
  {
    var col: Word := t.cols[i][j := false];
    Table(if Empty(col) then t.row[i := false] else t.row, t.cols[i := col], t.entries[64 * i + j := e])
  }

  function GiveEntry(t: Table, i: nat, j: nat): Table
    requires |t.cols| == 64 && |t.entries| == TABLE && i < 64 && j < 64
  {
    Table(t.row[i := true], t.cols[i := t.cols[i][j := true]], t.entries[64 * i + j := ZERO])
  }

  ghost function Inserted(x: Index, e: Entry): (Index, nat)
    requires Ok(x)
  {
    if Empty(x.tableBitmap) then (x, MAX + 1) else
      var k := NextBit(x.tableBitmap, 0);
      var i := NextBit(x.tables[k].row, 0);
      var j := NextBit(x.tables[k].cols[i], 0);
      var t := TakeEntry(x.tables[k], i, j, e);
      (Index(if Empty(t.row) then x.tableBitmap[k := false] else x.tableBitmap, x.tables[k := t]), IndexOf(k, i, j))
  }

  ghost function Removed(x: Index, n: nat): Index
    requires Ok(x) && n < TABLE * |x.tables|
  {
    var k := n / TABLE;
    Index(x.tableBitmap[k := true], x.tables[k := GiveEntry(x.tables[k], n / 64 % 64, n % 64)])
  }

  lemma TakeOk(t: Table, i: nat, j: nat, e: Entry)
    requires TableOk(t) && i < 64 && j < 64 && t.cols[i][j]
    ensures TableOk(TakeEntry(t, i, j, e))
  {
  }

  lemma GiveOk(t: Table, i: nat, j: nat)
    requires TableOk(t) && i < 64 && j < 64
    ensures TableOk(GiveEntry(t, i, j)) && !Empty(GiveEntry(t, i, j).row)
  {
    var g := GiveEntry(t, i, j);
    assert g.cols[i][j] && g.row[i];
  }

  /**
   * Insert takes the least free index and nothing else changes; it fails exactly when every created
   * table is full, and then changes nothing.
   */
  lemma InsertTakesLeast(x: Index, e: Entry)
    requires Ok(x)
    ensures var (y, n) := Inserted(x, e);
            && Ok(y)
            && if Full(x) then n == MAX + 1 && y == x else Least(x, n) && Changed(x, y, n, false, e)
  {
    hide Free, At, Changed, IndexOf;
    if Empty(x.tableBitmap) {
      forall m: nat
        ensures !Free(x, m)
      {
        NotFree(x, m);
      }
    } else {
      var k := NextBit(x.tableBitmap, 0);
      var i := NextBit(x.tables[k].row, 0);
      var j := NextBit(x.tables[k].cols[i], 0);
      LeastFree(x, k, i, j);
      TakenOk(x, k, i, j, e);
      var (y, n) := Inserted(x, e);
      TakenChanges(x, k, i, j, e, y);
    }
  }

  lemma NotFree(x: Index, m: nat)
    requires Ok(x) && (m < TABLE * |x.tables| ==> !x.tableBitmap[m / TABLE])
    ensures !Free(x, m)
  {
    if m < TABLE * |x.tables| {
      Whole(m);
    }
  }

  lemma LeastFree(x: Index, k: nat, i: nat, j: nat)
    requires Ok(x) && k == NextBit(x.tableBitmap, 0) < |x.tables|
    requires i == NextBit(x.tables[k].row, 0) < 64 && j == NextBit(x.tables[k].cols[i], 0) < 64
    ensures Least(x, IndexOf(k, i, j))
  {
    var n := IndexOf(k, i, j);
    Parts(k, i, j);
    forall m: nat | m < n
      ensures !Free(x, m)
    {
      BelowIsTaken(x, k, i, j, m);
    }
  }

  lemma BelowIsTaken(x: Index, k: nat, i: nat, j: nat, m: nat)
    requires Ok(x) && k == NextBit(x.tableBitmap, 0) < |x.tables|
    requires i == NextBit(x.tables[k].row, 0) < 64 && j == NextBit(x.tables[k].cols[i], 0) < 64
    requires m < IndexOf(k, i, j)
    ensures !Free(x, m)
  {
    Whole(m);
    if m / TABLE < k {
      NotFree(x, m);
    }
  }

  lemma TakenOk(x: Index, k: nat, i: nat, j: nat, e: Entry)
    requires Ok(x) && k < |x.tables| && x.tableBitmap[k] && i < 64 && j < 64 && x.tables[k].cols[i][j]
    ensures var t := TakeEntry(x.tables[k], i, j, e);
            Ok(Index(if Empty(t.row) then x.tableBitmap[k := false] else x.tableBitmap, x.tables[k := t]))
  {
    hide TableOk, TakeEntry;
    TakeOk(x.tables[k], i, j, e);
  }

  lemma TakenChanges(x: Index, k: nat, i: nat, j: nat, e: Entry, y: Index)
    requires Shaped(x) && k < |x.tables| && i < 64 && j < 64 && y.tables == x.tables[k := TakeEntry(x.tables[k], i, j, e)]
    ensures Changed(x, y, IndexOf(k, i, j), false, e)
  {
    hide Free, At;
    Parts(k, i, j);
    forall m: nat | m < TABLE * |x.tables|
      ensures if m == IndexOf(k, i, j) then !Free(y, m) && At(y, m) == e else Free(y, m) == Free(x, m) && At(y, m) == At(x, m)
    {
      TakenAt(x, k, i, j, e, y, m);
    }
  }

  lemma TakenAt(x: Index, k: nat, i: nat, j: nat, e: Entry, y: Index, m: nat)
    requires Shaped(x) && k < |x.tables| && i < 64 && j < 64 && y.tables == x.tables[k := TakeEntry(x.tables[k], i, j, e)]
    requires Shaped(y) && m < TABLE * |x.tables|
    ensures if m == IndexOf(k, i, j) then !Free(y, m) && At(y, m) == e else Free(y, m) == Free(x, m) && At(y, m) == At(x, m)
  {
    Parts(k, i, j);
    Whole(m);
  }

  lemma GivenAt(x: Index, n: nat, y: Index, m: nat)
    requires Shaped(x) && n < TABLE * |x.tables| && m < TABLE * |x.tables| && Shaped(y)
    requires y.tables == x.tables[n / TABLE := GiveEntry(x.tables[n / TABLE], n / 64 % 64, n % 64)]
    ensures if m == n then Free(y, m) && At(y, m) == ZERO else Free(y, m) == Free(x, m) && At(y, m) == At(x, m)
  {
    Whole(n);
    Whole(m);
  }

  /** Remove frees exactly that index and clears its entry. */
  lemma RemoveFreesOne(x: Index, n: nat)
    requires Ok(x) && n < TABLE * |x.tables|
    ensures Ok(Removed(x, n)) && Changed(x, Removed(x, n), n, true, ZERO)
  {
    var y, k := Removed(x, n), n / TABLE;
    GivenOk(x, k, n / 64 % 64, n % 64);
    hide Free, At, GiveEntry, TableOk;
    forall m: nat | m < TABLE * |x.tables|
      ensures if m == n then Free(y, m) && At(y, m) == ZERO else Free(y, m) == Free(x, m) && At(y, m) == At(x, m)
    {
      GivenAt(x, n, y, m);
    }
  }

  lemma GivenOk(x: Index, k: nat, i: nat, j: nat)
    requires Ok(x) && k < |x.tables| && i < 64 && j < 64
    ensures Ok(Index(x.tableBitmap[k := true], x.tables[k := GiveEntry(x.tables[k], i, j)]))
    ensures Shaped(Index(x.tableBitmap[k := true], x.tables[k := GiveEntry(x.tables[k], i, j)]))
  {
    hide GiveEntry;
    GiveOk(x.tables[k], i, j);
  }

  /** Removing what was just inserted restores all three levels and every entry. */
  lemma RemoveUndoesInsert(x: Index, e: Entry)
    requires Ok(x) && !Full(x)
    ensures var (y, n) := Inserted(x, e); n < TABLE * |y.tables| && Ok(y) && Removed(y, n) == x
  {
    hide Free, At, TakeEntry, GiveEntry;
    InsertTakesLeast(x, e);
    if Empty(x.tableBitmap) {
      assert false;
    }
    var k := NextBit(x.tableBitmap, 0);
    var i := NextBit(x.tables[k].row, 0);
    var j := NextBit(x.tables[k].cols[i], 0);
    Parts(k, i, j);
    TakeGive(x.tables[k], i, j, e);
    var (y, n) := Inserted(x, e);
    assert Removed(y, n).tables == x.tables;
    assert Removed(y, n).tableBitmap == x.tableBitmap;
  }

  lemma TakeGive(t: Table, i: nat, j: nat, e: Entry)
    requires TableOk(t) && i < 64 && j < 64 && t.row[i] && t.cols[i][j]
    ensures GiveEntry(TakeEntry(t, i, j, e), i, j) == t
  {
    var g := GiveEntry(TakeEntry(t, i, j, e), i, j);
    assert t.cols[i][j := false][j := true] == t.cols[i];
    assert g.cols == t.cols;
    assert g.entries == t.entries;
    assert g.row == t.row;
  }

  const EMPTY_TABLE: Table := Table(ALL, seq(64, _ => ALL), seq(TABLE, _ => ZERO))

  function Extended(x: Index, t: Table): Index
    requires |x.tables| < 64
  {
    Index(x.tableBitmap[|x.tables| := true], x.tables + [t])
  }

  /** y has one table more than x: its indices are free and its entries zero, everything else is as in x. */
  ghost predicate Grown(x: Index, y: Index) {
    Shaped(x) && Shaped(y) && |y.tables| == |x.tables| + 1 && forall m: nat :: GrownAt(x, y, m)
  }

  ghost predicate GrownAt(x: Index, y: Index, m: nat)
    requires Shaped(x) && Shaped(y)
  {
    && Free(y, m) == (Free(x, m) || TABLE * |x.tables| <= m < TABLE * |y.tables|)
    && (m < TABLE * |x.tables| && m < TABLE * |y.tables| ==> At(y, m) == At(x, m))
    && (TABLE * |x.tables| <= m < TABLE * |y.tables| ==> At(y, m) == ZERO)
  }

  /** One more table: its indices become free and nothing else changes. */
  lemma ExtendAdds(x: Index, t: Table)
    requires Ok(x) && |x.tables| < 64 && t == EMPTY_TABLE
    ensures Ok(Extended(x, t)) && Grown(x, Extended(x, t))
  {
    EmptyOk(t);
    hide TableOk, GrownAt;
    ExtendedShaped(x, t);
    forall m: nat
      ensures GrownAt(x, Extended(x, t), m)
    {
      ExtendedAt(x, t, m);
    }
  }

  lemma ExtendedAt(x: Index, t: Table, m: nat)
    requires Shaped(x) && |x.tables| < 64 && Shaped(Extended(x, t)) && t == EMPTY_TABLE
    ensures GrownAt(x, Extended(x, t), m)
  {
    Whole(m);
  }

  lemma ExtendedShaped(x: Index, t: Table)
    requires Ok(x) && |x.tables| < 64 && TableOk(t)
    ensures Shaped(x) && Shaped(Extended(x, t))
  {
  }

  lemma EmptyOk(t: Table)
    requires t == EMPTY_TABLE
    ensures TableOk(t) && !Empty(t.row)
  {
    assert t.row[0];
    forall i | 0 <= i < 64
      ensures !Empty(t.cols[i])
    {
      assert t.cols[i][0];
    }
  }

  /** The four default tables of gim_memory_sentinel_init. */
  lemma InitOk(n: nat)
    requires n <= 64
    ensures var x := Index(seq(64, k => k < n), seq(n, _ => EMPTY_TABLE));
            Ok(x) && forall m: nat :: Free(x, m) <==> m < TABLE * n
  {
    var x := Index(seq(64, k => k < n), seq(n, _ => EMPTY_TABLE));
    var empty := EMPTY_TABLE;
    EmptyOk(empty);
    forall m: nat
      ensures Free(x, m) <==> m < TABLE * n
    {
      Whole(m);
    }
  }
}
