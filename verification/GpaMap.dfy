/** A guest-physical range as the driver sees it: cut into chunks of physically contiguous memory. */
module GpaMap {
  import opened Bytes

  /** The rest of a folio from `offset` on, cut to what the range needs. */
  datatype Chunk = Chunk(folio: nat, offset: nat, size: nat) {
    function Base(): nat {
      folio + offset
    }
  }

  function Sum(cs: seq<Chunk>): nat {
    if cs == [] then 0 else Sum(cs[..|cs| - 1]) + cs[|cs| - 1].size
  }

  /** Where byte o of the range lies in physical memory. */
  function Addr(cs: seq<Chunk>, o: nat): nat
    requires o < Sum(cs)
  {
    var n := |cs| - 1;
    if o < Sum(cs[..n]) then Addr(cs[..n], o) else cs[n].Base() + (o - Sum(cs[..n]))
  }

  /** Where byte k of an access at `off` lies. */
  function Loc(cs: seq<Chunk>, off: nat, k: nat): nat
    requires off + k < Sum(cs)
  {
    Addr(cs, off + k)
  }

  ghost predicate Inside(cs: seq<Chunk>, size: nat) {
    forall i :: 0 <= i < |cs| ==> cs[i].Base() + cs[i].size <= size
  }

  lemma {:induction false} SumPrefix(cs: seq<Chunk>, i: nat)
    requires i <= |cs|
    ensures Sum(cs[..i]) <= Sum(cs)
    ensures i < |cs| ==> Sum(cs[..i + 1]) == Sum(cs[..i]) + cs[i].size && Sum(cs[..i]) + cs[i].size <= Sum(cs)
    decreases |cs|
  {
    if i < |cs| {
      assert cs[..i + 1][..i] == cs[..i];
      var init := cs[..|cs| - 1];
      if i + 1 < |cs| {
        SumPrefix(init, i);
        assert init[..i] == cs[..i] && init[..i + 1] == cs[..i + 1];
      } else {
        assert cs[..i + 1] == cs;
      }
    } else {
      assert cs[..i] == cs;
    }
  }

  /** Byte d of chunk i. */
  lemma {:induction false} AddrIn(cs: seq<Chunk>, i: nat, d: nat)
    requires i < |cs| && d < cs[i].size
    ensures Sum(cs[..i]) + d < Sum(cs) && Addr(cs, Sum(cs[..i]) + d) == cs[i].Base() + d
    decreases |cs|
  {
    SumPrefix(cs, i);
    var init := cs[..|cs| - 1];
    if i + 1 < |cs| {
      SumPrefix(init, i);
      AddrIn(init, i, d);
      assert init[..i] == cs[..i];
    } else {
      assert cs[..i] == init;
    }
  }

  /** The chunks partition the range: every byte of it lies in exactly one of them. */
  lemma {:induction false} ChunkOf(cs: seq<Chunk>, o: nat) returns (i: nat)
    requires o < Sum(cs)
    ensures i < |cs| && Sum(cs[..i]) <= o < Sum(cs[..i + 1]) == Sum(cs[..i]) + cs[i].size
    ensures forall j :: 0 <= j < |cs| && Sum(cs[..j]) <= o < Sum(cs[..j + 1]) ==> j == i
    decreases |cs|
  {
    var n := |cs| - 1;
    var init := cs[..n];
    SumPrefix(cs, n);
    if o < Sum(init) {
      i := ChunkOf(init, o);
      assert init[..i] == cs[..i] && init[..i + 1] == cs[..i + 1];
    } else {
      i := n;
    }
    forall j | 0 <= j < |cs| && Sum(cs[..j]) <= o < Sum(cs[..j + 1])
      ensures j == i
    {
      if j < i {
        SumMono(cs, j + 1, i);
      } else if i < j {
        SumMono(cs, i + 1, j);
      }
    }
  }

  lemma SumMono(cs: seq<Chunk>, i: nat, j: nat)
    requires i <= j <= |cs|
    ensures Sum(cs[..i]) <= Sum(cs[..j])
  {
    SumPrefix(cs[..j], i);
    assert cs[..j][..i] == cs[..i];
  }

  lemma {:induction false} AddrInside(cs: seq<Chunk>, o: nat, size: nat)
    requires Inside(cs, size) && o < Sum(cs)
    ensures Addr(cs, o) < size
    decreases |cs|
  {
    var n := |cs| - 1;
    if o < Sum(cs[..n]) {
      AddrInside(cs[..n], o, size);
    }
  }

  // ---- the range as one flat byte array ----

  /** Byte after byte, in order. */
  ghost function WriteFlat(mem: seq<byte>, cs: seq<Chunk>, off: nat, data: seq<byte>): (r: seq<byte>)
    requires Inside(cs, |mem|) && off + |data| <= Sum(cs)
    ensures |r| == |mem|
    decreases |data|
  {
    if data == [] then mem else
      var n := |data| - 1;
      AddrInside(cs, off + n, |mem|);
      WriteFlat(mem, cs, off, data[..n])[Loc(cs, off, n) := data[n]]
  }

  ghost function ReadFlat(mem: seq<byte>, cs: seq<Chunk>, off: nat, n: nat): (r: seq<byte>)
    requires Inside(cs, |mem|) && off + n <= Sum(cs)
    ensures |r| == n
  {
    seq(n, k requires 0 <= k < n => AddrInside(cs, off + k, |mem|); mem[Loc(cs, off, k)])
  }

  ghost predicate Injective(cs: seq<Chunk>, off: nat, n: nat)
    requires off + n <= Sum(cs)
  {
    forall j, k :: 0 <= j < k < n ==> Loc(cs, off, j) != Loc(cs, off, k)
  }

  /** What a write leaves at an address: the last byte written there, or what was there. */
  lemma {:induction false} WrittenAt(mem: seq<byte>, cs: seq<Chunk>, off: nat, data: seq<byte>, k: nat)
    requires Inside(cs, |mem|) && off + |data| <= Sum(cs) && k < |data| && Loc(cs, off, k) < |mem|
    requires forall j :: k < j < |data| ==> Loc(cs, off, j) != Loc(cs, off, k)
    ensures WriteFlat(mem, cs, off, data)[Loc(cs, off, k)] == data[k]
    decreases |data|
  {
    var n := |data| - 1;
    AddrInside(cs, off + n, |mem|);
    if k < n {
      WrittenAt(mem, cs, off, data[..n], k);
    }
  }

  /** Bytes no written offset maps to stay what they were. */
  lemma {:induction false} UntouchedAt(mem: seq<byte>, cs: seq<Chunk>, off: nat, data: seq<byte>, a: nat)
    requires Inside(cs, |mem|) && off + |data| <= Sum(cs) && a < |mem|
    requires forall k :: 0 <= k < |data| ==> Loc(cs, off, k) != a
    ensures WriteFlat(mem, cs, off, data)[a] == mem[a]
    decreases |data|
  {
    if data != [] {
      AddrInside(cs, off + |data| - 1, |mem|);
      UntouchedAt(mem, cs, off, data[..|data| - 1], a);
    }
  }

  /**
   * Reading back what was written gives the buffer, for every buffer of that size, iff no two of the
   * written offsets share a physical byte.
   */
  lemma ReadAfterWriteIff(mem: seq<byte>, cs: seq<Chunk>, off: nat, n: nat)
    requires Inside(cs, |mem|) && off + n <= Sum(cs)
    ensures (forall data: seq<byte> :: |data| == n ==> ReadFlat(WriteFlat(mem, cs, off, data), cs, off, n) == data)
            <==> Injective(cs, off, n)
  {
    hide WriteFlat, ReadFlat, Injective, Inside, Sum;
    if Injective(cs, off, n) {
      forall data: seq<byte> | |data| == n
        ensures ReadFlat(WriteFlat(mem, cs, off, data), cs, off, n) == data
      {
        ReadsBack(mem, cs, off, data);
      }
    } else {
      var data := AliasBreaks(mem, cs, off, n);
      assert ReadFlat(WriteFlat(mem, cs, off, data), cs, off, n) != data;
    }
  }

  lemma AliasBreaks(mem: seq<byte>, cs: seq<Chunk>, off: nat, n: nat) returns (data: seq<byte>)
    requires Inside(cs, |mem|) && off + n <= Sum(cs) && !Injective(cs, off, n)
    ensures |data| == n && ReadFlat(WriteFlat(mem, cs, off, data), cs, off, n) != data
  {
    hide WriteFlat, ReadFlat, Inside, Sum;
    var j, k :| 0 <= j < k < n && Loc(cs, off, j) == Loc(cs, off, k);
    data := seq(n, i => if i == j then 1 else 0);
    var m := WriteFlat(mem, cs, off, data);
    StillInside(cs, mem, m);
    ReadAt(m, cs, off, n, j);
    ReadAt(m, cs, off, n, k);
    assert data[j] == 1 && data[k] == 0;
  }

  lemma StillInside(cs: seq<Chunk>, mem: seq<byte>, m: seq<byte>)
    requires Inside(cs, |mem|) && |m| == |mem|
    ensures Inside(cs, |m|)
  {
  }

  lemma ReadAt(mem: seq<byte>, cs: seq<Chunk>, off: nat, n: nat, k: nat)
    requires Inside(cs, |mem|) && off + n <= Sum(cs) && k < n
    ensures Loc(cs, off, k) < |mem| && ReadFlat(mem, cs, off, n)[k] == mem[Loc(cs, off, k)]
  {
    AddrInside(cs, off + k, |mem|);
  }

  lemma ReadsBack(mem: seq<byte>, cs: seq<Chunk>, off: nat, data: seq<byte>)
    requires Inside(cs, |mem|) && off + |data| <= Sum(cs) && Injective(cs, off, |data|)
    ensures ReadFlat(WriteFlat(mem, cs, off, data), cs, off, |data|) == data
  {
    hide ReadFlat, WriteFlat, Inside, Sum;
    var m := WriteFlat(mem, cs, off, data);
    StillInside(cs, mem, m);
    forall k | 0 <= k < |data|
      ensures ReadFlat(m, cs, off, |data|)[k] == data[k]
    {
      ReadAt(m, cs, off, |data|, k);
      WrittenAt(mem, cs, off, data, k);
    }
  }

  /** A range that shares no physical byte with what is written reads the same before and after. */
  lemma ReadElsewhere(mem: seq<byte>, cs: seq<Chunk>, off: nat, data: seq<byte>, at: nat, n: nat)
    requires Inside(cs, |mem|) && off + |data| <= Sum(cs) && at + n <= Sum(cs)
    requires forall j, k :: 0 <= j < |data| && 0 <= k < n ==> Loc(cs, off, j) != Loc(cs, at, k)
    ensures ReadFlat(WriteFlat(mem, cs, off, data), cs, at, n) == ReadFlat(mem, cs, at, n)
  {
    hide ReadFlat, WriteFlat, Inside, Sum;
    var m := WriteFlat(mem, cs, off, data);
    StillInside(cs, mem, m);
    forall k | 0 <= k < n
      ensures ReadFlat(m, cs, at, n)[k] == ReadFlat(mem, cs, at, n)[k]
    {
      ReadAt(m, cs, at, n, k);
      ReadAt(mem, cs, at, n, k);
      UntouchedAt(mem, cs, off, data, Loc(cs, at, k));
    }
  }

  // ---- inside one chunk the flat copy is a block copy ----

  lemma {:induction false} WriteAppend(mem: seq<byte>, cs: seq<Chunk>, off: nat, a: seq<byte>, b: seq<byte>)
    requires Inside(cs, |mem|) && off + |a| + |b| <= Sum(cs)
    ensures WriteFlat(mem, cs, off, a + b) == WriteFlat(WriteFlat(mem, cs, off, a), cs, off + |a|, b)
    decreases |b|
  {
    if b == [] {
      assert a + b == a;
    } else {
      var n := |b| - 1;
      assert (a + b)[..|a + b| - 1] == a + b[..n];
      WriteAppend(mem, cs, off, a, b[..n]);
    }
  }

  lemma {:induction false} WriteBlock(mem: seq<byte>, cs: seq<Chunk>, i: nat, d: nat, data: seq<byte>)
    requires Inside(cs, |mem|) && i < |cs| && d + |data| <= cs[i].size
    ensures Sum(cs[..i]) + d + |data| <= Sum(cs) && cs[i].Base() + d + |data| <= |mem|
    ensures WriteFlat(mem, cs, Sum(cs[..i]) + d, data) == Patch(mem, cs[i].Base() + d, data)
    decreases |data|
  {
    SumPrefix(cs, i);
    if data == [] {
      PatchEmpty(mem, cs[i].Base() + d);
    } else {
      var n := |data| - 1;
      AddrIn(cs, i, d + n);
      WriteBlock(mem, cs, i, d, data[..n]);
    }
  }

  lemma LocIn(cs: seq<Chunk>, i: nat, d: nat, off: nat, k: nat)
    requires i < |cs| && d + k < cs[i].size && off == Sum(cs[..i]) + d
    ensures off + k < Sum(cs) && Loc(cs, off, k) == cs[i].Base() + d + k
  {
    AddrIn(cs, i, d + k);
  }

  lemma BlockInside(cs: seq<Chunk>, i: nat, d: nat, n: nat, size: nat)
    requires Inside(cs, size) && i < |cs| && d + n <= cs[i].size
    ensures Sum(cs[..i]) + d + n <= Sum(cs) && cs[i].Base() + d + n <= size
  {
    SumPrefix(cs, i);
  }

  lemma ReadBlock(mem: seq<byte>, cs: seq<Chunk>, i: nat, d: nat, n: nat)
    requires Inside(cs, |mem|) && i < |cs| && d + n <= cs[i].size
    ensures Sum(cs[..i]) + d + n <= Sum(cs) && cs[i].Base() + d + n <= |mem|
    ensures ReadFlat(mem, cs, Sum(cs[..i]) + d, n) == mem[cs[i].Base() + d..cs[i].Base() + d + n]
  {
    hide *;
    BlockInside(cs, i, d, n, |mem|);
    var off, b := Sum(cs[..i]) + d, cs[i].Base() + d;
    var r, m := ReadFlat(mem, cs, off, n), mem[b..b + n];
    forall k | 0 <= k < n
      ensures r[k] == m[k]
    {
      ReadAt(mem, cs, off, n, k);
      LocIn(cs, i, d, off, k);
    }
  }

  lemma ReadAppend(mem: seq<byte>, cs: seq<Chunk>, off: nat, m: nat, n: nat)
    requires Inside(cs, |mem|) && off + m + n <= Sum(cs)
    ensures ReadFlat(mem, cs, off, m + n) == ReadFlat(mem, cs, off, m) + ReadFlat(mem, cs, off + m, n)
  {
  }
}
