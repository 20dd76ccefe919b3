/** Iterating over the set bits of a 32-bit mask (amdgv_device.h). */
module SetBits {
  import opened Arith
  import opened Bytes

  const END: nat := 0xFFFF_FFFF

  // ---- amdgv_ffs ----

  /** Indexed only by 1, 2, 4 and 8. */
  const LOOKUP: seq<nat> := [0, 1, 2, 0, 3, 0, 0, 0, 4]

  /** -n as a 32-bit word. */
  function Negated(n: u32): u32 {
    (TWO32 - n) % TWO32
  }

  /** The lowest set bit, counted from one; 0 for no bit. */
  method Ffs(n: u32) returns (r: nat)
    ensures n == 0 ==> r == 0
    ensures n != 0 ==> 0 < r <= 32 && IsLowest(n, r - 1)
  {
    if n == 0 {
      return 0;
    }
    var i := And(n, Negated(n));
    ghost var k := LowestBit(n);
    LowBitOnly(n, k);
    hide *;
    r := Position(i, k);
  }

  /** The branches of amdgv_ffs on a word with one bit set. */
  method Position(one: nat, ghost k: nat) returns (r: nat)
    requires k < 32 && one == Pow2(k)
    ensures r == k + 1
  {
    hide Pow2;
    Powers();
    var i, c, shift := one, 0, 0;
    ghost var m := k;
    PowLess(k, 16);
    if i > 0xffff {
      PowQuotient(k, 16);
      i, c := i / 0x10000, 16;
      m := k - 16;
    }
    PowLess(m, 8);
    PowLess(m, 4);
    PowLess(m, 12);
    if i <= 0xff {
      shift := if i <= 0xf then 0 else 4;
    } else {
      shift := if i <= 0xfff then 8 else 12;
    }
    PowQuotient(m, shift);
    r := LOOKUP[i / Pow2(shift)] + shift + c;
  }

  lemma Powers()
    ensures Pow2(0) == 1 && Pow2(1) == 2 && Pow2(2) == 4 && Pow2(3) == 8
    ensures Pow2(4) == 0x10 && Pow2(8) == 0x100 && Pow2(12) == 0x1000 && Pow2(16) == 0x1_0000
  {
    assert Pow2(4) == 16 && Pow2(8) == 256 && Pow2(12) == 4096;
    Pow2Split(12, 4);
  }

  lemma {:induction false} PowLess(a: nat, b: nat)
    ensures Pow2(a) < Pow2(b) <==> a < b
  {
    if a > 0 && b > 0 {
      PowLess(a - 1, b - 1);
    }
  }

  lemma PowQuotient(k: nat, m: nat)
    ensures k >= m ==> Pow2(k) / Pow2(m) == Pow2(k - m)
  {
    if k >= m {
      Pow2Split(k - m, m);
      MulDiv(Pow2(k - m), Pow2(m));
    }
  }

  ghost predicate IsLowest(n: nat, k: nat) {
    Bit(n, k) && forall j :: 0 <= j < k ==> !Bit(n, j)
  }

  lemma {:induction false} LowestBit(n: nat) returns (k: nat)
    requires 0 < n < TWO32
    ensures k < 32 && IsLowest(n, k)
  {
    Pow2Word();
    k := LowestBelow(n, 32);
  }

  lemma {:induction false} LowestBelow(n: nat, w: nat) returns (k: nat)
    requires 0 < n < Pow2(w)
    ensures k < w && IsLowest(n, k)
    decreases w
  {
    if n % 2 == 1 {
      k := 0;
    } else {
      var h := LowestBelow(n / 2, w - 1);
      k := h + 1;
      forall j | 0 <= j < k
        ensures !Bit(n, j)
      {
        assert j > 0 ==> Bit(n, j) == Bit(n / 2, j - 1);
      }
    }
  }

  /** m & ~m == 0 on w bits. */
  lemma {:induction false} AndComplement(m: nat, w: nat)
    requires m < Pow2(w)
    ensures And(m, Pow2(w) - 1 - m) == 0
    decreases w
  {
    if w > 0 && m > 0 {
      var c := Pow2(w) - 1 - m;
      assert c / 2 == Pow2(w - 1) - 1 - m / 2 && c % 2 == 1 - m % 2;
      AndComplement(m / 2, w - 1);
    }
  }

  /** n & -n is the lowest set bit of n alone. */
  lemma {:induction false} LowBitIs(n: nat, w: nat, k: nat)
    requires 0 < n < Pow2(w) && k < w && IsLowest(n, k)
    ensures And(n, Pow2(w) - n) == Pow2(k)
    decreases w
  {
    var c := Pow2(w) - n;
    AndParts(n, c);
    if k == 0 {
      assert c / 2 == Pow2(w - 1) - 1 - n / 2;
      AndComplement(n / 2, w - 1);
    } else {
      assert !Bit(n, 0);
      assert c / 2 == Pow2(w - 1) - n / 2;
      forall j | 0 <= j < k - 1
        ensures !Bit(n / 2, j)
      {
        assert Bit(n, j + 1) == Bit(n / 2, j);
      }
      LowBitIs(n / 2, w - 1, k - 1);
    }
  }

  lemma AndParts(a: nat, b: nat)
    ensures And(a, b) == (if a % 2 == 1 && b % 2 == 1 then 1 else 0) + 2 * And(a / 2, b / 2)
  {
  }

  lemma LowBitOnly(n: u32, k: nat)
    requires n > 0 && k < 32 && IsLowest(n, k)
    ensures And(n, Negated(n)) == Pow2(k)
  {
    hide And, Pow2, IsLowest;
    Pow2Word();
    LowBitIs(n, 32, k);
  }

  lemma {:induction false} Pow2Split(a: nat, b: nat)
    ensures Pow2(a + b) == Pow2(a) * Pow2(b)
    decreases a
  {
    if a > 0 {
      Pow2Split(a - 1, b);
      assert 2 * (Pow2(a - 1) * Pow2(b)) == (2 * Pow2(a - 1)) * Pow2(b);
    }
  }

  // ---- amdgv_fill ----

  const TABLE: seq<u32> := [
    0xfffffffe, 0xfffffffc, 0xfffffff8, 0xfffffff0, 0xffffffe0, 0xffffffc0, 0xffffff80, 0xffffff00,
    0xfffffe00, 0xfffffc00, 0xfffff800, 0xfffff000, 0xffffe000, 0xffffc000, 0xffff8000, 0xffff0000,
    0xfffe0000, 0xfffc0000, 0xfff80000, 0xfff00000, 0xffe00000, 0xffc00000, 0xff800000, 0xff000000,
    0xfe000000, 0xfc000000, 0xf8000000, 0xf0000000, 0xe0000000, 0xc0000000, 0x80000000, 0x0]

  function Fill(idx: nat): u32 {
    if idx > 31 then 0 else TABLE[idx]
  }

  lemma {:induction false} FillIs(i: nat)
    requires i < 32
    ensures Fill(i) == TWO32 - Pow2(i + 1)
  {
    if i > 0 {
      FillIs(i - 1);
      TableStep(i);
      hide Fill;
      assert Pow2(i + 1) == 2 * Pow2(i);
    }
  }

  /** An index past the table fills nothing. */
  lemma FillBeyond(i: nat)
    requires 31 < i
    ensures Fill(i) == 0
  {
  }

  lemma TableStep(i: nat)
    requires 0 < i < 32
    ensures Fill(i) == 2 * Fill(i - 1) - TWO32
  {
  }

  lemma {:induction false} HighBits(w: nat, j: nat, k: nat)
    requires j <= w
    ensures Pow2(j) <= Pow2(w)
    ensures Bit(Pow2(w) - Pow2(j), k) == (j <= k < w)
    decreases w, k
  {
    if j == w {
      ZeroBits(k);
    } else if j == 0 {
      HighBits(w - 1, 0, if k > 0 then k - 1 else 0);
      assert (Pow2(w) - 1) / 2 == Pow2(w - 1) - 1;
    } else {
      HighBits(w - 1, j - 1, if k > 0 then k - 1 else 0);
      assert (Pow2(w) - Pow2(j)) / 2 == Pow2(w - 1) - Pow2(j - 1);
    }
  }

  lemma {:induction false} AndBits(a: nat, b: nat, k: nat)
    ensures Bit(And(a, b), k) == (Bit(a, k) && Bit(b, k))
    decreases k
  {
    AndParts(a, b);
    hide And;
    if k > 0 {
      AndBits(a / 2, b / 2, k - 1);
      assert And(a, b) / 2 == And(a / 2, b / 2);
    }
  }

  /** mask & amdgv_fill(i) keeps exactly the bits above i. */
  lemma FilledBits(mask: u32, i: nat, k: nat)
    requires i < 32
    ensures Bit(And(mask, Fill(i)), k) == (Bit(mask, k) && i < k < 32)
  {
    FillIs(i);
    Pow2Word();
    HighBits(32, i + 1, k);
    AndBits(mask, Fill(i), k);
  }

  lemma {:induction false} BitBelow(n: nat, w: nat, k: nat)
    requires n < Pow2(w) && Bit(n, k)
    ensures k < w
    decreases w, k
  {
    if w == 0 {
      ZeroBits(k);
    } else if k > 0 {
      BitBelow(n / 2, w - 1, k - 1);
    }
  }

  // ---- for_each_id ----

  ghost predicate Visited(mask: u32, ids: seq<nat>, upto: nat) {
    && (forall x, y :: 0 <= x < y < |ids| ==> ids[x] < ids[y])
    && (forall k: nat :: k in ids <==> k < upto && Bit(mask, k))
  }

  /** Every set bit, each once, in increasing order; bit 31 included. */
  method ForEachId(mask: u32) returns (ids: seq<nat>)
    ensures forall x, y :: 0 <= x < y < |ids| ==> ids[x] < ids[y]
    ensures forall k: nat :: k in ids <==> k < 32 && Bit(mask, k)
  {
    hide Visited, Bit, And, Fill;
    ids := [];
    var f := Ffs(mask);
    var i: nat := (f - 1) % TWO32;
    FirstVisit(mask, f);
    while i != END
      invariant i == END || i < 32
      invariant Visited(mask, ids, if i == END then 32 else i)
      invariant i < 32 ==> Bit(mask, i)
      decreases if i == END then 0 else 32 - i
    {
      ghost var was := i;
      ids := ids + [i];
      f := Ffs(And(mask, Fill(i)));
      i := (f - 1) % TWO32;
      NextVisit(mask, ids[..|ids| - 1], ids, was, f);
    }
    VisitedAll(mask, ids);
  }

  lemma FirstVisit(mask: u32, f: nat)
    requires f <= 32 && (if f == 0 then mask == 0 else IsLowest(mask, f - 1))
    ensures Visited(mask, [], if f == 0 then 32 else f - 1) && (f > 0 ==> Bit(mask, f - 1))
  {
    if f == 0 {
      forall k: nat
        ensures !Bit(mask, k)
      {
        ZeroBits(k);
      }
    }
  }

  lemma NextVisit(mask: u32, before: seq<nat>, ids: seq<nat>, i: nat, f: nat)
    requires i < 32 && Visited(mask, before, i) && Bit(mask, i) && ids == before + [i]
    requires f <= 32 && (if f == 0 then And(mask, Fill(i)) == 0 else IsLowest(And(mask, Fill(i)), f - 1))
    ensures Visited(mask, ids, if f == 0 then 32 else f - 1)
    ensures f > 0 ==> i < f - 1 < 32 && Bit(mask, f - 1)
  {
    hide Bit, And, Fill;
    var rest := And(mask, Fill(i));
    if f > 0 {
      FilledBits(mask, i, f - 1);
    }
    forall k: nat
      ensures k in ids <==> k < (if f == 0 then 32 else f - 1) && Bit(mask, k)
    {
      FilledBits(mask, i, k);
      if f == 0 {
        ZeroBits(k);
      } else {
        assert k < f - 1 ==> !Bit(rest, k);
      }
    }
    forall x, y | 0 <= x < y < |ids|
      ensures ids[x] < ids[y]
    {
      assert ids[x] in before;
    }
  }

  lemma VisitedAll(mask: u32, ids: seq<nat>)
    requires Visited(mask, ids, 32)
    ensures forall x, y :: 0 <= x < y < |ids| ==> ids[x] < ids[y]
    ensures forall k: nat :: k in ids <==> k < 32 && Bit(mask, k)
  {
  }
}
