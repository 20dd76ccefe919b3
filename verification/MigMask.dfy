/** The ring of gim_mig.c is a power of two long, and every space and pointer formula masks a 64-bit difference. */
module MigMask {
  import opened Arith
  import opened Bytes
  import opened MigRing
  import DiagRing
  import SetBits

  lemma {:induction false} PowerTest(k: nat)
    ensures And(Pow2(k), Pow2(k) - 1) == 0
    decreases k
  {
    hide And;
    DiagRing.AndStep(Pow2(k), Pow2(k) - 1);
    if k > 0 {
      PowerTest(k - 1);
      assert Pow2(k) % 2 == 0 && Pow2(k) / 2 == Pow2(k - 1) && (Pow2(k) - 1) / 2 == Pow2(k - 1) - 1;
    } else {
      AndNone(0);
    }
  }

  lemma AndNone(a: nat)
    ensures And(a, 0) == 0
  {
  }

  lemma RemainderIs(x: int, s: nat, q: int, r: nat)
    requires x == q * s + r && r < s
    ensures x % s == r
  {
    var d, a := x / s, x % s;
    assert d * s + a == q * s + r && 0 <= a < s;
    SameRemainder(d, a, q, r, s);
  }

  lemma SameRemainder(d: int, a: nat, q: int, r: nat, s: nat)
    requires d * s + a == q * s + r && a < s && r < s
    ensures a == r
  {
    var n := q - d;
    assert n * s == q * s - d * s == a - r;
    if n > 0 {
      MulMono(1, n, s);
    } else if n < 0 {
      MulMono(1, -n, s);
    }
  }

  lemma ModShift(x: int, s: nat, t: int)
    requires s > 0
    ensures (x - s * t) % s == x % s
  {
    var q := x / s;
    assert x == s * q + x % s && s * (q - t) == s * q - s * t;
    RemainderIs(x - s * t, s, q - t, x % s);
  }

  /** Masking a difference that wrapped at 64 bits is the remainder of the difference itself, negative ones included. */
  lemma MaskedDifference(x: int, k: nat)
    requires k <= 64
    ensures And(x % TWO64, Pow2(k) - 1) == x % Pow2(k)
  {
    hide And, Pow2;
    var s, m, q := Pow2(k), Pow2(64 - k), x / TWO64;
    PowerTest(k);
    DiagRing.MaskIsModulo(x % TWO64, s);
    Pow2Word();
    SetBits.Pow2Split(32, 32);
    SetBits.Pow2Split(k, 64 - k);
    assert TWO64 == s * m;
    assert x % TWO64 == x - TWO64 * q;
    assert TWO64 * q == s * (m * q);
    ModShift(x, s, m * q);
  }

  /** All three space formulas, as the code computes them. */
  lemma MaskedSpaces(r: Ring, page: nat, k: nat)
    requires r.Ok(page) && k <= 64 && |r.data| == Pow2(k)
    ensures var size := |r.data|;
            && And((r.put + size - r.get) % TWO64, size - 1) == r.Fill()
            && And((size + r.get - r.put - page) % TWO64, size - 1) == size - page - r.Fill()
            && And((size - page + r.get - r.put) % TWO64, size - 1) == size - page - r.Fill()
  {
    hide And, Pow2;
    var size := |r.data|;
    MaskedDifference(r.put + size - r.get, k);
    MaskedDifference(size + r.get - r.put - page, k);
    SpaceFormulas(r, page);
    assert size - page + r.get - r.put == size + r.get - r.put - page;
  }

  /** And the pointer update. */
  lemma MaskedPointer(ptr: nat, n: nat, size: nat, k: nat)
    requires k <= 64 && size == Pow2(k) && ptr < size && n < size
    ensures And((ptr + n) % TWO64, size - 1) == Wrap(ptr + n, size)
  {
    hide And, Pow2;
    MaskedDifference(ptr + n, k);
    WrapMod(ptr + n, size);
  }
}
