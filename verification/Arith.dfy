/** The few facts about products, quotients and remainders that the other modules need. */
module Arith {
  lemma MulMono(a: nat, b: nat, m: nat)
    requires a <= b
    ensures a * m <= b * m
  {
  }

  lemma DivIs(n: nat, m: nat, q: nat)
    requires m > 0 && q * m <= n < q * m + m
    ensures n / m == q && n % m == n - q * m
  {
    var d := n / m;
    assert n == d * m + n % m;
    if d < q {
      MulMono(d + 1, q, m);
      assert false;
    } else if d > q {
      MulMono(q + 1, d, m);
      assert false;
    }
  }

  lemma MulDiv(q: nat, m: nat)
    requires m > 0
    ensures q * m / m == q && q * m % m == 0
  {
    DivIs(q * m, m, q);
  }

  // ---- multiples and quotients by repeated subtraction, which keeps proofs about them linear ----

  predicate Mult(x: nat, m: nat) {
    m > 0 && (x == 0 || (x >= m && Mult(x - m, m)))
  }

  function Quot(x: nat, m: nat): nat
    requires m > 0
  {
    if x < m then 0 else 1 + Quot(x - m, m)
  }

  lemma {:induction false} QuotBounds(x: nat, m: nat)
    requires m > 0
    ensures Quot(x, m) * m <= x < Quot(x, m) * m + m
    ensures Mult(x, m) <==> x == Quot(x, m) * m
  {
    if x >= m {
      QuotBounds(x - m, m);
      assert Quot(x, m) * m == Quot(x - m, m) * m + m;
    }
  }

  lemma MultMod(x: nat, m: nat)
    requires m > 0
    ensures Quot(x, m) == x / m
    ensures Mult(x, m) <==> x % m == 0
    ensures Mult(x, m) ==> x == Quot(x, m) * m
  {
    QuotBounds(x, m);
    DivIs(x, m, Quot(x, m));
  }

  lemma {:induction false} MultSum(a: nat, b: nat, m: nat)
    requires Mult(a, m)
    ensures Mult(a + b, m) <==> Mult(b, m)
    decreases a
  {
    if a > 0 {
      MultSum(a - m, b, m);
    }
  }

  lemma MultDiff(a: nat, b: nat, m: nat)
    requires Mult(a, m) && Mult(b, m) && b <= a
    ensures Mult(a - b, m)
  {
    MultSum(b, a - b, m);
  }

  lemma {:induction false} MultTimes(q: nat, m: nat)
    requires m > 0
    ensures Mult(q * m, m) && Quot(q * m, m) == q
    decreases q
  {
    if q > 0 {
      MultTimes(q - 1, m);
      assert q * m == m + (q - 1) * m;
    }
  }

  /** From a multiple of m below another multiple n, one step of m stays within n. */
  lemma StepWithin(a: nat, n: nat, m: nat)
    requires Mult(a, m) && Mult(n, m) && a < n
    ensures a + m <= n && Mult(a + m, m) && Quot(n - a, m) == Quot(n - (a + m), m) + 1
  {
    MultDiff(n, a, m);
  }

  lemma {:induction false} QuotSum(a: nat, b: nat, m: nat)
    requires Mult(a, m)
    ensures Quot(a + b, m) == Quot(a, m) + Quot(b, m)
    decreases a
  {
    if a > 0 {
      QuotSum(a - m, b, m);
    }
  }
}
