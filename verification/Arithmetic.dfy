/** Division facts the solver does not find by itself. */
module Arithmetic {

  lemma {:induction false} MultiplesApart(n: nat, q: int, q': int)
    requires q < q'
    ensures q * n + n <= q' * n
    decreases q' - q
  {
    assert q' * n == (q' - 1) * n + n;
    if q + 1 < q' {
      MultiplesApart(n, q, q' - 1);
    }
  }

  /** A quotient and a remainder in range are the quotient and the remainder. */
  lemma DivModUnique(x: int, q: int, r: int, n: nat)
    requires n > 0 && 0 <= r < n && x == q * n + r
    ensures x / n == q && x % n == r
  {
    var q' := x / n;
    assert x == q' * n + x % n;
    if q < q' {
      MultiplesApart(n, q, q');
    } else if q' < q {
      MultiplesApart(n, q', q);
    }
  }

  lemma ModMultiple(x: int, q: int, n: nat)
    requires n > 0
    ensures (x + q * n) % n == x % n
  {
    assert x == (x / n) * n + x % n;
    assert (x / n + q) * n == (x / n) * n + q * n;
    DivModUnique(x + q * n, x / n + q, x % n, n);
  }

  function Pow2(k: nat): (p: nat)
    ensures p > 0
  {
    if k == 0 then 1 else 2 * Pow2(k - 1)
  }

  lemma {:induction false} Pow2Sum(a: nat, b: nat)
    ensures Pow2(a + b) == Pow2(a) * Pow2(b)
  {
    if b > 0 {
      Pow2Sum(a, b - 1);
      assert Pow2(a + b) == 2 * Pow2(a + (b - 1));
    }
  }

  lemma {:induction false} Pow2Monotone(a: nat, b: nat)
    requires a <= b
    ensures Pow2(a) <= Pow2(b)
  {
    if a < b {
      Pow2Monotone(a, b - 1);
    }
  }

  lemma Pow2Square(k: nat, p: nat)
    requires Pow2(k) == p
    ensures Pow2(k + k) == p * p
  {
    Pow2Sum(k, k);
  }

  lemma Pow2Of16(k: nat)
    requires k == 16
    ensures Pow2(k) == 0x1_0000
  {
    var a, b := k / 4, k / 2;
    assert Pow2(a) == 16;
    Pow2Square(a, 16);
    Pow2Square(b, 256);
  }

  lemma Pow2Values()
    ensures Pow2(31) == 0x8000_0000
    ensures Pow2(32) == 0x1_0000_0000
    ensures Pow2(64) == 0x1_0000_0000_0000_0000
  {
    Pow2Of16(16);
    Pow2Square(16, 0x1_0000);
    Pow2Square(32, 0x1_0000_0000);
  }

  lemma Associate(a: nat, b: nat, c: nat)
    ensures a * (b * c) == (a * b) * c
  {}

  lemma ModOfMultiple(x: nat, m: nat, n: nat)
    requires m * n > 0 && n > 0
    ensures x % (m * n) % n == x % n
  {
    var q, r := x / (m * n), x % (m * n);
    assert x == q * (m * n) + r;
    Associate(q, m, n);
    ModMultiple(r, q * m, n);
  }

  /** Wrapping at a larger power of two keeps the remainder of a smaller one. */
  lemma WrapKeepsMod(x: nat, a: nat, b: nat)
    requires a <= b
    ensures x % Pow2(b) % Pow2(a) == x % Pow2(a)
  {
    Pow2Sum(b - a, a);
    ModOfMultiple(x, Pow2(b - a), Pow2(a));
  }

  lemma AddThenMod(t: nat, x: nat, n: nat)
    requires n > 0
    ensures (t + x % n) % n == (t + x) % n
  {
    assert x == (x / n) * n + x % n;
    ModMultiple(t + x % n, x / n, n);
  }

  /** The remainder modulo `2n`, from the halves. */
  lemma ModTwice(x: nat, n: nat)
    requires n > 0
    ensures x % (2 * n) == 2 * (x / 2 % n) + x % 2
  {
    var h := x / 2;
    var q, r := h / n, h % n;
    assert h == q * n + r;
    assert x == q * (2 * n) + (2 * r + x % 2);
    DivModUnique(x, q, 2 * r + x % 2, 2 * n);
  }
}
