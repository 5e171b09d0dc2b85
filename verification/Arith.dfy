/** Facts about division with remainder that the models share. */
module Arith {

  /** A multiple of n strictly between -n and n is zero. */
  lemma SmallMultiple(n: int, d: int)
    requires n > 0 && -n < n * d < n
    ensures d == 0
  {
  }

  lemma MulMonotone(a: nat, b: nat, n: nat)
    requires a <= b
    ensures a * n <= b * n
  {
  }

  /** Quotient and remainder are determined by the product form. */
  lemma DivModOf(x: int, n: int, q: int, r: int)
    requires n > 0 && x == n * q + r && 0 <= r < n
    ensures x / n == q && x % n == r
  {
    var q', r' := x / n, x % n;
    assert x == n * q' + r';
    assert n * (q' - q) == n * q' - n * q;
    SmallMultiple(n, q' - q);
  }

  /** Counting up by one goes round modulo n. */
  lemma ModNext(i: int, n: int)
    requires n > 0
    ensures (i % n + 1) % n == (i + 1) % n
    ensures (i + 1) % n == if i % n + 1 == n then 0 else i % n + 1
  {
    var q, r := i / n, i % n;
    if r + 1 < n {
      DivModOf(i + 1, n, q, r + 1);
      DivModOf(r + 1, n, 0, r + 1);
    } else {
      assert i + 1 == n * (q + 1);
      DivModOf(i + 1, n, q + 1, 0);
      DivModOf(n, n, 1, 0);
    }
  }

  lemma ModPeriod(i: int, n: int)
    requires n > 0
    ensures (i + n) % n == i % n
  {
    assert i + n == n * (i / n + 1) + i % n;
    DivModOf(i + n, n, i / n + 1, i % n);
  }

  /** Any n consecutive numbers have different remainders. */
  lemma ModDistinct(i: int, j: int, n: int)
    requires n > 0 && i < j < i + n
    ensures i % n != j % n
  {
    var d := j / n - i / n;
    assert n * d == (j - j % n) - (i - i % n);
    assert d >= 1 ==> n * d >= n;
    assert d <= 0 ==> n * d <= 0;
  }

  function Pow2(k: nat): (r: nat)
    ensures r >= 1
  {
    if k == 0 then 1 else 2 * Pow2(k - 1)
  }

  lemma {:induction false} Pow2Monotone(j: nat, k: nat)
    requires j <= k
    ensures Pow2(j) <= Pow2(k)
  {
    if j < k {
      Pow2Monotone(j, k - 1);
    }
  }

  lemma {:induction false} Pow2Sum(j: nat, k: nat)
    ensures Pow2(j + k) == Pow2(j) * Pow2(k)
  {
    if k > 0 {
      Pow2Sum(j, k - 1);
    }
  }

  lemma Pow2Values()
    ensures Pow2(23) == 0x80_0000
    ensures Pow2(56) == 0x100_0000_0000_0000
    ensures Pow2(62) == 0x4000_0000_0000_0000
  {
    assert Pow2(1) == 2 && Pow2(6) == 64 && Pow2(8) == 256;
    hide Pow2;
    Pow2Sum(8, 8);
    Pow2Sum(16, 6);
    Pow2Sum(22, 1);
    Pow2Sum(16, 16);
    Pow2Sum(32, 16);
    Pow2Sum(48, 8);
    Pow2Sum(56, 6);
  }
}
