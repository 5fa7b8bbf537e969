/** Binomial coefficients by one exact division of two products. */
module Combinatorics {
  import opened Results

  /** Pascal's triangle. */
  ghost function Choose(n: nat, k: nat): nat {
    if k == 0 then 1 else if n == 0 then 0 else Choose(n - 1, k - 1) + Choose(n - 1, k)
  }

  ghost function Factorial(n: nat): nat {
    if n == 0 then 1 else n * Factorial(n - 1)
  }

  /** n (n - 1) ... (n - k + 1). */
  ghost function Falling(n: nat, k: nat): nat {
    if k == 0 then 1 else if n == 0 then 0 else n * Falling(n - 1, k - 1)
  }

  lemma {:induction false} FallingLast(n: nat, k: nat)
    requires 0 < k <= n
    ensures Falling(n, k) == Falling(n, k - 1) * (n - k + 1)
  {
    if k > 1 {
      FallingLast(n - 1, k - 1);
      assert n * (Falling(n - 1, k - 2) * (n - k + 1)) == n * Falling(n - 1, k - 2) * (n - k + 1);
    } else {
      assert Falling(n, 1) == n * Falling(n - 1, 0);
    }
  }

  lemma {:induction false} FallingVanishes(n: nat, k: nat)
    requires k > n
    ensures Falling(n, k) == 0 && Choose(n, k) == 0
  {
    if n > 0 {
      FallingVanishes(n - 1, k - 1);
      FallingVanishes(n - 1, k);
    }
  }

  /** The rule of Pascal's triangle for falling products. */
  lemma FallingPascal(n: nat, k: nat)
    requires 0 < n && 0 < k
    ensures Falling(n, k) == Falling(n - 1, k) + k * Falling(n - 1, k - 1)
  {
    if k <= n - 1 {
      FallingLast(n - 1, k);
      var f := Falling(n - 1, k - 1);
      assert n * f == f * (n - k) + k * f;
    } else {
      FallingVanishes(n - 1, k);
      if k > n {
        FallingVanishes(n - 1, k - 1);
      }
    }
  }

  /** The numerator is the binomial coefficient times the denominator, so the division is exact. */
  lemma {:induction false} FallingIsChoose(n: nat, k: nat)
    ensures Falling(n, k) == Choose(n, k) * Factorial(k)
  {
    if k > 0 && n > 0 {
      FallingIsChoose(n - 1, k - 1);
      FallingIsChoose(n - 1, k);
      FallingPascal(n, k);
      Distribute(Choose(n - 1, k - 1), Choose(n - 1, k), k, Factorial(k - 1));
    }
  }

  lemma Distribute(a: nat, b: nat, k: nat, f: nat)
    ensures b * (k * f) + k * (a * f) == (a + b) * (k * f)
  {
    assert k * (a * f) == a * (k * f);
  }

  lemma {:induction false} ChooseAll(n: nat)
    ensures Choose(n, n) == 1 && Choose(n, n + 1) == 0
  {
    FallingVanishes(n, n + 1);
    if n > 0 {
      ChooseAll(n - 1);
    }
  }

  lemma {:induction false} ChooseSymmetric(n: nat, k: nat)
    requires k <= n
    ensures Choose(n, k) == Choose(n, n - k)
  {
    if k == 0 || k == n {
      ChooseAll(n);
    } else {
      ChooseSymmetric(n - 1, k - 1);
      ChooseSymmetric(n - 1, k);
    }
  }

  lemma FactorialPositive(n: nat)
    ensures Factorial(n) > 0
  {
  }

  /** The low 32 bits as a two's complement number, which is what intValue keeps. */
  function IntValue(v: nat): int {
    var low := v % 0x1_0000_0000;
    if low < 0x8000_0000 then low else low - 0x1_0000_0000
  }

  method NChooseK(n: int, k: int) returns (r: Result<int>)
    ensures 0 <= k <= n ==> r == Ok(IntValue(Choose(n, k)))
    ensures 0 <= k <= n && Choose(n, k) < 0x8000_0000 ==> r == Ok(Choose(n, k))
    ensures k != 0 && (k > n || (k < 0 && k != n)) ==> r == Err
    ensures k == 0 || k == n ==> r == Ok(1)
  {
    if k == 0 || k == n {
      if 0 <= k <= n {
        ChooseAll(n);
      }
      return Ok(1);
    }
    if k > n || k < 0 {
      return Err;
    }
    ChooseSymmetric(n, k);
    var k' := if k > n / 2 then n - k else k;
    var fraction, denominator := 1, 1;
    for i := 1 to k' + 1
      invariant fraction == Falling(n, i - 1)
      invariant denominator == Factorial(i - 1)
    {
      FallingLast(n, i);
      fraction := fraction * (n - i + 1);
      denominator := denominator * i;
    }
    FallingIsChoose(n, k');
    FactorialPositive(k');
    ExactDivision(Choose(n, k'), denominator);
    r := Ok(IntValue(fraction / denominator));
  }

  lemma ExactDivision(q: nat, d: nat)
    requires d > 0
    ensures (q * d) / d == q
  {
    var p := q * d;
    var e, r := p / d, p % d;
    assert p == e * d + r;
    assert (q - e) * d == r;
    SmallMultiple(q - e, d);
  }

  lemma SmallMultiple(x: int, d: int)
    requires 0 <= x * d < d
    ensures x == 0
  {
    assert x >= 1 ==> x * d >= d;
    assert x <= -1 ==> x * d <= -d;
  }
}
