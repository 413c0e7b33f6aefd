/** Arithmetic shared by the components. */
module Arithmetic {
  function Pow2(n: nat): (p: nat)
    ensures p > 0
  {
    if n == 0 then 1 else 2 * Pow2(n - 1)
  }

  predicate IsPow2(n: nat) {
    n == 1 || (n > 0 && n % 2 == 0 && IsPow2(n / 2))
  }

  lemma MulGe(a: int, m: int)
    requires 1 <= a && 1 <= m
    ensures a * m >= m
  {
  }

  lemma MulMono(a: nat, x: int, y: int)
    requires x <= y
    ensures a * x <= a * y
  {
    assert a * y - a * x == a * (y - x);
  }

  /** Quotient and remainder are determined by the division identity. */
  lemma DivUnique(x: int, q: int, r: int, m: int)
    requires 0 <= r < m && x == q * m + r
    ensures x / m == q && x % m == r
  {
    var q', r' := x / m, x % m;
    assert q * m - q' * m == (q - q') * m == -((q' - q) * m);
    if q > q' { MulGe(q - q', m); }
    if q < q' { MulGe(q' - q, m); }
  }

  /** What counting one further does to quotient and remainder. */
  lemma DivStep(n: nat, m: nat)
    requires 0 < m
    ensures (n + 1) % m == if n % m == m - 1 then 0 else n % m + 1
    ensures (n + 1) / m == if n % m == m - 1 then n / m + 1 else n / m
  {
    if n % m == m - 1 {
      assert (n / m + 1) * m == (n / m) * m + m;
      DivUnique(n + 1, n / m + 1, 0, m);
    } else {
      DivUnique(n + 1, n / m, n % m + 1, m);
    }
  }

  /** A counter that starts at 0 and wraps at `m`, after `n` increments. */
  function Cycle(n: nat, m: nat): (x: nat)
    requires 0 < m
    ensures x < m
  {
    if n == 0 then 0 else Wrap(Cycle(n - 1, m), m)
  }

  function Wrap(x: nat, m: nat): (y: nat)
    requires x < m
    ensures y < m
  {
    if x + 1 == m then 0 else x + 1
  }

  lemma {:induction false} CycleAdd(n: nat, d: nat, m: nat)
    requires 0 < m && d <= m
    ensures Cycle(n + d, m) == if Cycle(n, m) + d < m then Cycle(n, m) + d else Cycle(n, m) + d - m
  {
    if d > 0 { CycleAdd(n, d - 1, m); }
  }

  /** The counter has equal values at two moments less than a turn apart only if they are the same moment. */
  lemma CycleInjective(a: nat, b: nat, m: nat)
    requires 0 < m && a < b + m && b < a + m
    ensures Cycle(a, m) == Cycle(b, m) ==> a == b
  {
    if a <= b { CycleAdd(a, b - a, m); } else { CycleAdd(b, a - b, m); }
  }

  /** `log2ceil` of the generators: at least 1. */
  function Log2Ceil(n: nat): (b: nat)
    ensures b >= 1
  {
    if n <= 2 then 1 else 1 + Log2Ceil((n + 1) / 2)
  }

  /** A register of `Log2Ceil(n)` bits counts to n - 1, and one bit less would not do unless n is 1. */
  lemma {:induction false} Log2CeilIsTight(n: nat)
    ensures n <= Pow2(Log2Ceil(n))
    ensures n > 1 ==> Pow2(Log2Ceil(n) - 1) < n
  {
    if n > 2 {
      Log2CeilIsTight((n + 1) / 2);
    } else {
      assert Pow2(1) == 2 * Pow2(0) && Pow2(0) == 1;
    }
  }

  /** The value n itself fits a register of `Log2Ceil(n)` bits exactly if it is no power of two greater than 1. */
  lemma {:induction false} FitsExactly(n: nat)
    ensures n < Pow2(Log2Ceil(n)) <==> n <= 1 || !IsPow2(n)
  {
    if n > 2 {
      FitsExactly((n + 1) / 2);
      Log2CeilIsTight((n + 1) / 2);
    } else {
      assert Pow2(1) == 2 * Pow2(0) && Pow2(0) == 1;
    }
  }

  // ----- shifting

  /** `n` shifted left by `k` bits. */
  function Doubled(n: nat, k: nat): nat {
    if k == 0 then n else 2 * Doubled(n, k - 1)
  }

  lemma {:induction false} DoubledZero(k: nat)
    ensures Doubled(0, k) == 0
  {
    if k > 0 { DoubledZero(k - 1); }
  }

  lemma {:induction false} DoubledAdd(a: nat, b: nat, k: nat)
    ensures Doubled(a + b, k) == Doubled(a, k) + Doubled(b, k)
  {
    if k > 0 { DoubledAdd(a, b, k - 1); }
  }

  lemma {:induction false} DoubledOrder(a: nat, b: nat, k: nat)
    ensures a < b <==> Doubled(a, k) < Doubled(b, k)
    ensures a <= Doubled(a, k)
  {
    if k > 0 { DoubledOrder(a, b, k - 1); }
  }

  lemma {:induction false} DoubledPow2(m: nat, k: nat)
    ensures Doubled(Pow2(m), k) == Pow2(m + k)
  {
    if k > 0 { DoubledPow2(m, k - 1); }
  }

  lemma {:induction false} DoubledIsProduct(n: nat, k: nat)
    ensures Doubled(n, k) == n * Pow2(k)
  {
    if k > 0 {
      DoubledIsProduct(n, k - 1);
      assert n * (2 * Pow2(k - 1)) == 2 * (n * Pow2(k - 1));
    }
  }

  /** A number as a register with `m` values holds it: the remainder of a division by `m`. */
  function Wrapped(w: nat, m: nat): (r: nat)
    requires m > 0
    ensures r < m
  {
    if w < m then w else Wrapped(w - m, m)
  }

  lemma {:induction false} WrappedIsRemainder(w: nat, m: nat)
    requires m > 0
    ensures Wrapped(w, m) == w % m
  {
    if w >= m {
      WrappedIsRemainder(w - m, m);
      assert ((w - m) / m + 1) * m == (w - m) / m * m + m;
      DivUnique(w, (w - m) / m + 1, (w - m) % m, m);
    }
  }

  lemma {:induction false} WrappedAdd(a: nat, b: nat, sum: nat, m: nat)
    requires m > 0 && sum == a + b
    ensures Wrapped(Wrapped(a, m) + b, m) == Wrapped(sum, m)
  {
    if a >= m { WrappedAdd(a - m, b, sum - m, m); }
  }

  lemma {:induction false} WrappedIsLess(w: nat, m: nat)
    requires m > 0
    ensures Wrapped(w, m) <= w && (Wrapped(w, m) == w <==> w < m)
  {
    if w >= m { WrappedIsLess(w - m, m); }
  }

  // ----- multiples

  predicate Multiple(x: nat, m: nat)
    requires m > 0
  {
    Wrapped(x, m) == 0
  }

  lemma {:induction false} ProductIsMultiple(q: nat, m: nat, x: nat)
    requires m > 0 && x == q * m
    ensures Multiple(x, m)
  {
    if q > 0 {
      assert x == (q - 1) * m + m;
      MulGe(q, m);
      ProductIsMultiple(q - 1, m, x - m);
    }
  }

  lemma {:induction false} MultipleIsProduct(x: nat, m: nat) returns (q: nat)
    requires m > 0 && Multiple(x, m)
    ensures x == q * m
  {
    if x < m {
      q := 0;
    } else {
      var p := MultipleIsProduct(x - m, m);
      q := p + 1;
      assert q * m == p * m + m;
    }
  }

  lemma {:induction false} MultipleAdd(y: nat, x: nat, m: nat)
    requires m > 0 && Multiple(y, m)
    ensures Multiple(y + x, m) <==> Multiple(x, m)
  {
    if y >= m { MultipleAdd(y - m, x, m); }
  }

  lemma MultipleOfDivisor(x: nat, q: nat, m: nat, product: nat)
    requires m > 0 && product > 0 && product == q * m && Multiple(x, product)
    ensures Multiple(x, m)
  {
    var k := MultipleIsProduct(x, product);
    assert k * (q * m) == (k * q) * m;
    ProductIsMultiple(k * q, m, x);
  }
}
