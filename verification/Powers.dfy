/** Powers of two. */
module Powers {
  function Pow2(n: nat): (r: nat)
    ensures r >= 1
  {
    if n == 0 then 1 else 2 * Pow2(n - 1)
  }

  lemma {:induction false} Pow2Monotone(m: nat, n: nat)
    requires m <= n
    ensures Pow2(m) <= Pow2(n)
    ensures m < n ==> Pow2(m) < Pow2(n)
  {
    if m < n {
      Pow2Monotone(m, n - 1);
    }
  }

  lemma {:induction false} Pow2Add(m: nat, n: nat)
    ensures Pow2(m + n) == Pow2(m) * Pow2(n)
  {
    if m > 0 {
      Pow2Add(m - 1, n);
      assert Pow2(m - 1 + n) == Pow2(m - 1) * Pow2(n);
    }
  }

  lemma Pow2Values()
    ensures Pow2(8) == 0x100 && Pow2(16) == 0x1_0000 && Pow2(32) == 0x1_0000_0000
    ensures Pow2(64) == 0x1_0000_0000_0000_0000
  {
    assert Pow2(4) == 2 * 2 * Pow2(2) == 16;
    Pow2Add(4, 4);
    Pow2Add(8, 8);
    Pow2Add(16, 16);
    Pow2Add(32, 32);
  }

  /** Number of bits up to the highest one that is set. */
  function BitLength(n: nat): nat {
    if n == 0 then 0 else 1 + BitLength(n / 2)
  }

  lemma {:induction false} BitLengthBounds(n: nat, bits: nat)
    ensures BitLength(n) <= bits <==> n < Pow2(bits)
    decreases n
  {
    if n > 0 && bits > 0 {
      BitLengthBounds(n / 2, bits - 1);
    }
  }

  /** Rounded down. */
  function Log2(n: nat): nat
    requires n > 0
  {
    if n == 1 then 0 else 1 + Log2(n / 2)
  }

  predicate IsPowerOfTwo(n: nat) {
    n > 0 && n == Pow2(Log2(n))
  }

  // Division

  lemma OneRoundLess(n: nat, r: nat)
    requires 0 < r <= n
    ensures (n - r) % r == n % r
  {
    var d := (n - r) / r;
    assert n - r == d * r + (n - r) % r;
    assert n == (d + 1) * r + (n - r) % r;
    Quotient(n, d + 1, r, (n - r) % r);
  }

  lemma Quotient(n: nat, q: nat, r: nat, x: nat)
    requires x < r && n == q * r + x
    ensures n / r == q && n % r == x
  {
    var d, y := n / r, n % r;
    assert n == d * r + y;
    if d < q {
      TimesMonotone(d + 1, q, r);
    } else if q < d {
      TimesMonotone(q + 1, d, r);
    }
  }

  lemma TimesMonotone(a: nat, b: nat, r: nat)
    requires a <= b
    ensures a * r <= b * r
  {
  }

  /** The remainder, by repeated subtraction. */
  function Rest(n: nat, r: nat): (x: nat)
    requires r > 0
    ensures x < r && x <= n
  {
    if n < r then n else Rest(n - r, r)
  }

  lemma {:induction false} RestStep(n: nat, r: nat)
    requires r > 0
    ensures Rest(n + 1, r) == if Rest(n, r) + 1 == r then 0 else Rest(n, r) + 1
  {
    if n >= r {
      RestStep(n - r, r);
    }
  }

  lemma {:induction false} RestIsRemainder(n: nat, r: nat)
    requires r > 0
    ensures Rest(n, r) == n % r
  {
    if n >= r {
      RestIsRemainder(n - r, r);
      OneRoundLess(n, r);
    }
  }

  lemma DivideTwice(n: nat, a: nat, b: nat)
    requires a > 0 && b > 0
    ensures a * b > 0 && n / a / b == n / (a * b)
  {
    var q := n / a;
    assert q == q / b * b + q % b && n == q * a + n % a;
    MixedRadix(a, b, q, q / b, q % b, n % a);
    Quotient(n, q / b, a * b, (q % b) * a + n % a);
  }

  lemma MixedRadix(a: nat, b: nat, q: nat, d: nat, x: nat, y: nat)
    requires q == d * b + x && x < b && y < a
    ensures a * b > 0 && q * a + y == d * (a * b) + (x * a + y) && x * a + y < a * b
  {
    TimesMonotone(x, b - 1, a);
    assert (b - 1) * a == a * b - a;
    assert q * a == (d * b) * a + x * a;
    assert (d * b) * a == d * (a * b);
  }
}
