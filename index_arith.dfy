/**
  Integer facts shared by the matrix-free index tables: powers, and the
  decomposition of an index `q * n + r` (with `r < n`) into its quotient and
  remainder, which is how a lexicographic index splits into coordinates.
 */
module IndexArith {

  function Pow(b: nat, e: nat): nat
  {
    if e == 0 then 1 else b * Pow(b, e - 1)
  }

  lemma MulMonotone(a: nat, b: nat, n: nat)
    requires a <= b
    ensures a * n <= b * n
  {
  }

  /** `q * n + r` with `r < n` has quotient `q` and remainder `r`. */
  lemma DivModUnique(n: nat, q: nat, r: nat)
    requires r < n
    ensures (q * n + r) / n == q && (q * n + r) % n == r
  {
    var x := q * n + r;
    var q', r' := x / n, x % n;
    assert x == q' * n + r' && 0 <= r' < n;
    if q' < q {
      MulMonotone(q' + 1, q, n);
      assert false;
    } else if q < q' {
      MulMonotone(q + 1, q', n);
      assert false;
    }
  }

  /** Every number is its quotient times the divisor plus its remainder. */
  lemma DivModSplit(n: nat, x: nat)
    requires n > 0
    ensures x == (x / n) * n + x % n && x % n < n
  {
  }

  /** The quotient of two naturals is a natural. */
  lemma DivNat(n: nat, x: nat)
    requires n > 0
    ensures x / n >= 0
  {
  }

  /** The quotient and remainder of `x` by `n`, as naturals. */
  lemma QuotRem(n: nat, x: nat) returns (q: nat, r: nat)
    requires n > 0
    ensures q == x / n && r == x % n && r < n && x == r + q * n
  {
    DivNat(n, x);
    q, r := x / n, x % n;
  }

  /** A number below `n * base` splits into a digit below `base` and a
      quotient below `n`. */
  lemma TwoDigitsSplit(base: nat, x: nat, n: nat)
    requires base > 0 && x < n * base
    ensures 0 <= x / base < n && 0 <= x % base < base
    ensures x == x % base + (x / base) * base
  {
    DivNat(base, x);
    if x / base >= n {
      MulMonotone(n, x / base, base);
    }
  }

  /** Two three-digit numbers in base `p` with the same middle digit are
      equal only if their low and high digits are. */
  lemma ThreeDigitsInjective(p: nat, a: nat, b: nat, c: nat, a': nat, c': nat)
    requires a < p && a' < p && b < p
    requires a + (b + c * p) * p == a' + (b + c' * p) * p
    ensures a == a' && c == c'
  {
    ThreeDigits(p, a, b, c);
    ThreeDigits(p, a', b, c');
  }

  /** The digits of a three-digit number `a + (b + c * p) * p` in base `p`. */
  lemma ThreeDigits(p: nat, a: nat, b: nat, c: nat)
    requires a < p && b < p
    ensures (a + (b + c * p) * p) % p == a
    ensures (a + (b + c * p) * p) / p == b + c * p
    ensures ((a + (b + c * p) * p) / p) % p == b && ((a + (b + c * p) * p) / p) / p == c
  {
    DivModUnique(p, b + c * p, a);
    DivModUnique(p, c, b);
  }

  /** Every number is its three lowest digits in base `p`, the last one
      taking what is left. */
  lemma ThreeDigitsSplit(p: nat, x: nat)
    requires p > 0
    ensures x == x % p + ((x / p) % p + ((x / p) / p) * p) * p
  {
    DivModSplit(p, x);
    DivModSplit(p, x / p);
  }

  /** The third digit of a number below `p * p * p` is a digit. */
  lemma ThirdDigitBound(p: nat, x: nat)
    requires p > 0 && x < p * p * p
    ensures 0 <= (x / p) / p < p
  {
    DivNat(p, x);
    DivNat(p, x / p);
    var c := (x / p) / p;
    if c >= p {
      MulMonotone(p, c, p);
      MulMonotone(p * p, x / p, p);
      DivModSplit(p, x);
      assert false;
    }
  }

  /** A two-digit number `low + high * base` with `high < n` is below `n * base`. */
  lemma DigitsBound(base: nat, low: nat, high: nat, n: nat)
    requires low < base && high < n
    ensures low + high * base < n * base
  {
    MulMonotone(high + 1, n, base);
  }

  /** A position `j * n + k` with `j, k < n` lies inside an `n x n` grid. */
  lemma GridBound(n: nat, j: nat, k: nat)
    requires j < n && k < n
    ensures j * n + k < n * n
  {
    MulMonotone(j + 1, n, n);
  }

  lemma {:induction false} PowPositive(b: nat, e: nat)
    requires b > 0
    ensures Pow(b, e) > 0
  {
    if e > 0 {
      PowPositive(b, e - 1);
    }
  }

  lemma PowAdd1(b: nat, e: nat)
    ensures Pow(b, e + 1) == b * Pow(b, e)
  {
  }

  lemma PowSmall(b: nat)
    ensures Pow(b, 0) == 1 && Pow(b, 1) == b && Pow(b, 2) == b * b && Pow(b, 3) == b * b * b
  {
    assert Pow(b, 1) == b * Pow(b, 0);
    assert Pow(b, 2) == b * Pow(b, 1);
    assert Pow(b, 3) == b * Pow(b, 2);
  }

  /** `Pow(b, e) <= Pow(b, e')` when `e <= e'` and `b > 0`. */
  lemma {:induction false} PowMonotone(b: nat, e: nat, e': nat)
    requires b > 0 && e <= e'
    ensures Pow(b, e) <= Pow(b, e')
    decreases e' - e
  {
    if e < e' {
      PowMonotone(b, e, e' - 1);
      PowPositive(b, e' - 1);
      MulMonotone(1, b, Pow(b, e' - 1));
    }
  }
}
