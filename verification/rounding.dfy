/** Rounding of an exact quotient n/d (d > 0) to an integer, in the two
    conventions the system uses: half to even (Python 3's round) and half up
    (JavaScript's Math.round, which is floor(x + 1/2)).

    Both are characterised by the distance between n/d and the result:
    2 * (n - r * d) is 2 * d times (n/d - r), so "-d <= 2 * (n - r * d) <= d"
    says that r lies within one half of n/d. */
module Rounding {

  /** The integer nearest to n/d; on a tie (n/d exactly halfway) the even one. */
  function RoundHalfEven(n: int, d: int): (r: int)
    requires d > 0
    ensures -d <= 2 * (n - r * d) <= d
    ensures 2 * (n - r * d) == d || 2 * (n - r * d) == -d ==> r % 2 == 0
  {
    var q, m := n / d, n % d;
    assert n - q * d == m;
    assert n - (q + 1) * d == m - d;
    if 2 * m < d then q
    else if 2 * m > d then q + 1
    else if q % 2 == 0 then q
    else q + 1
  }

  /** floor(n/d + 1/2): the nearest integer, a tie going to the larger one. */
  function RoundHalfUp(n: int, d: int): (r: int)
    requires d > 0
    ensures -d <= 2 * (n - r * d) < d
  {
    var r := (2 * n + d) / (2 * d);
    var m := (2 * n + d) % (2 * d);
    assert 2 * n + d == (2 * d) * r + m;
    assert 2 * (n - r * d) == m - d;
    r
  }

  /** Two integers that both lie within one half of n/d are equal or adjacent;
      the right one is fixed by where n/d falls between them. */
  lemma {:induction false} CloseIntegers(n: int, d: int, a: int, b: int)
    requires d > 0 && a < b
    requires -d <= 2 * (n - a * d) <= d
    requires -d <= 2 * (n - b * d) <= d
    ensures b == a + 1
    ensures 2 * (n - a * d) == d && 2 * (n - b * d) == -d
  {
    // 2 * (n - a * d) - 2 * (n - b * d) == 2 * (b - a) * d <= 2 * d
    assert 2 * (n - a * d) - 2 * (n - b * d) == 2 * ((b - a) * d);
    if b - a >= 2 {
      MulAtLeast(b - a, 2, d);
      assert false;
    }
  }

  /** (k * d >= m * d) for k >= m and d > 0, spelled out for the solver. */
  lemma {:induction false} MulAtLeast(k: int, m: int, d: int)
    requires k >= m && d > 0
    ensures k * d >= m * d
  {
  }

  /** Half-to-even rounding is fully determined by its contract. */
  lemma {:induction false} RoundHalfEvenUnique(n: int, d: int, k: int)
    requires d > 0
    requires -d <= 2 * (n - k * d) <= d
    requires 2 * (n - k * d) == d || 2 * (n - k * d) == -d ==> k % 2 == 0
    ensures k == RoundHalfEven(n, d)
  {
    var r := RoundHalfEven(n, d);
    if k < r {
      CloseIntegers(n, d, k, r);
    } else if r < k {
      CloseIntegers(n, d, r, k);
    }
  }

  /** Half-up rounding is fully determined by its contract. */
  lemma {:induction false} RoundHalfUpUnique(n: int, d: int, k: int)
    requires d > 0
    requires -d <= 2 * (n - k * d) < d
    ensures k == RoundHalfUp(n, d)
  {
    var r := RoundHalfUp(n, d);
    if k < r {
      CloseIntegers(n, d, k, r);
    } else if r < k {
      CloseIntegers(n, d, r, k);
    }
  }

  /** Half-up rounding in terms of the floor quotient and remainder. */
  lemma {:induction false} RoundHalfUpByRemainder(n: int, d: int)
    requires d > 0
    ensures RoundHalfUp(n, d) == if 2 * (n % d) < d then n / d else n / d + 1
  {
    var q, m := n / d, n % d;
    assert n - q * d == m;
    assert n - (q + 1) * d == m - d;
    RoundHalfUpUnique(n, d, if 2 * m < d then q else q + 1);
  }

  /** The two conventions differ exactly on a tie whose floor is even, and
      there half up gives one more than half to even. */
  lemma {:induction false} HalfUpVersusHalfEven(n: int, d: int)
    requires d > 0
    ensures RoundHalfUp(n, d) == RoundHalfEven(n, d) + (if 2 * (n % d) == d && (n / d) % 2 == 0 then 1 else 0)
  {
    RoundHalfUpByRemainder(n, d);
  }

  /** Half-to-even rounding never decreases as the numerator grows. */
  lemma {:induction false} RoundHalfEvenMonotonic(n1: int, n2: int, d: int)
    requires d > 0 && n1 <= n2
    ensures RoundHalfEven(n1, d) <= RoundHalfEven(n2, d)
  {
    NearestEvenOrdered(n1, n2, d, RoundHalfEven(n1, d), RoundHalfEven(n2, d));
  }

  /** The ordering argument behind RoundHalfEvenMonotonic, on the contract alone. */
  lemma {:induction false} NearestEvenOrdered(n1: int, n2: int, d: int, r1: int, r2: int)
    requires d > 0 && n1 <= n2
    requires -d <= 2 * (n1 - r1 * d) <= d
    requires 2 * (n1 - r1 * d) == -d ==> r1 % 2 == 0
    requires -d <= 2 * (n2 - r2 * d) <= d
    requires 2 * (n2 - r2 * d) == d ==> r2 % 2 == 0
    ensures r1 <= r2
  {
    if r1 == r2 + 1 {
      // both are ties, and r1, r2 cannot both be even
      AdjacentRoundings(n1, n2, d, r1, r2);
      assert false;
    } else if r1 > r2 {
      MulAtLeast(r1, r2 + 2, d);
      assert false;
    }
  }

  /** If n1 <= n2 and n1/d, n2/d lie within one half of r2 + 1 and r2, then
      n1 = n2 sits exactly halfway between the two. */
  lemma {:induction false} AdjacentRoundings(n1: int, n2: int, d: int, r1: int, r2: int)
    requires d > 0 && n1 <= n2 && r1 == r2 + 1
    requires -d <= 2 * (n1 - r1 * d) && 2 * (n2 - r2 * d) <= d
    ensures 2 * (n1 - r1 * d) == -d && 2 * (n2 - r2 * d) == d
  {
  }

  /** Half-up rounding never decreases as the numerator grows. */
  lemma {:induction false} RoundHalfUpMonotonic(n1: int, n2: int, d: int)
    requires d > 0 && n1 <= n2
    ensures RoundHalfUp(n1, d) <= RoundHalfUp(n2, d)
  {
    var r1, r2 := RoundHalfUp(n1, d), RoundHalfUp(n2, d);
    if r1 > r2 {
      MulAtLeast(r1, r2 + 1, d);
      assert false;
    }
  }

  /** Rounding an exact integer quotient k * d / d gives k, in both conventions. */
  lemma {:induction false} RoundExact(k: int, d: int)
    requires d > 0
    ensures RoundHalfEven(k * d, d) == k
    ensures RoundHalfUp(k * d, d) == k
  {
    RoundHalfEvenUnique(k * d, d, k);
    RoundHalfUpUnique(k * d, d, k);
  }
}
