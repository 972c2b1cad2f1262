/** Sums, and what flooring each summand costs. */
module Arithmetic {

  function Sum(xs: seq<nat>): nat {
    if xs == [] then 0 else xs[0] + Sum(xs[1..])
  }

  /** The sum of the summands, each scaled by p / q and rounded down. */
  function SumScaled(xs: seq<nat>, p: nat, q: nat): nat
    requires q > 0
  {
    if xs == [] then 0 else xs[0] * p / q + SumScaled(xs[1..], p, q)
  }

  function Pow10(n: nat): (p: nat)
    ensures p > 0
  {
    if n == 0 then 1 else 10 * Pow10(n - 1)
  }

  lemma MulMonotone(q: nat, a: int, b: int)
    requires a <= b
    ensures q * a <= q * b
  {
    assert 0 <= q * (b - a);
  }

  lemma QuotientBelow(n: nat, q: nat)
    requires q > 0
    ensures n / q <= n
  {
    var d := n / q;
    assert n == q * d + n % q;
    MulMonotone(d, 1, q);
    assert q * d == d * q;
  }

  /** Quotient and remainder are unique. */
  lemma DivisionUnique(q: nat, d: int, m: nat, k: int, r: nat)
    requires m < q && r < q
    requires q * d + m == q * k + r
    ensures d == k
  {
    if d < k {
      MulMonotone(q, d + 1, k);
    } else if k < d {
      MulMonotone(q, k + 1, d);
    }
  }

  lemma QuotientIs(n: nat, q: nat, k: nat, r: nat)
    requires r < q && n == q * k + r
    ensures n / q == k
  {
    DivisionUnique(q, n / q, n % q, k, r);
  }

  lemma Divide(n: nat, q: nat) returns (d: nat, m: nat)
    requires q > 0
    ensures d == n / q && n == q * d + m && m < q
  {
    d, m := n / q, n % q;
  }

  lemma Distribute(q: int, a: int, b: int)
    ensures q * (a + b) == q * a + q * b
    ensures (a + b) * q == a * q + b * q
  {
  }

  lemma FloorOfSum(a: nat, b: nat, q: nat)
    requires q > 0
    ensures a / q + b / q <= (a + b) / q <= a / q + b / q + 1
  {
    var i, r := Divide(a, q);
    var j, t := Divide(b, q);
    Distribute(q, i, j);
    if r + t < q {
      QuotientIs(a + b, q, i + j, r + t);
    } else {
      Distribute(q, i + j, 1);
      QuotientIs(a + b, q, i + j + 1, r + t - q);
    }
  }

  lemma DivMonotone(a: nat, b: nat, q: nat)
    requires q > 0 && a <= b
    ensures a / q <= b / q
  {
    FloorOfSum(a, b - a, q);
  }

  lemma {:induction false} Pow10Grows(m: nat, n: nat)
    requires m < n
    ensures 10 * Pow10(m) <= Pow10(n)
  {
    if m + 1 < n {
      Pow10Grows(m, n - 1);
    }
  }

  lemma ScaleTenfold(n: nat, small: nat, big: nat)
    requires 10 * small <= big
    ensures 10 * (n * small) <= n * big
  {
    MulMonotone(n, 10 * small, big);
    assert n * (10 * small) == 10 * (n * small);
  }

  /** The floors of two quotients differ when one numerator is at least the divisor and ten times the other. */
  lemma QuotientsDiffer(small: nat, big: nat, price: nat)
    requires price > 0 && price <= big && 10 * small <= big
    ensures small / price < big / price
  {
    var q, r := Divide(big, price);
    var j, t := Divide(small, price);
    if j >= q {
      MulMonotone(price, q, j);
      if q > 0 {
        MulMonotone(price, 1, q);
      }
    }
  }

  /** Some amount tells two scales apart that lie a factor of ten apart, after division by the same price. */
  lemma FloorsDiffer(price: nat, small: nat, big: nat)
    requires price > 0 && big > 0 && 10 * small <= big
    ensures var n := price / big + 1;
            n * small / price < n * big / price
  {
    var d, m := Divide(price, big);
    Distribute(big, d, 1);
    ScaleTenfold(d + 1, small, big);
    QuotientsDiffer((d + 1) * small, (d + 1) * big, price);
  }

  /** Rounding every part down loses at most one unit per part beyond the first. */
  lemma {:induction false} RoundingLoss(xs: seq<nat>, p: nat, q: nat)
    requires q > 0
    ensures SumScaled(xs, p, q) <= Sum(xs) * p / q
    ensures xs != [] ==> Sum(xs) * p / q <= SumScaled(xs, p, q) + |xs| - 1
  {
    if xs == [] {
      QuotientIs(0, q, 0, 0);
    } else {
      var rest := Sum(xs[1..]);
      RoundingLoss(xs[1..], p, q);
      Distribute(p, xs[0], rest);
      FloorOfSum(xs[0] * p, rest * p, q);
      if |xs| == 1 {
        QuotientIs(rest * p, q, 0, 0);
      }
    }
  }

  function Copies<T>(x: T, n: nat): (xs: seq<T>)
    ensures |xs| == n && forall i :: 0 <= i < n ==> xs[i] == x
  {
    if n == 0 then [] else [x] + Copies(x, n - 1)
  }

  lemma {:induction false} SumOfEqual(xs: seq<nat>, x: nat)
    requires forall i :: 0 <= i < |xs| ==> xs[i] == x
    ensures Sum(xs) == |xs| * x
  {
    if xs != [] {
      SumOfEqual(xs[1..], x);
      Distribute(x, |xs| - 1, 1);
    }
  }
}
