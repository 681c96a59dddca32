/** Python's numeric built-ins as the views and models use them, in exact arithmetic. */
module PyMath {

  function Abs(x: int): (r: nat)
    ensures r == x || r == -x
  {
    if x < 0 then -x else x
  }

  /** Python's `round(n / d)`: the nearest integer to the rational n/d, ties to the even neighbour. */
  function RoundHalfEven(n: int, d: int): (r: int)
    requires d > 0
    ensures 2 * Abs(n - r * d) <= d
    ensures 2 * Abs(n - r * d) == d ==> r % 2 == 0
  {
    var q := n / d;
    var m := n % d;
    assert n == q * d + m;
    if 2 * m < d then q
    else if 2 * m > d then q + 1
    else if q % 2 == 0 then q
    else q + 1
  }

  /** The nearest-integer property pins the rounded value down: there is only one candidate. */
  lemma RoundHalfEvenUnique(n: int, d: int, k: int)
    requires d > 0
    requires 2 * Abs(n - k * d) <= d
    requires 2 * Abs(n - k * d) == d ==> k % 2 == 0
    ensures RoundHalfEven(n, d) == k
  {
    NearestUnique(n, d, RoundHalfEven(n, d), k);
  }

  /** Nearest-integer-with-even-ties, as a relation, has at most one solution. */
  lemma NearestUnique(n: int, d: int, r: int, k: int)
    requires d > 0
    requires 2 * Abs(n - r * d) <= d && (2 * Abs(n - r * d) == d ==> r % 2 == 0)
    requires 2 * Abs(n - k * d) <= d && (2 * Abs(n - k * d) == d ==> k % 2 == 0)
    ensures r == k
  {
    var e1 := n - r * d;
    var e2 := n - k * d;
    var t := k - r;
    assert t * d == e1 - e2 by { Distribute(k, r, d); }
    UnitFactor(t, d);
    // t == 1 or t == -1 would put both r and k at exactly half of d from n, both even, one apart
  }

  lemma Distribute(a: int, b: int, d: int)
    ensures (a - b) * d == a * d - b * d
  {
  }

  lemma MulMonotone(a: int, b: int, d: int)
    requires d > 0 && a <= b
    ensures a * d <= b * d
  {
  }

  /** A multiple of d within d of zero is -d, 0 or d. */
  lemma UnitFactor(t: int, d: int)
    requires d > 0 && -d <= t * d <= d
    ensures -1 <= t <= 1
  {
    if t >= 2 {
      MulMonotone(2, t, d);
    } else if t <= -2 {
      MulMonotone(t, -2, d);
    }
  }

  /** Rounding is monotone in the numerator. */
  lemma RoundHalfEvenMonotone(n1: int, n2: int, d: int)
    requires d > 0 && n1 <= n2
    ensures RoundHalfEven(n1, d) <= RoundHalfEven(n2, d)
  {
    var r1 := RoundHalfEven(n1, d);
    var r2 := RoundHalfEven(n2, d);
    if r1 > r2 {
      var t := r1 - r2;
      assert t * d == r1 * d - r2 * d by { Distribute(r1, r2, d); }
      MulMonotone(1, t, d);
      // r1 sits at most half of d above n1, r2 at most half of d below n2, yet r1 * d >= r2 * d + d
      assert false;
    }
  }

  /** Python's `round(part / whole * 100)` guarded by `if whole > 0 else 0`: a percentage, 0 for an empty whole. */
  function Percent(part: int, whole: nat): (r: int)
    ensures whole == 0 ==> r == 0
    ensures whole > 0 ==> 2 * Abs(100 * part - r * whole) <= whole
    ensures whole > 0 && 2 * Abs(100 * part - r * whole) == whole ==> r % 2 == 0
    ensures 0 <= part <= whole ==> 0 <= r <= 100
  {
    if whole == 0 then 0
    else if 0 <= part <= whole then
      PercentBounds(part, whole);
      RoundHalfEven(100 * part, whole)
    else
      RoundHalfEven(100 * part, whole)
  }

  lemma {:induction false} PercentBounds(part: int, whole: nat)
    requires 0 <= part <= whole && whole > 0
    ensures 0 <= RoundHalfEven(100 * part, whole) <= 100
  {
    RoundHalfEvenMonotone(0, 100 * part, whole);
    RoundHalfEvenMonotone(100 * part, 100 * whole, whole);
    RoundHalfEvenUnique(0, whole, 0);
    RoundHalfEvenUnique(100 * whole, whole, 100);
  }

  /** A larger part never gives a smaller percentage. */
  lemma {:induction false} PercentMonotone(c1: int, c2: int, whole: nat)
    requires c1 <= c2
    ensures Percent(c1, whole) <= Percent(c2, whole)
  {
    if whole > 0 {
      RoundHalfEvenMonotone(100 * c1, 100 * c2, whole);
    }
  }

  /** The whole gives 100 and nothing gives 0. */
  lemma {:induction false} PercentEnds(whole: nat)
    requires whole > 0
    ensures Percent(whole, whole) == 100
    ensures Percent(0, whole) == 0
  {
    RoundHalfEvenUnique(100 * whole, whole, 100);
    RoundHalfEvenUnique(0, whole, 0);
  }

  /** Below 200 items the ends are reached only by the whole and by nothing. */
  lemma {:induction false} PercentEndsExact(part: int, whole: nat)
    requires 0 <= part <= whole && 0 < whole < 200
    ensures Percent(part, whole) == 100 <==> part == whole
    ensures Percent(part, whole) == 0 <==> part == 0
  {
    PercentEnds(whole);
    var r := Percent(part, whole);
    if part < whole {
      // 100 * part <= 100 * whole - 100, and 100 > whole / 2
      assert 2 * (100 * whole - 100 * part) >= 200 > whole;
      assert r != 100;
    }
    if part > 0 {
      assert 2 * (100 * part) >= 200 > whole;
      assert r != 0;
    }
  }

  /** From 200 items on, one short of the whole already rounds to 100 and a single item rounds to 0. */
  lemma PercentEndsFrom200(whole: nat)
    requires whole >= 200
    ensures Percent(whole - 1, whole) == 100
    ensures Percent(1, whole) == 0
  {
    RoundHalfEvenUnique(100 * (whole - 1), whole, 100);
    RoundHalfEvenUnique(100, whole, 0);
  }

  /** Python's `int(n / d)` for d > 0: the quotient truncated toward zero (not floored). */
  function TruncDiv(n: int, d: int): (r: int)
    requires d > 0
    ensures n >= 0 ==> 0 <= r * d <= n < r * d + d
    ensures n < 0 ==> r * d - d < n <= r * d <= 0
  {
    if n >= 0 then
      FloorDiv(n, d);
      n / d
    else
      FloorDiv(-n, d);
      assert -((-n) / d) * d == -(((-n) / d) * d);
      -((-n) / d)
  }

  lemma FloorDiv(n: nat, d: int)
    requires d > 0
    ensures 0 <= (n / d) * d <= n < (n / d) * d + d
  {
    var q := n / d;
    assert n == q * d + n % d;
    MulMonotone(0, q, d);
  }
}
