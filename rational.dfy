// Exact rational arithmetic. The solver keeps every tableau entry as a
// boost::rational<int64_t>; here an entry is a Dafny `real`, which is an
// exact rational number. Overflow of the 64-bit numerator and denominator is
// not modelled.
module Rational {

  /** `x` has no fractional part. */
  predicate IsInteger(x: real) {
    x == x.Floor as real
  }

  /** Truncation toward zero, what rational_cast<int64_t> computes. */
  function Trunc(x: real): (t: int)
    ensures 0.0 <= x ==> 0 <= t && t as real <= x < t as real + 1.0
    ensures x < 0.0 ==> t <= 0 && x <= t as real < x + 1.0
    ensures IsInteger(x) <==> t as real == x
  {
    if x >= 0.0 then x.Floor
    else
      var t := -((-x).Floor);
      FloorOfInteger(-x.Floor);
      assert IsInteger(x) ==> -x == (-x.Floor) as real;
      t
  }

  /** Converting an integer to a real and back loses nothing. */
  lemma FloorOfInteger(k: int)
    ensures (k as real).Floor == k
  {
  }

  /** The fractional part under truncation toward zero: `x - trunc(x)`.
      It has the sign of `x`, unlike the floor-based fractional part. */
  function FracPart(x: real): (f: real)
    ensures 0.0 <= x ==> 0.0 <= f < 1.0
    ensures x < 0.0 ==> -1.0 < f <= 0.0
    ensures f == 0.0 <==> IsInteger(x)
    ensures IsInteger(x - f)
  {
    var t := Trunc(x);
    FloorOfInteger(t);
    IntegerEqual(t as real, x - (x - t as real));
    x - t as real
  }

  /** The fractional part under the floor, `x - floor(x)`: never negative,
      whatever the sign of `x`. */
  function FloorFracPart(x: real): (f: real)
    ensures 0.0 <= f < 1.0
    ensures IsInteger(x - f)
    ensures 0.0 <= x ==> f == FracPart(x)
  {
    var k := x.Floor;
    FloorOfInteger(k);
    IntegerEqual(k as real, x - (x - k as real));
    x - k as real
  }

  /** The floor-based fractional part of every entry. */
  function FloorFracParts(a: seq<real>): seq<real> {
    seq(|a|, j requires 0 <= j < |a| => FloorFracPart(a[j]))
  }

  /** Applied to non-negative integer values, a vector's inner product and
      that of its fractional parts differ by an integer, and the latter is
      not negative. */
  lemma FractionalPartsSplit(a: seq<real>, x: seq<real>)
    requires |a| == |x|
    requires forall j :: 0 <= j < |x| ==> 0.0 <= x[j] && IsInteger(x[j])
    ensures 0.0 <= Dot(FloorFracParts(a), x)
    ensures IsInteger(Dot(a, x) - Dot(FloorFracParts(a), x))
  {
    var frac := FloorFracParts(a);
    var whole := seq(|a|, j requires 0 <= j < |a| => a[j].Floor as real);
    forall j | 0 <= j < |a|
      ensures whole[j] == a[j] - frac[j]
    {
    }
    DotDifference(whole, a, frac, x);
    forall j | 0 <= j < |a|
      ensures IsInteger(whole[j]) && IsInteger(x[j])
    {
      FloorOfInteger(a[j].Floor);
    }
    DotOfIntegers(whole, x);
    IntegerEqual(Dot(whole, x), Dot(a, x) - Dot(frac, x));
    DotNonNegative(frac, x);
  }

  /** The inner product of a difference of vectors is the difference of
      their inner products. */
  lemma {:induction false} DotDifference(h: seq<real>, a: seq<real>, b: seq<real>, x: seq<real>)
    requires |h| == |a| == |b| == |x|
    requires forall j :: 0 <= j < |h| ==> h[j] == a[j] - b[j]
    ensures Dot(h, x) == Dot(a, x) - Dot(b, x)
  {
    if |h| > 0 {
      DotDifference(h[1..], a[1..], b[1..], x[1..]);
      assert h[0] * x[0] == a[0] * x[0] - b[0] * x[0];
    }
  }

  /** Being an integer carries over to an equal value. */
  lemma IntegerEqual(u: real, v: real)
    requires IsInteger(u) && u == v
    ensures IsInteger(v)
  {
  }

  /** The difference of two integers is an integer. */
  lemma IntegerDifference(u: real, v: real)
    requires IsInteger(u) && IsInteger(v)
    ensures IsInteger(u - v)
  {
    assert u - v == (u.Floor - v.Floor) as real;
  }

  /** An integer above -1 is not negative. */
  lemma IntegerAboveMinusOne(d: real)
    requires IsInteger(d) && -1.0 < d
    ensures 0.0 <= d
  {
  }

  /** Integer coefficients applied to integer values give an integer. */
  lemma {:induction false} DotOfIntegers(a: seq<real>, x: seq<real>)
    requires |a| == |x|
    requires forall j :: 0 <= j < |a| ==> IsInteger(a[j]) && IsInteger(x[j])
    ensures IsInteger(Dot(a, x))
  {
    if |a| > 0 {
      DotOfIntegers(a[1..], x[1..]);
      var p, q, r := a[0].Floor, x[0].Floor, Dot(a[1..], x[1..]).Floor;
      assert a[0] * x[0] == (p * q) as real;
      assert Dot(a, x) == (p * q + r) as real;
    }
  }

  /** The inner product of two vectors of the same length. */
  function Dot(a: seq<real>, x: seq<real>): real
    requires |a| == |x|
  {
    if |a| == 0 then 0.0 else a[0] * x[0] + Dot(a[1..], x[1..])
  }

  /** The inner product over the first `k` positions, summed from the
      back. */
  function RowSum(a: seq<real>, x: seq<real>, k: nat): real
    requires k <= |a| && k <= |x|
  {
    if k == 0 then 0.0 else RowSum(a, x, k - 1) + a[k - 1] * x[k - 1]
  }

  /** Summing from the back gives the inner product of the prefixes. */
  lemma {:induction false} RowSumIsDot(a: seq<real>, x: seq<real>, k: nat)
    requires k <= |a| && k <= |x|
    ensures RowSum(a, x, k) == Dot(a[..k], x[..k])
  {
    if k > 0 {
      RowSumIsDot(a, x, k - 1);
      assert a[..k] == a[..k - 1] + [a[k - 1]] && x[..k] == x[..k - 1] + [x[k - 1]];
      DotAppend(a[..k - 1], [a[k - 1]], x[..k - 1], [x[k - 1]]);
      assert Dot([a[k - 1]], [x[k - 1]]) == a[k - 1] * x[k - 1] + Dot([], []);
    }
  }

  /** How far `x` is from solving the equation held by a tableau row:
      every entry but the last is a coefficient, the last is the right-hand
      side. */
  function Residual(row: seq<real>, x: seq<real>): real
    requires |row| == |x| + 1
  {
    Dot(row[..|x|], x) - row[|x|]
  }

  /** Subtracting `k` times one vector from another subtracts `k` times
      its inner product. */
  lemma DotCombination(h: seq<real>, a: seq<real>, b: seq<real>, k: real, x: seq<real>)
    requires |h| == |a| == |b| == |x|
    requires forall j :: 0 <= j < |h| ==> h[j] == a[j] - k * b[j]
    ensures Dot(h, x) == Dot(a, x) - k * Dot(b, x)
  {
    var kb := seq(|b|, j requires 0 <= j < |b| => k * b[j]);
    DotScale(kb, b, k, x);
    DotDifference(h, a, kb, x);
  }

  /** Negating a vector negates its inner product. */
  lemma {:induction false} DotNegate(a: seq<real>, h: seq<real>, x: seq<real>)
    requires |h| == |a| == |x|
    requires forall j :: 0 <= j < |h| ==> a[j] == -h[j]
    ensures Dot(a, x) == -Dot(h, x)
  {
    if |h| > 0 {
      DotNegate(a[1..], h[1..], x[1..]);
      assert a[0] * x[0] == -(h[0] * x[0]);
    }
  }

  /** Scaling a vector by `p` scales its inner product by `p`. */
  lemma {:induction false} DotScale(a: seq<real>, h: seq<real>, p: real, x: seq<real>)
    requires |h| == |a| == |x|
    requires forall j :: 0 <= j < |h| ==> a[j] == p * h[j]
    ensures Dot(a, x) == p * Dot(h, x)
  {
    if |h| > 0 {
      DotScale(a[1..], h[1..], p, x[1..]);
      assert a[0] * x[0] == p * (h[0] * x[0]);
    }
  }

  /** When every term but the one at `p` vanishes, the inner product is
      that one term. */
  lemma {:induction false} DotSingleTerm(a: seq<real>, x: seq<real>, p: nat)
    requires |a| == |x| && p < |a|
    requires forall j :: 0 <= j < |a| && j != p ==> a[j] * x[j] == 0.0
    ensures Dot(a, x) == a[p] * x[p]
  {
    if p == 0 {
      DotZero(a[1..], x[1..]);
    } else {
      DotSingleTerm(a[1..], x[1..], p - 1);
    }
  }

  /** When every term vanishes, so does the inner product. */
  lemma {:induction false} DotZero(a: seq<real>, x: seq<real>)
    requires |a| == |x|
    requires forall j :: 0 <= j < |a| ==> a[j] * x[j] == 0.0
    ensures Dot(a, x) == 0.0
  {
    if |a| > 0 {
      DotZero(a[1..], x[1..]);
    }
  }

  /** The inner product splits at any position. */
  lemma DotSplit(a: seq<real>, x: seq<real>, k: nat)
    requires |a| == |x| && k <= |a|
    ensures Dot(a, x) == Dot(a[..k], x[..k]) + Dot(a[k..], x[k..])
  {
    assert a == a[..k] + a[k..] && x == x[..k] + x[k..];
    DotAppend(a[..k], a[k..], x[..k], x[k..]);
  }

  /** The inner product of concatenations is the sum of the parts'. */
  lemma {:induction false} DotAppend(a1: seq<real>, a2: seq<real>, x1: seq<real>, x2: seq<real>)
    requires |a1| == |x1| && |a2| == |x2|
    ensures Dot(a1 + a2, x1 + x2) == Dot(a1, x1) + Dot(a2, x2)
  {
    if |a1| > 0 {
      DotAppend(a1[1..], a2, x1[1..], x2);
      assert (a1 + a2)[1..] == a1[1..] + a2 && (x1 + x2)[1..] == x1[1..] + x2;
    } else {
      assert a1 + a2 == a2 && x1 + x2 == x2;
    }
  }



  /** Non-negative coefficients applied to a non-negative vector give a
      non-negative sum. */
  lemma {:induction false} DotNonNegative(a: seq<real>, x: seq<real>)
    requires |a| == |x|
    requires forall j :: 0 <= j < |a| ==> 0.0 <= a[j] && 0.0 <= x[j]
    ensures 0.0 <= Dot(a, x)
  {
    if |a| > 0 {
      DotNonNegative(a[1..], x[1..]);
      assert 0.0 <= a[0] * x[0];
    }
  }

  /** A row equation whose coefficients are all non-negative and whose
      right-hand side is negative has no non-negative solution. */
  lemma NoNonNegativeSolution(row: seq<real>, x: seq<real>)
    requires |row| == |x| + 1
    requires forall j :: 0 <= j < |x| ==> 0.0 <= row[j] && 0.0 <= x[j]
    requires row[|x|] < 0.0
    ensures Residual(row, x) > 0.0
  {
    DotNonNegative(row[..|x|], x);
  }

  /** The residual of a combined row is the same combination of residuals. */
  lemma ResidualCombination(h: seq<real>, a: seq<real>, b: seq<real>, k: real, x: seq<real>)
    requires |h| == |a| == |b| == |x| + 1
    requires forall j :: 0 <= j < |h| ==> h[j] == a[j] - k * b[j]
    ensures Residual(h, x) == Residual(a, x) - k * Residual(b, x)
  {
    var n := |x|;
    DotCombination(h[..n], a[..n], b[..n], k, x);
  }

  /** The residual of a scaled row is the scaled residual. */
  lemma ResidualScale(a: seq<real>, h: seq<real>, p: real, x: seq<real>)
    requires |h| == |a| == |x| + 1
    requires forall j :: 0 <= j < |h| ==> a[j] == p * h[j]
    ensures Residual(a, x) == p * Residual(h, x)
  {
    var n := |x|;
    DotScale(a[..n], h[..n], p, x);
  }
}
