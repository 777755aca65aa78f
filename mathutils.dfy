/** Integer rounding and the vector helpers of math.cpp.

    The vector helpers work on `double` in the source; they are modelled on
    exact `real` numbers (no rounding error), which is enough to state what
    they select.  C++ `%` truncates toward zero, unlike Dafny's Euclidean
    `%`, so it is written out as `CRem`. */
module MathUtils {

  function Abs(x: int): (r: nat)
    ensures r == x || r == -x
  {
    if x < 0 then -x else x
  }

  /** C++ `x / r`: the quotient truncated toward zero. */
  function CDiv(x: int, r: int): int
    requires r != 0
  {
    var q := Abs(x) / Abs(r);
    if (x < 0) == (r < 0) then q else -q
  }

  /** C++ `x % r`: the remainder left by `CDiv`; it takes the sign of x and
      is smaller than r in magnitude. */
  function CRem(x: int, r: int): (m: int)
    requires r != 0
    ensures Abs(m) < Abs(r)
    ensures m == 0 || (m < 0 <==> x < 0)
  {
    var a := Abs(x) % Abs(r);
    if x < 0 then -a else a
  }

  lemma MulNeg(a: int, b: int)
    ensures (-a) * b == -(a * b) && a * (-b) == -(a * b) && (-a) * (-b) == a * b
  {
  }

  /** Quotient and remainder put x back together. */
  lemma DivRemIdentity(x: int, r: int)
    requires r != 0
    ensures x == CDiv(x, r) * r + CRem(x, r)
  {
    var ax, ar := Abs(x), Abs(r);
    var q: int, a: int := ax / ar, ax % ar;
    assert ax == q * ar + a;
    MulNeg(q, ar);
    if (x < 0) != (r < 0) {
      assert CDiv(x, r) == -q;
    }
  }

  /** `round(x, r)`: x unchanged when r divides it, otherwise
      `x + r - x % r`.  Division by zero is undefined in the source, so r
      must be non-zero. */
  function Round(x: int, r: int): (n: int)
    requires r != 0
  {
    var remainder := CRem(x, r);
    if remainder == 0 then x else x + r - remainder
  }

  /** A multiple of r is left as it is. */
  lemma RoundKeepsMultiples(x: int, r: int)
    requires r != 0 && CRem(x, r) == 0
    ensures Round(x, r) == x
  {
  }

  lemma MulMonotone(a: int, b: int, r: int)
    requires a <= b && r > 0
    ensures a * r <= b * r
  {
    assert b * r - a * r == (b - a) * r;
  }

  lemma MultipleHasNoRemainder(k: int, r: int)
    requires k >= 0 && r > 0
    ensures CRem(k * r, r) == 0
  {
    var q := CDiv(k * r, r);
    var m := CRem(k * r, r);
    DivRemIdentity(k * r, r);
    assert k * r == q * r + m;
    assert (k - q) * r == m;
    if k - q > 0 {
      MulMonotone(1, k - q, r);
    } else if k - q < 0 {
      MulMonotone(k - q, -1, r);
    }
  }

  /** For x >= 0 and r > 0, `round` rounds UP: it returns the least multiple
      of r that is not below x (not the nearest one its comment promises). */
  lemma RoundIsLeastMultipleAbove(x: int, r: int)
    requires x >= 0 && r > 0
    ensures exists k :: k >= 0 && Round(x, r) == k * r
    ensures x <= Round(x, r) < x + r
    ensures forall k :: k * r >= x ==> Round(x, r) <= k * r
  {
    var q := CDiv(x, r);
    var m := CRem(x, r);
    DivRemIdentity(x, r);
    assert x == q * r + m && 0 <= m < r;
    if q < 0 {
      MulMonotone(q, -1, r);
    }
    if m == 0 {
      assert Round(x, r) == q * r;
      forall k | k * r >= x ensures Round(x, r) <= k * r {
        if k >= q {
          MulMonotone(q, k, r);
        } else {
          MulMonotone(k, q - 1, r);
        }
      }
    } else {
      assert Round(x, r) == (q + 1) * r;
      forall k | k * r >= x ensures Round(x, r) <= k * r {
        if k <= q {
          MulMonotone(k, q, r);
        } else {
          MulMonotone(q + 1, k, r);
        }
      }
    }
  }

  /** For x >= 0 and r > 0, rounding twice is rounding once. */
  lemma RoundIdempotent(x: int, r: int)
    requires x >= 0 && r > 0
    ensures Round(Round(x, r), r) == Round(x, r)
  {
    RoundIsLeastMultipleAbove(x, r);
    var k :| k >= 0 && Round(x, r) == k * r;
    MultipleHasNoRemainder(k, r);
  }

  /** For x < 0 and r > 0, `round` does not stop at the least multiple of r
      above x: a non-multiple is moved one multiple further, strictly between
      x + r and x + 2r (round(-7, 5) is 0, not -5). */
  lemma RoundNegativeOvershoots(x: int, r: int)
    requires x < 0 && r > 0 && CRem(x, r) != 0
    ensures exists k :: Round(x, r) == k * r
    ensures x + r < Round(x, r) < x + 2 * r
  {
    var q := CDiv(x, r);
    var m := CRem(x, r);
    DivRemIdentity(x, r);
    assert x == q * r + m && -r < m < 0;
    assert Round(x, r) == (q + 1) * r;
  }

  // ----- vector helpers -----

  function Sum(v: seq<real>): real
  {
    if |v| == 0 then 0.0 else Sum(v[..|v| - 1]) + v[|v| - 1]
  }

  /** `max_value`: 0 for an empty vector, otherwise its greatest element
      (`*std::max_element`). */
  function MaxValue(v: seq<real>): (r: real)
    ensures |v| == 0 ==> r == 0.0
    ensures |v| > 0 ==> r in v && forall e :: e in v ==> e <= r
  {
    if |v| == 0 then 0.0
    else if |v| == 1 then v[0]
    else
      var rest := MaxValue(v[1..]);
      assert forall e :: e in v ==> e == v[0] || e in v[1..];
      if v[0] >= rest then v[0] else rest
  }

  /** `min_value`: 0 for an empty vector, otherwise its least element
      (`*std::min_element`). */
  function MinValue(v: seq<real>): (r: real)
    ensures |v| == 0 ==> r == 0.0
    ensures |v| > 0 ==> r in v && forall e :: e in v ==> r <= e
  {
    if |v| == 0 then 0.0
    else if |v| == 1 then v[0]
    else
      var rest := MinValue(v[1..]);
      assert forall e :: e in v ==> e == v[0] || e in v[1..];
      if v[0] <= rest then v[0] else rest
  }

  /** `average`: the mean, or 0 for an empty vector. */
  function Average(v: seq<real>): (r: real)
  {
    if |v| > 0 then Sum(v) / (|v| as real) else 0.0
  }

  lemma {:induction false} SumBounds(v: seq<real>, lo: real, hi: real)
    requires forall e :: e in v ==> lo <= e <= hi
    ensures (|v| as real) * lo <= Sum(v) <= (|v| as real) * hi
    decreases |v|
  {
    if |v| > 0 {
      var init := v[..|v| - 1];
      assert forall e :: e in init ==> e in v;
      SumBounds(init, lo, hi);
      assert v[|v| - 1] in v;
      var n := (|v| - 1) as real;
      assert (|v| as real) * lo == n * lo + lo;
      assert (|v| as real) * hi == n * hi + hi;
    }
  }

  /** Any bounds on the elements of a non-empty vector bound its average. */
  lemma AverageBounds(v: seq<real>, lo: real, hi: real)
    requires |v| > 0
    requires forall e :: e in v ==> lo <= e <= hi
    ensures lo <= Average(v) <= hi
  {
    SumBounds(v, lo, hi);
    var n, total := |v| as real, Sum(v);
    assert Average(v) == total / n;
    DivideBounds(n, lo, total, hi);
  }

  /** The average of a non-empty vector lies between its least and its
      greatest element; the empty vector averages to 0. */
  lemma AverageBetweenMinAndMax(v: seq<real>)
    ensures |v| == 0 ==> Average(v) == 0.0
    ensures |v| > 0 ==> MinValue(v) <= Average(v) <= MaxValue(v)
  {
    if |v| > 0 {
      AverageBounds(v, MinValue(v), MaxValue(v));
    }
  }

  lemma DivideBounds(n: real, lo: real, s: real, hi: real)
    requires n > 0.0 && n * lo <= s <= n * hi
    ensures lo <= s / n <= hi
  {
    assert s / n * n == s;
  }
}
