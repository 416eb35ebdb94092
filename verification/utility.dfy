/** The arithmetic helpers the adapter relies on: C's integer division
    and conversion to uint8, and the `map` range remapping of utility.h. */
module Utility {

  function Abs(x: int): (n: nat)
  {
    if x < 0 then -x else x
  }

  /** C's `/` on int, which truncates toward zero (Dafny's `/` is Euclidean). */
  function CDiv(a: int, b: int): (q: int)
    requires b != 0
  {
    if (a < 0) == (b < 0) then Abs(a) / Abs(b) else -(Abs(a) / Abs(b))
  }

  /** CDiv is C's division: the remainder a - CDiv(a, b) * b is smaller than
      the divisor in magnitude and, when it is not zero, has the sign of the
      dividend. */
  lemma CDivTruncates(a: int, b: int)
    requires b != 0
    ensures var rem := a - CDiv(a, b) * b; Abs(rem) < Abs(b) && (rem == 0 || (rem < 0 <==> a < 0))
  {
    var qa := Abs(a) / Abs(b);
    DivRemainder(Abs(a), Abs(b));
    if a >= 0 && b > 0 {
      assert a - CDiv(a, b) * b == Abs(a) - qa * Abs(b);
    } else if a < 0 && b < 0 {
      assert qa * b == -(qa * Abs(b));
      assert a - CDiv(a, b) * b == -(Abs(a) - qa * Abs(b));
    } else if a >= 0 {
      assert (-qa) * b == qa * Abs(b);
      assert a - CDiv(a, b) * b == Abs(a) - qa * Abs(b);
    } else {
      assert (-qa) * b == -(qa * Abs(b));
      assert a - CDiv(a, b) * b == -(Abs(a) - qa * Abs(b));
    }
  }

  /** The Euclidean remainder of x by a positive y lies in [0, y). */
  lemma DivRemainder(x: int, y: int)
    requires 0 <= x && 0 < y
    ensures 0 <= x - (x / y) * y < y
  {
    assert x == (x / y) * y + x % y;
  }

  /** For a non-negative dividend and a positive divisor, C's and Dafny's
      divisions agree. */
  lemma CDivNonNegative(a: int, b: int)
    requires 0 <= a && 0 < b
    ensures CDiv(a, b) == a / b
  {
  }

  /** Storing an int into a uint8 keeps its value modulo 256, so a value
      that fits is stored unchanged. */
  function ToUint8(v: int): (b: bv8)
    ensures 0 <= v < 256 ==> b as int == v
  {
    (v % 256) as bv8
  }

  /** `map(x, in_min, in_max, out_min, out_max)`: remaps x linearly from
      [inMin, inMax] onto [outMin, outMax] with C integer arithmetic. For an
      increasing input range the endpoints land on the endpoints and the
      range lands in the range. */
  function Map(x: int, inMin: int, inMax: int, outMin: int, outMax: int): (r: int)
    requires inMin != inMax
    ensures x == inMin ==> r == outMin
    ensures inMin < inMax && x == inMax ==> r == outMax
    ensures inMin < inMax && outMin <= outMax && inMin <= x <= inMax ==> outMin <= r <= outMax
  {
    var k := outMax - outMin;
    var d := inMax - inMin;
    if inMin < inMax && x == inMax then
      MulDivCancel(k, d);
      CDiv((x - inMin) * k, d) + outMin
    else if inMin < inMax && outMin <= outMax && inMin <= x <= inMax then
      ScaledFractionBounded(x - inMin, k, d);
      CDiv((x - inMin) * k, d) + outMin
    else
      CDiv((x - inMin) * k, d) + outMin
  }

  /** Multiplying by a non-negative factor keeps order. */
  lemma MulMonotone(c: int, a: int, b: int)
    requires 0 <= c && a <= b
    ensures c * a <= c * b
  {
    assert c * b - c * a == c * (b - a);
  }

  /** Euclidean quotient bounds: q == n / d is the one q with q*d <= n < (q+1)*d. */
  lemma DivBetween(n: int, d: int, q: int)
    requires 0 < d && d * q <= n < d * (q + 1)
    ensures n / d == q
  {
    var q' := n / d;
    assert d * q' <= n < d * (q' + 1) by {
      assert n == d * q' + n % d;
    }
    if q' < q {
      MulMonotone(d, q' + 1, q);
    } else if q < q' {
      MulMonotone(d, q + 1, q');
    }
  }

  /** (d * k) / d == k under C's truncating division, for a positive d. */
  lemma MulDivCancel(k: int, d: int)
    requires d > 0
    ensures CDiv(d * k, d) == k
  {
    if k >= 0 {
      DivBetween(d * k, d, k);
      CDivNonNegative(d * k, d);
    } else {
      assert -(d * k) == d * (-k);
      DivBetween(d * (-k), d, -k);
      assert CDiv(d * k, d) == -(Abs(d * k) / Abs(d));
    }
  }

  /** 0 <= a <= d implies 0 <= (a * k) / d <= k. */
  lemma ScaledFractionBounded(a: int, k: int, d: int)
    requires 0 <= a <= d && 0 < d && 0 <= k
    ensures 0 <= CDiv(a * k, d) <= k
  {
    MulMonotone(k, a, d);
    assert 0 <= a * k <= d * k;
    DivUpTo(a * k, d * k, d);
    DivBetween(d * k, d, k);
    CDivNonNegative(a * k, d);
  }

  /** Euclidean division by a positive number keeps order. */
  lemma DivUpTo(m: int, n: int, d: int)
    requires 0 < d && 0 <= m <= n
    ensures 0 <= m / d <= n / d
  {
    var qm, qn := m / d, n / d;
    assert d * qm <= m && n < d * (qn + 1) by {
      assert m == d * qm + m % d;
      assert n == d * qn + n % d;
    }
    if qn < qm {
      MulMonotone(d, qn + 1, qm);
    }
  }

  /** Remapping never reverses the order of two inputs inside the input range. */
  lemma MapMonotone(x: int, y: int, inMin: int, inMax: int, outMin: int, outMax: int)
    requires inMin < inMax && outMin <= outMax
    requires inMin <= x <= y <= inMax
    ensures Map(x, inMin, inMax, outMin, outMax) <= Map(y, inMin, inMax, outMin, outMax)
  {
    var k, d := outMax - outMin, inMax - inMin;
    MulMonotone(k, x - inMin, y - inMin);
    assert 0 <= (x - inMin) * k <= (y - inMin) * k;
    DivUpTo((x - inMin) * k, (y - inMin) * k, d);
    CDivNonNegative((x - inMin) * k, d);
    CDivNonNegative((y - inMin) * k, d);
  }
}
