/** Natural-number powers, geometric sums and the Euclidean division facts
    that the mixed-radix state encoding rests on. */
module Arith {

  /** k^e */
  function Pow(k: nat, e: nat): nat
  {
    if e == 0 then 1 else k * Pow(k, e - 1)
  }

  /** 1 + k + ... + k^(m-1): the number of windows of length below m. */
  function Geo(k: nat, m: nat): nat
  {
    if m == 0 then 0 else 1 + k * Geo(k, m - 1)
  }

  lemma {:induction false} PowPositive(k: nat, e: nat)
    requires k >= 1
    ensures Pow(k, e) >= 1
  {
    if e > 0 {
      PowPositive(k, e - 1);
      MulMonotone(1, k, Pow(k, e - 1));
    }
  }

  /** The geometric sum grows by the next power. */
  lemma {:induction false} GeoStep(k: nat, m: nat)
    ensures Geo(k, m + 1) == Geo(k, m) + Pow(k, m)
  {
    if m > 0 {
      GeoStep(k, m - 1);
      calc {
        Geo(k, m + 1);
        1 + k * Geo(k, m);
        1 + k * (Geo(k, m - 1) + Pow(k, m - 1));
        { assert k * (Geo(k, m - 1) + Pow(k, m - 1)) == k * Geo(k, m - 1) + k * Pow(k, m - 1); }
        Geo(k, m) + Pow(k, m);
      }
    }
  }

  /** k^m == (k-1)(1 + k + ... + k^(m-1)) + 1 */
  lemma {:induction false} PowGeo(k: nat, m: nat)
    requires k >= 1
    ensures Pow(k, m) == (k - 1) * Geo(k, m) + 1
  {
    if m > 0 {
      PowGeo(k, m - 1);
      GeoFactor(k, Geo(k, m - 1));
    }
  }

  lemma GeoFactor(k: int, g: int)
    ensures k * ((k - 1) * g + 1) == (k - 1) * (1 + k * g) + 1
  {
    assert (k - 1) * (1 + k * g) == (k - 1) + k * ((k - 1) * g);
  }

  lemma MulMonotone(a: int, b: int, c: int)
    requires a <= b && c >= 0
    ensures a * c <= b * c
  {
    assert b * c - a * c == (b - a) * c;
  }

  /** Quotient and remainder of a natural number by a positive divisor. */
  lemma DivModNat(x: int, d: int)
    requires x >= 0 && d > 0
    ensures x == (x / d) * d + x % d && 0 <= x % d < d && x / d >= 0
  {
    if x / d < 0 {
      MulMonotone(x / d, -1, d);
    }
  }

  /** Euclidean division is determined by any quotient/remainder pair. */
  lemma DivModUnique(x: int, d: int, q: int, r: int)
    requires d > 0 && x == q * d + r && 0 <= r < d
    ensures x / d == q && x % d == r
  {
    var q0, r0 := x / d, x % d;
    assert x == q0 * d + r0;
    assert (q - q0) * d == r0 - r;
    if q > q0 {
      MulMonotone(1, q - q0, d);
    } else if q < q0 {
      MulMonotone(1, q0 - q, d);
    }
  }

  /** A number has one digit/rest split in base d. */
  lemma PeelDigit(d: int, q1: int, r1: int, q2: int, r2: int)
    requires d > 0 && 0 <= r1 < d && 0 <= r2 < d && r1 + d * q1 == r2 + d * q2
    ensures q1 == q2 && r1 == r2
  {
    DivModUnique(r1 + d * q1, d, q1, r1);
    DivModUnique(r1 + d * q1, d, q2, r2);
  }
}
