/** Products, quotients and remainders: the facts that several modules need of
    arithmetic that is not linear. */
module Arithmetic {

  lemma NonNegative(a: int, b: int)
    requires a >= 0 && b >= 0
    ensures a * b >= 0
  {}

  lemma MulPositive(a: nat, b: nat)
    requires a > 0 && b > 0
    ensures a * b > 0
  {}

  lemma Distribute(d: int, a: int, b: int)
    ensures d * (a + b) == d * a + d * b && d * (a - b) == d * a - d * b
  {}

  /** No multiple of d lies strictly between -d and d but 0. */
  lemma Multiple(d: nat, k: int)
    ensures k > 0 ==> d * k >= d
    ensures k < 0 ==> d * k + d <= 0
  {
    if k > 0 {
      Distribute(d, k, -1);
      NonNegative(d, k - 1);
    } else if k < 0 {
      Distribute(d, k, 1);
      NonNegative(d, -k - 1);
      assert d * (-k - 1) == -(d * (k + 1));
    }
  }

  lemma Quotient(x: int, d: nat)
    requires d > 0
    ensures x == d * (x / d) + x % d && 0 <= x % d < d
  {}

  /** Quotient and remainder are unique. */
  lemma Divide(x: int, d: nat, q: int, r: nat)
    requires x == d * q + r && r < d
    ensures x / d == q && x % d == r
  {
    Quotient(x, d);
    Distribute(d, q, x / d);
    Multiple(d, q - x / d);
  }

  lemma BelowModulus(x: nat, d: nat)
    requires x < d
    ensures x % d == x && x / d == 0
  {
    Divide(x, d, 0, x);
  }

  /** Multiples of the modulus do not matter. */
  lemma DropMultiple(d: nat, k: int, x: int)
    requires d > 0
    ensures (d * k + x) % d == x % d && (d * k + x) / d == k + x / d
  {
    Quotient(x, d);
    Distribute(d, k, x / d);
    Divide(d * k + x, d, k + x / d, x % d);
  }

  /** A remainder may be taken before adding. */
  lemma AddInside(x: int, y: int, d: nat)
    requires d > 0
    ensures (x % d + y) % d == (x + y) % d
  {
    Quotient(x, d);
    DropMultiple(d, x / d, x % d + y);
  }

  /** Dividing by s and then by h is dividing by their product. */
  lemma NestedDivision(b: nat, s: nat, h: nat)
    requires s > 0 && h > 0
    ensures s * h > 0
    ensures b / (s * h) == (b / s) / h
    ensures (b % (s * h)) / s == (b / s) % h
    ensures (b % (s * h)) % s == b % s
  {
    MulPositive(s, h);
    var side, r := b / s, b % s;
    var t, k := side / h, side % h;
    var rest := s * k + r;
    Quotient(b, s);
    Quotient(side, h);
    Regroup(b, s, h, side, r, t, k);
    NonNegative(s, k);
    Distribute(s, h, k + 1);
    Distribute(s, k, 1);
    Multiple(s, h - k);
    Distribute(s, h, k);
    Divide(b, s * h, t, rest);
    Divide(rest, s, k, r);
  }

  lemma Regroup(b: int, s: int, h: int, side: int, r: int, t: int, k: int)
    requires b == s * side + r && side == h * t + k
    ensures b == (s * h) * t + (s * k + r)
  {
    Distribute(s, h * t, k);
    assert s * (h * t) == (s * h) * t;
  }
}
