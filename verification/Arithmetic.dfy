/** Products and rounded quotients of integers. */
module Arithmetic {

  lemma MulMonotone(a: int, b: int, c: nat)
    requires a <= b
    ensures a * c <= b * c && c * a <= c * b
    ensures a < b ==> a * c + c <= b * c
  {
    if a < b {
      assert (a + 1) * c <= b * c;
    }
  }

  lemma MulStrict(a: int, b: int, c: nat)
    requires a < b && c > 0
    ensures c * a < c * b
  {
  }

  lemma MulCancel(a: int, b: int, c: nat)
    requires c * a < c * b
    ensures a < b
  {
    if a >= b {
      MulMonotone(b, a, c);
    }
  }

  /** `k` is `minor * n / major` rounded to the nearest integer, halves upward; products stand for quotients. */
  predicate HalfUp(major: nat, minor: nat, n: nat, k: int) {
    if major == 0 then k == 0 else major * (2 * k - 1) <= 2 * (minor * n) < major * (2 * k + 1)
  }

  function Rounded(major: nat, minor: nat, n: nat): (k: nat)
    ensures HalfUp(major, minor, n, k)
  {
    if major == 0 then 0
    else
      var a, b := 2 * (minor * n) + major, 2 * major;
      assert a == b * (a / b) + a % b;
      a / b
  }

  lemma HalfUpUnique(major: nat, minor: nat, n: nat, k: int, l: int)
    requires HalfUp(major, minor, n, k) && HalfUp(major, minor, n, l)
    ensures k == l
  {
    if major > 0 {
      if k < l {
        MulMonotone(2 * k + 1, 2 * l - 1, major);
      } else if l < k {
        MulMonotone(2 * l + 1, 2 * k - 1, major);
      }
    }
  }

  function Remainder(a: nat, b: nat): (r: nat)
    requires b > 0
    ensures r < b
  {
    a % b
  }

  function Quotient(a: nat, b: nat): (r: nat)
    requires b > 0
  {
    a / b
  }

  lemma Division(a: nat, b: nat)
    requires b > 0
    ensures a == b * Quotient(a, b) + Remainder(a, b)
  {
    var q, r := a / b, a % b;
    assert a == b * q + r;
  }

  /** The greatest common divisor, by Euclid's algorithm. */
  function Gcd(a: nat, b: nat): (g: nat)
    ensures g == 0 <==> a == 0 && b == 0
    decreases b
  {
    if b == 0 then a else Gcd(b, Remainder(a, b))
  }

  /** It divides both numbers, `p` and `q` times, and is a sum of multiples of them; so it is the greatest. */
  lemma {:induction false} Bezout(a: nat, b: nat) returns (p: nat, q: nat, x: int, y: int)
    ensures a == Gcd(a, b) * p && b == Gcd(a, b) * q
    ensures a * x + b * y == Gcd(a, b)
    decreases b
  {
    hide Remainder, Quotient;
    if b == 0 {
      p, q, x, y := 1, 0, 1, 0;
    } else {
      Division(a, b);
      var r, c := Remainder(a, b), Quotient(a, b);
      p, q, x, y := Bezout(b, r);
      p, q, x, y := BezoutStep(a, b, c, r, Gcd(a, b), p, q, x, y);
    }
  }

  lemma BezoutStep(a: nat, b: nat, c: nat, r: nat, g: nat, p: nat, q: nat, x: int, y: int)
    returns (p': nat, q': nat, x': int, y': int)
    requires a == b * c + r && b == g * p && r == g * q && b * x + r * y == g
    ensures a == g * p' && b == g * q' && a * x' + b * y' == g
  {
    p', q', x', y' := NatProduct(p, c) + q, p, y, x - c * y;
    Factored(g, p, c, q);
    Recombined(b, c, r, x, y);
  }

  lemma Factored(g: int, p: int, c: int, q: int)
    ensures g * (p * c + q) == (g * p) * c + g * q
  {
  }

  lemma Recombined(b: int, c: int, r: int, x: int, y: int)
    ensures (b * c + r) * y + b * (x - c * y) == b * x + r * y
  {
    assert (b * c + r) * y == b * (c * y) + r * y;
    assert b * (x - c * y) == b * x - b * (c * y);
  }

  function NatProduct(a: nat, b: nat): (r: nat)
    ensures r == a * b
  {
    MulMonotone(0, a, b);
    a * b
  }

  lemma ExactQuotient(a: nat, g: nat, p: nat)
    requires a == g * p && g > 0
    ensures a / g == p
  {
    assert a == g * (a / g) + a % g;
    SameQuotient(g, p, a / g, a % g);
  }

  lemma SameQuotient(g: nat, p: nat, q: nat, r: nat)
    requires g * p == g * q + r && r < g
    ensures q == p
  {
    if q < p {
      MulMonotone(q + 1, p, g);
    } else if p < q {
      MulMonotone(p, q, g);
    }
  }
}
