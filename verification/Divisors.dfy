/**
 The greatest common divisor, and the largest remainder that the multiples of a number leave: the
 arithmetic behind the error of two nested divisions.
*/
module Divisors {
  import opened Bits

  /** Euclid's algorithm. */
  function Gcd(a: nat, b: nat): (g: nat)
    ensures a > 0 || b > 0 ==> g > 0
    decreases b
  {
    if b == 0 then a else Gcd(b, a % b)
  }

  lemma MultipleOf(a: nat, b: nat, g: nat, i: nat, j: nat)
    requires b > 0 && b == g * i && a % b == g * j
    ensures a == g * (i * (a / b) + j)
  {
    var q := a / b;
    assert a == b * q + a % b;
    assert g * i * q + g * j == g * (i * q + j);
  }

  lemma {:induction false} GcdStep(a: nat, b: nat)
    requires b > 0
    ensures Gcd(a, b) == Gcd(b, a % b)
  {
  }

  /** It divides both numbers; the results are the quotients. */
  lemma {:induction false} GcdDivides(a: nat, b: nat) returns (i: nat, j: nat)
    ensures a == Gcd(a, b) * i && b == Gcd(a, b) * j
    decreases b
  {
    if b == 0 {
      i, j := 1, 0;
    } else {
      hide Gcd;
      var i', j' := GcdDivides(b, a % b);
      GcdStep(a, b);
      MultipleOf(a, b, Gcd(a, b), i', j');
      i, j := i' * (a / b) + j', i';
    }
  }

  lemma Substitute(x: int, y: int, b: int, q: int, r: int)
    ensures y * (b * q + r) + (x - y * q) * b == x * b + y * r
  {
  }

  /** It is a combination of both numbers. */
  lemma {:induction false} GcdCombines(a: nat, b: nat) returns (x: int, y: int)
    ensures x * a + y * b == Gcd(a, b)
    decreases b
  {
    if b == 0 {
      x, y := 1, 0;
    } else {
      hide Gcd;
      var x', y' := GcdCombines(b, a % b);
      GcdStep(a, b);
      Substitute(x', y', b, a / b, a % b);
      x, y := y', x' - y' * (a / b);
    }
  }

  lemma TimesApart(g: nat, u: int, v: int)
    requires g > 0
    ensures g * u < g * v <==> u < v
    ensures g * u - g * v == g * (u - v)
  {
  }

  lemma Regroup(x: nat, y: nat, z: nat)
    ensures x * (y * z) == (x * y) * z == (x * z) * y
  {
  }

  /** Modulo d, every multiple of n is at most d - gcd(n, d). */
  lemma RemainderBound(q: nat, n: nat, d: nat)
    requires d > 0
    ensures q * n % d <= d - Gcd(n, d)
  {
    hide Gcd;
    var g := Gcd(n, d);
    var i, j := GcdDivides(n, d);
    var k, r := q * n / d, q * n % d;
    assert q * n == d * k + r;
    Regroup(q, g, i);
    Regroup(k, g, j);
    TimesApart(g, q * i, k * j);
    TimesApart(g, q * i - k * j, j);
    TimesApart(g, q * i - k * j, j - 1);
    TimesApart(g, j, 1);
  }

  lemma Negated(x: int, y: int, n: int, d: int, g: int, q: int, k: int)
    requires x * n + y * d == g && -x == k * d + q
    ensures q * n == (y - k * n - 1) * d + (d - g)
  {
    assert q * n == (-x - k * d) * n;
    assert (y - k * n - 1) * d == y * d - k * n * d - d;
  }

  /** Some multiple of n, by less than d, leaves exactly that. */
  lemma RemainderReached(n: nat, d: nat) returns (q: nat)
    requires d > 0
    ensures q < d && q * n % d == d - Gcd(n, d)
  {
    hide Gcd;
    var g := Gcd(n, d);
    var x, y := GcdCombines(n, d);
    var i, j := GcdDivides(n, d);
    var k := -x / d;
    q := -x % d;
    Negated(x, y, n, d, g, q, k);
    GcdAtMost(g, j, d);
    DivUnique(q * n, d, y - k * n - 1, d - g);
  }

  lemma GcdAtMost(g: nat, j: nat, d: nat)
    requires d == g * j && d > 0
    ensures g <= d
  {
  }
}
