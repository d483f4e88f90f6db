/** Division, remainder and greatest-common-divisor facts used by the ring and the blocking protocol. */
module Arithmetic {

  /** The quotient and remainder of a non-negative number are the only pair with the defining property. */
  lemma QuotientUnique(x: int, d: nat, k: int, rest: int)
    requires d > 0 && x == k * d + rest && 0 <= rest < d
    ensures x / d == k && x % d == rest
  {
    var q, m := x / d, x % d;
    assert x == q * d + m;
    assert (k - q) * d == m - rest && (q - k) * d == rest - m;
    if k > q {
      MulMonotone(1, k - q, d);
    } else if k < q {
      MulMonotone(1, q - k, d);
    }
  }

  lemma MulMonotone(a: int, b: int, d: nat)
    requires a <= b
    ensures a * d <= b * d
  {
    assert (b - a) * d >= 0;
  }

  lemma MulStrict(a: int, b: int, d: nat)
    requires d > 0
    ensures a < b <==> a * d < b * d
    ensures a <= b <==> a * d <= b * d
  {
    if a < b {
      MulMonotone(a + 1, b, d);
    } else {
      MulMonotone(b, a, d);
      if b < a { MulMonotone(b + 1, a, d); }
    }
  }

  lemma ModShift(x: int, k: int, d: nat)
    requires d > 0
    ensures (x + k * d) % d == x % d
  {
    QuotientUnique(x + k * d, d, x / d + k, x % d);
  }

  lemma ModMultiple(k: int, d: nat)
    requires d > 0
    ensures (k * d) % d == 0 && (k * d) / d == k
  {
    QuotientUnique(k * d, d, k, 0);
  }

  /** Adding before or after reducing makes no difference. */
  lemma ModAdd(a: int, b: int, d: nat)
    requires d > 0
    ensures (a % d + b) % d == (a + b) % d
  {
    assert a == a % d + (a / d) * d;
    ModShift(a % d + b, a / d, d);
  }

  lemma ModSub(a: int, b: int, d: nat)
    requires d > 0
    ensures (a % d - b % d) % d == (a - b) % d
  {
    ModShift(a % d - b % d, a / d - b / d, d);
    assert a - b == (a % d - b % d) + (a / d - b / d) * d;
  }

  lemma ModMul(a: int, b: int, d: nat)
    requires d > 0
    ensures ((a % d) * b) % d == (a * b) % d
  {
    ModShift((a % d) * b, (a / d) * b, d);
    assert a * b == (a % d) * b + ((a / d) * b) * d by {
      assert a == (a / d) * d + a % d;
    }
  }

  /** Reducing first by a multiple of d does not change the remainder by d. */
  lemma ModNested(x: int, m: nat, d: nat)
    requires m > 0 && d > 0 && m % d == 0
    ensures (x % m) % d == x % d
  {
    var k := m / d;
    assert m == k * d;
    assert x == x % m + (x / m) * m;
    ModShift(x % m, (x / m) * k, d);
    assert (x / m) * m == ((x / m) * k) * d;
  }

  /** Scaling a remainder: positions that are whole messages stay whole messages. */
  lemma ModScale(a: int, d: nat, q: nat)
    requires d > 0 && q > 0
    ensures d * q > 0
    ensures (a * q) % (d * q) == (a % d) * q
  {
    MulStrict(0, d, q);
    var k, rest := a / d, a % d;
    assert a * q == k * (d * q) + rest * q by {
      assert a == k * d + rest;
    }
    MulStrict(rest, d, q);
    MulMonotone(0, rest, q);
    QuotientUnique(a * q, d * q, k, rest * q);
  }

  /** Two indices less than d apart fall on the same ring position only if they are equal. */
  lemma ModInjective(a: int, b: int, d: nat)
    requires d > 0 && a % d == b % d && a - b < d && b - a < d
    ensures a == b
  {
    assert a - b == (a / d - b / d) * d;
    if a / d > b / d {
      MulMonotone(1, a / d - b / d, d);
    } else if a / d < b / d {
      MulMonotone(a / d - b / d, -1, d);
    }
  }

  // ------------------------------------------------------------------ greatest common divisor

  ghost predicate Divides(d: nat, x: int) {
    exists k: int :: x == k * d
  }

  ghost function Gcd(a: nat, b: nat): (g: nat)
    requires a > 0 || b > 0
    ensures g > 0 && Divides(g, a) && Divides(g, b)
    decreases b
  {
    if b == 0 then
      assert a == 1 * a && b == 0 * a;
      a
    else
      var g := Gcd(b, a % b);
      assert Divides(g, a) by { DividesCombination(g, b, a % b, a / b, 1); }
      g
  }

  lemma DividesCombination(d: nat, x: int, y: int, i: int, j: int)
    requires Divides(d, x) && Divides(d, y)
    ensures Divides(d, x * i + y * j)
  {
    var kx: int :| x == kx * d;
    var ky: int :| y == ky * d;
    assert x * i + y * j == (kx * i + ky * j) * d by {
      assert x * i == (kx * i) * d;
      assert y * j == (ky * j) * d;
    }
  }

  lemma BezoutStep(a: int, b: int, k: int, rest: int, x: int, y: int)
    requires a == k * b + rest
    ensures x * b + y * rest == y * a + (x - y * k) * b
  {
    assert y * rest == y * a - (y * k) * b by {
      assert y * a == y * (k * b) + y * rest;
    }
    assert (x - y * k) * b == x * b - (y * k) * b;
  }

  /** The gcd is an integer combination of the two numbers. */
  lemma {:induction false} Bezout(a: nat, b: nat) returns (x: int, y: int)
    requires a > 0 || b > 0
    ensures Gcd(a, b) == x * a + y * b
    decreases b
  {
    if b == 0 {
      x, y := 1, 0;
    } else {
      var x', y' := Bezout(b, a % b);
      x, y := y', x' - y' * (a / b);
      BezoutStep(a, b, a / b, a % b, x', y');
    }
  }

  /** Exact division by a divisor. */
  lemma DivisorQuotient(d: nat, x: nat) returns (k: nat)
    requires d > 0 && Divides(d, x)
    ensures x == k * d && k == x / d
  {
    var k': int :| x == k' * d;
    ModMultiple(k', d);
    k := x / d;
  }

  /** Two different multiples of d are at least d apart. */
  lemma MultiplesApart(d: nat, x: int, y: int)
    requires d > 0 && Divides(d, x) && Divides(d, y) && x < y
    ensures x + d <= y
  {
    var kx: int :| x == kx * d;
    var ky: int :| y == ky * d;
    MulStrict(kx, ky, d);
    MulMonotone(kx + 1, ky, d);
  }
}
