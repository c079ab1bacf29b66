/** Division with remainder, greatest common divisors, and the multiples of a number modulo another. */
module Divisors {

  lemma DivisionUnique(k: int, n: int, q: int, r: int)
    requires n > 0 && k == q * n + r && 0 <= r < n
    ensures k / n == q && k % n == r
  {
    var q', r' := k / n, k % n;
    assert k == q' * n + r' && 0 <= r' < n;
    if q' < q {
      assert (q - q') * n == q * n - q' * n;
      ProductAtLeast(q - q', n);
    } else if q < q' {
      assert (q' - q) * n == q' * n - q * n;
      ProductAtLeast(q' - q, n);
    }
  }

  lemma ProductAtLeast(a: int, n: int)
    requires a >= 1 && n > 0
    ensures a * n >= n
  {
    assert a * n == n + (a - 1) * n;
  }

  function Gcd(a: nat, b: nat): nat
    decreases b
  {
    if b == 0 then a else Gcd(b, a % b)
  }

  ghost predicate Divides(g: nat, n: int)
  {
    exists k: int :: n == k * g
  }

  lemma DividesSum(g: nat, a: int, b: int, k: int)
    requires Divides(g, a) && Divides(g, b)
    ensures Divides(g, a + k * b)
  {
    var i: int :| a == i * g;
    var j: int :| b == j * g;
    var s := i + k * j;
    assert k * (j * g) == (k * j) * g;
    assert s * g == i * g + (k * j) * g;
    assert a + k * b == s * g;
  }

  lemma {:induction false} GcdDivides(a: nat, b: nat)
    ensures Divides(Gcd(a, b), a) && Divides(Gcd(a, b), b)
    ensures a > 0 || b > 0 ==> Gcd(a, b) > 0
    decreases b
  {
    if b == 0 {
      assert a == 1 * a && 0 == 0 * a;
    } else {
      GcdDivides(b, a % b);
      DividesSum(Gcd(a, b), a % b, b, a / b);
      assert a % b + a / b * b == a;
    }
  }

  /** Bezout: the greatest common divisor is a combination of the two numbers. */
  lemma {:induction false} Combination(a: nat, b: nat) returns (x: int, y: int)
    ensures a * x + b * y == Gcd(a, b)
    decreases b
  {
    if b == 0 {
      x, y := 1, 0;
    } else {
      var q, r := a / b, a % b;
      var u, v := Combination(b, r);
      x, y := v, u - q * v;
      assert a * x + b * y == (b * q + r) * v + b * u - b * (q * v);
      assert b * (q * v) == (b * q) * v && (b * q + r) * v == (b * q) * v + r * v;
    }
  }

  lemma Associates(a: int, b: int, c: int)
    ensures a * (b * c) == (a * b) * c == b * (a * c)
  {
  }

  lemma Distributes(a: int, b: int, c: int)
    ensures a * (b + c) == a * b + a * c && (b + c) * a == b * a + c * a
  {
  }

  /** Every multiple of the greatest common divisor is met among the first n multiples of c modulo n. */
  lemma Met(c: nat, n: nat, k: int) returns (i: nat, z: int)
    requires n > 0
    ensures i < n && c * i == k * Gcd(c, n) + n * z
  {
    var x, y := Combination(c, n);
    var t := k * x;
    var q := t / n;
    i := t % n;
    z := -(k * y) - c * q;
    MetAlgebra(c, n, k, x, y, q, i, Gcd(c, n));
  }

  lemma MetAlgebra(c: int, n: int, k: int, x: int, y: int, q: int, i: int, g: int)
    requires k * x == n * q + i && c * x + n * y == g
    ensures c * i == k * g + n * (-(k * y) - c * q)
  {
    Distributes(c, n * q, i);
    Associates(c, n, q);
    Associates(c, k, x);
    Distributes(k, c * x, n * y);
    Associates(k, n, y);
    Distributes(n, -(k * y), -(c * q));
    assert n * (-(k * y)) == -(n * (k * y)) && n * (-(c * q)) == -(n * (c * q));
  }
}
