/** Remainders. */
module Arith {
  lemma ProductMonotone(a: int, b: int, c: int)
    requires a <= b && c >= 0
    ensures a * c <= b * c
  {
  }

  /** A number written as whole units of `c` and a rest below `c` has that rest as remainder. */
  lemma RemainderOf(n: int, c: int, q: int, r: int)
    requires c > 0 && n == q * c + r && 0 <= r < c
    ensures n % c == r && n / c == q
  {
    var q' := n / c;
    assert n == q' * c + n % c;
    assert (q - q') * c == n % c - r;
    if q - q' >= 1 {
      ProductMonotone(1, q - q', c);
    } else if q - q' <= -1 {
      ProductMonotone(q - q', -1, c);
    }
  }

  lemma Associates(a: int, b: int, c: int)
    ensures a * b * c == a * (b * c)
  {
  }

  lemma QuotientBound(a: nat, b: nat)
    requires b > 0
    ensures 0 <= a / b <= a
  {
    ProductMonotone(1, b, a / b);
  }

  /** Dividing twice is dividing by the product, and the remainders nest. */
  lemma SplitRemainder(x: nat, a: nat, b: nat)
    requires a > 0 && b > 0
    ensures a * b > 0
    ensures x % (a * b) == x % a + a * ((x / a) % b)
    ensures x / (a * b) == x / a / b
  {
    var q, r := x / a, x % a;
    var t, u := q / b, q % b;
    assert x == a * q + r && q == b * t + u;
    Distributes(a, b * t, u);
    Associates(a, b, t);
    ProductMonotone(u, b - 1, a);
    assert a * u <= a * (b - 1) == a * b - a;
    RemainderOf(x, a * b, t, a * u + r);
  }

  lemma Distributes(a: int, b: int, c: int)
    ensures a * (b + c) == a * b + a * c
  {
  }

  /** Dividing a number whose low part is `w` leaves the quotient of `w`, with the rest above it. */
  lemma QuotientParts(w: nat, p: nat, q: nat, rest: nat)
    requires p > 0 && w < p * q
    ensures (w + p * q * rest) / p == w / p + q * rest
    ensures w / p < q
  {
    var t, u := w / p, w % p;
    assert w == p * t + u;
    Associates(p, q, rest);
    Distributes(p, t, q * rest);
    Commutes(p, t + q * rest);
    RemainderOf(w + p * q * rest, p, t + q * rest, u);
    if t >= q {
      ProductMonotone(q, t, p);
      Commutes(p, q);
      Commutes(p, t);
    }
  }

  lemma Commutes(a: int, b: int)
    ensures a * b == b * a
  {
  }

  /** Only the low part counts modulo a divisor of the step. */
  lemma RemainderIgnores(x: int, m: int, y: int)
    requires m > 0
    ensures (x + m * y) % m == x % m
  {
    var q, r := x / m, x % m;
    assert x == m * q + r;
    Distributes(m, q, y);
    Commutes(m, q + y);
    RemainderOf(x + m * y, m, q + y, r);
  }

  lemma ScaledRemainder(x: nat, q: nat, p: nat)
    requires p > 0 && q > 0
    ensures q * p > 0 && (x * q) % (q * p) == (x % p) * q
  {
    SplitRemainder(x * q, q, p);
    RemainderOf(x * q, q, x, 0);
    Commutes(q, x % p);
  }

  lemma FitsBelow(low: nat, high: nat, q: nat, p: nat)
    requires low < q && high < p
    ensures low + high * q < q * p
  {
    ProductMonotone(high, p - 1, q);
    Commutes(p, q);
  }

  /** `w` is one more name for the product `q * p`. */
  lemma AcrossParts(t: int, next: int, rest: int, p: int, q: int, w: int)
    requires p > 0 && w == q * p
    ensures t + q * (next + w * rest) == t + (next % p) * q + w * (next / p + q * rest)
  {
    var a, b := next / p, next % p;
    assert next == p * a + b;
    Distributes(q, p * a + b, w * rest);
    Distributes(q, p * a, b);
    Associates(q, p, a);
    Distributes(w, a, q * rest);
    Associates(w, q, rest);
    Associates(q, w, rest);
    Commutes(w, q);
    Commutes(q, b);
  }

  lemma Renamed(w: int, m: int, k: int, x: int)
    requires w == m * k
    ensures w * x == m * (k * x)
  {
    Associates(m, k, x);
  }

  lemma SameRemainder(x: int, y: int, m: int, z: int)
    requires m > 0 && x == y + m * z
    ensures x % m == y % m
  {
    RemainderIgnores(y, m, z);
  }

  lemma AcrossRemainder(t: int, next: int, rest: int, p: int, q: int, m: int, k: int, w: int)
    requires p > 0 && m > 0 && w == q * p && w == m * k
    ensures (t + q * (next + w * rest)) % m == (t + (next % p) * q) % m
  {
    var more := next / p + q * rest;
    AcrossParts(t, next, rest, p, q, w);
    Renamed(w, m, k, more);
    SameRemainder(t + q * (next + w * rest), t + (next % p) * q, m, k * more);
  }

  /** Division rounding down, of natural numbers. */
  function Quotient(a: nat, b: nat): (q: nat)
    requires b > 0
    ensures q <= a
  {
    QuotientBound(a, b);
    a / b
  }
}
