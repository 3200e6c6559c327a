// Facts about remainders.
module Arith {
  lemma ModUnique(x: int, w: int, q: int, r: int)
    requires w > 0 && 0 <= r < w && x == q * w + r
    ensures x % w == r && x / w == q
  {
    var d := q - x / w;
    assert d * w == q * w - (x / w) * w;
    assert x == (x / w) * w + x % w;
    assert d >= 1 ==> d * w >= w;
    assert d <= -1 ==> d * w <= -w;
  }

  lemma SmallMod(x: nat, w: nat)
    requires x < w
    ensures x % w == x
  {
    ModUnique(x, w, 0, x);
  }

  lemma ModPlus(x: int, w: int, k: int)
    requires w > 0
    ensures (x + k * w) % w == x % w
  {
    assert x == (x / w) * w + x % w;
    assert x + k * w == (x / w + k) * w + x % w by {
      assert (x / w + k) * w == (x / w) * w + k * w;
    }
    ModUnique(x + k * w, w, x / w + k, x % w);
  }

  lemma ModEqual(x: nat, y: nat, n: nat)
    requires n > 0 && x <= y && x % n == y % n
    ensures (y - x) % n == 0
  {
    assert x == (x / n) * n + x % n && y == (y / n) * n + y % n;
    var q := y / n - x / n;
    assert q * n == (y / n) * n - (x / n) * n;
    ModUnique(y - x, n, q, 0);
  }

  // Common divisors.

  function Gcd(a: nat, b: nat): (g: nat)
    requires a > 0 || b > 0
    ensures g > 0
    decreases b
  {
    if b == 0 then a else Gcd(b, a % b)
  }

  lemma Grouped(a: int, b: int, c: int)
    ensures a * (b * c) == (a * b) * c
  {
  }

  lemma Spread(a: int, b: int, c: int)
    ensures (a + b) * c == a * c + b * c && (a - b) * c == a * c - b * c
  {
  }

  lemma Quotient(x: int, g: int)
    requires g > 0 && x % g == 0
    ensures x == (x / g) * g
  {
  }

  lemma Multiple(x: int, y: int, k: int, g: int, z: int)
    requires g > 0 && x % g == 0 && y % g == 0 && z == k * x + y
    ensures z % g == 0
  {
    Quotient(x, g);
    Grouped(k, x / g, g);
    ModPlus(y, g, k * (x / g));
  }

  lemma {:induction false} GcdDivides(a: nat, b: nat)
    requires a > 0 || b > 0
    ensures a % Gcd(a, b) == 0 && b % Gcd(a, b) == 0
    decreases b
  {
    if b == 0 {
      ModUnique(a, a, 1, 0);
    } else {
      var q, r := a / b, a % b;
      GcdDivides(b, r);
      Multiple(b, r, q, Gcd(b, r), a);
    }
  }

  lemma {:induction false} Bezout(a: nat, b: nat) returns (x: int, y: int)
    requires a > 0 || b > 0
    ensures x * a + y * b == Gcd(a, b)
    decreases b
  {
    if b == 0 {
      x, y := 1, 0;
    } else {
      var u, v := Bezout(b, a % b);
      x, y := v, u - v * (a / b);
      Spread(u, v * (a / b), b);
      Grouped(v, a / b, b);
      Spread(a, (a / b) * b, v);
    }
  }

  // Some multiple of e is two short of a multiple of m exactly if they have no common divisor
  // above two.

  lemma TwoShort(e: nat, m: nat) returns (q: nat)
    requires e > 0 && m > 0 && Gcd(e, m) <= 2
    ensures q < m && (e * q + 2) % m == 0
  {
    var x, y := Bezout(e, m);
    var c := if Gcd(e, m) == 1 then -2 else -1;
    hide Gcd;
    Spread(x * e, -(y * m), c);
    Grouped(c, x, e);
    Grouped(c, y, m);
    assert (c * x) * e + (c * y) * m == -2;
    q := Reduced(e, c * x, m, c * y);
  }

  lemma Reduced(e: nat, u: int, m: nat, v: int) returns (q: nat)
    requires m > 0 && u * e + v * m == -2
    ensures q < m && (e * q + 2) % m == 0
  {
    q := u % m;
    var d := u / m;
    assert q == u - d * m;
    Spread(u, d * m, e);
    Grouped(e, d, m);
    Spread(-v, e * d, m);
    ModUnique(e * q + 2, m, -v - e * d, 0);
  }

  lemma TwoShortOnly(e: nat, m: nat, q: nat)
    requires e > 0 && m > 0 && (e * q + 2) % m == 0
    ensures Gcd(e, m) <= 2
  {
    var g, d := Gcd(e, m), (e * q + 2) / m;
    GcdDivides(e, m);
    hide Gcd;
    Quotient(e, g);
    Quotient(m, g);
    Quotient(e * q + 2, m);
    Cofactor(e, m, q, d, e / g, m / g, g);
    DividesTwo(d * (m / g) - q * (e / g), g);
  }

  lemma Cofactor(e: int, m: int, q: int, d: int, i: int, j: int, g: int)
    requires e == i * g && m == j * g && e * q + 2 == d * m
    ensures (d * j - q * i) * g == 2
  {
    Grouped(d, j, g);
    Grouped(q, i, g);
    Spread(d * j, q * i, g);
  }

  lemma DividesTwo(z: int, g: nat)
    requires z * g == 2
    ensures g <= 2
  {
    assert z >= 1 ==> z * g >= g;
  }
}
