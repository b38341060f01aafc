/** Integer arithmetic shared by the number code: powers, quotients and congruences.
    Congruences are stated with `%` and used through an explicit multiplier. */
module Arith {

  function Abs(x: int): nat { if x < 0 then -x else x }

  function Max(a: nat, b: nat): nat { if a < b then b else a }

  function Min(x: int, y: int): int { if x <= y then x else y }

  function Pow(b: nat, n: nat): nat
  {
    if n == 0 then 1 else b * Pow(b, n - 1)
  }

  function Pow2(n: nat): (r: nat)
    ensures r > 0
  {
    if n == 0 then 1 else 2 * Pow2(n - 1)
  }

  lemma Pow2Zero()
    ensures Pow2(0) == 1
  {
  }

  lemma PowStep(b: nat, n: nat)
    ensures Pow(b, n + 1) == b * Pow(b, n)
  {
  }

  lemma MulCommutes(x: int, y: int)
    ensures x * y == y * x
  {
  }

  lemma MulNeighbours(x: int, y: int)
    ensures (x - 1) * y == x * y - y && (x + 1) * y == x * y + y
  {
  }

  lemma TwiceTimes(h: int, p: int)
    ensures (2 * h) * p == h * (2 * p) && (2 * h + 1) * p == h * (2 * p) + p
    ensures (h + 1) * (2 * p) == h * (2 * p) + 2 * p
  {
  }

  lemma MulMono(a: int, b: int, c: int)
    requires a <= b && 0 <= c
    ensures a * c <= b * c && c * a <= c * b
  {
  }

  lemma MulNat(a: int, b: int)
    requires a >= 0 && b >= 0
    ensures a * b >= 0
  {
  }

  lemma PowPositive(b: nat, n: nat)
    requires b > 0
    ensures Pow(b, n) > 0
  {
    if n > 0 { PowPositive(b, n - 1); }
  }

  lemma {:induction false} PowAdd(b: nat, m: nat, n: nat)
    ensures Pow(b, m + n) == Pow(b, m) * Pow(b, n)
  {
    if m > 0 {
      PowAdd(b, m - 1, n);
      MulAssoc(b, Pow(b, m - 1), Pow(b, n));
    } else {
      assert Pow(b, m) == 1;
    }
  }

  lemma PowMono(b: nat, m: nat, n: nat)
    requires b > 0 && m <= n
    ensures Pow(b, m) <= Pow(b, n)
  {
    PowAdd(b, m, n - m);
    PowPositive(b, n - m);
    PowPositive(b, m);
    MulMono(1, Pow(b, n - m), Pow(b, m));
  }

  lemma {:induction false} Pow2Add(m: nat, n: nat)
    ensures Pow2(m + n) == Pow2(m) * Pow2(n)
  {
    if m > 0 {
      Pow2Add(m - 1, n);
      MulAssoc(2, Pow2(m - 1), Pow2(n));
    } else {
      assert Pow2(m) == 1;
    }
  }

  lemma Pow2Mono(m: nat, n: nat)
    requires m <= n
    ensures Pow2(m) <= Pow2(n)
  {
    Pow2Add(m, n - m);
    MulMono(1, Pow2(n - m), Pow2(m));
  }

  lemma MulAssoc(a: int, b: int, c: int)
    ensures a * (b * c) == (a * b) * c
  {
  }

  /** Quotient and remainder are determined by the division equation. */
  lemma DivModUnique(x: int, q: int, r: int, m: int)
    requires m > 0 && 0 <= r < m && x == q * m + r
    ensures x / m == q && x % m == r
  {
    var d := q - x / m;
    assert d * m == x % m - r by {
      assert x == (x / m) * m + x % m;
      assert d * m == q * m - (x / m) * m;
    }
    if d > 0 { MulMono(1, d, m); }
    if d < 0 { MulMono(d, -1, m); }
  }

  /** x = y + k*m  gives  x = y (mod m). */
  lemma CongIntro(x: int, y: int, k: int, m: int)
    requires m > 0 && x == y + k * m
    ensures x % m == y % m
  {
    assert y == (y / m) * m + y % m;
    assert (y / m + k) * m == (y / m) * m + k * m;
    DivModUnique(x, y / m + k, y % m, m);
  }

  /** The multiplier that witnesses a congruence. */
  lemma CongElim(x: int, y: int, m: int) returns (k: int)
    requires m > 0 && x % m == y % m
    ensures x == y + k * m
  {
    k := x / m - y / m;
    assert x == (x / m) * m + x % m;
    assert y == (y / m) * m + y % m;
    assert k * m == (x / m) * m - (y / m) * m;
  }

  lemma CongMul(x: int, y: int, a: int, b: int, m: int)
    requires m > 0 && x % m == y % m && a % m == b % m
    ensures (x * a) % m == (y * b) % m
  {
    var k := CongElim(x, y, m);
    var l := CongElim(a, b, m);
    ProductOfSums(y, b, k, l, m);
    CongIntro(x * a, y * b, k * b + y * l + k * l * m, m);
  }

  lemma ProductOfSums(y: int, b: int, k: int, l: int, m: int)
    ensures (y + k * m) * (b + l * m) == y * b + (k * b + y * l + k * l * m) * m
  {
    assert y * (l * m) == (y * l) * m;
    assert (k * m) * b == (k * b) * m;
    assert (k * m) * (l * m) == (k * l * m) * m;
  }

  lemma CongAdd(x: int, y: int, a: int, b: int, m: int)
    requires m > 0 && x % m == y % m && a % m == b % m
    ensures (x + a) % m == (y + b) % m
    ensures (x - a) % m == (y - b) % m
  {
    var k := CongElim(x, y, m);
    var l := CongElim(a, b, m);
    assert (k + l) * m == k * m + l * m;
    assert (k - l) * m == k * m - l * m;
    CongIntro(x + a, y + b, k + l, m);
    CongIntro(x - a, y - b, k - l, m);
  }

  /** Reducing an operand first does not change a product modulo m. */
  lemma ModMul(x: int, y: int, m: int)
    requires m > 0
    ensures ((x % m) * (y % m)) % m == (x * y) % m
    ensures ((x % m) * y) % m == (x * y) % m
    ensures (x * (y % m)) % m == (x * y) % m
  {
    ModTwice(x, m);
    ModTwice(y, m);
    CongMul(x % m, x, y % m, y, m);
    CongMul(x % m, x, y, y, m);
    CongMul(x, x, y % m, y, m);
  }

  lemma ModTwice(x: int, m: int)
    requires m > 0
    ensures (x % m) % m == x % m
  {
    DivModUnique(x % m, 0, x % m, m);
  }

  /** A congruence modulo a*b is one modulo a. */
  lemma CongFactor(x: int, y: int, a: int, b: int)
    requires a > 0 && b > 0 && a * b > 0 && x % (a * b) == y % (a * b)
    ensures x % a == y % a
  {
    var k := CongElim(x, y, a * b);
    assert k * (a * b) == (k * b) * a;
    CongIntro(x, y, k * b, a);
  }

  lemma CongPow2(x: int, y: int, i: nat, j: nat)
    requires j <= i && x % Pow2(i) == y % Pow2(i)
    ensures x % Pow2(j) == y % Pow2(j)
  {
    Pow2Add(j, i - j);
    CongFactor(x, y, Pow2(j), Pow2(i - j));
  }
}
