/** Divisibility, greatest common divisors, primes, Fermat's little theorem. */
module NumberTheory {
  import opened Arith

  ghost predicate Divides(d: int, x: int)
  {
    exists k: int :: x == k * d
  }

  lemma DividesIntro(d: int, x: int, k: int)
    requires x == k * d
    ensures Divides(d, x)
  {
  }

  lemma DividesMod(d: nat, x: int)
    requires d > 0
    ensures Divides(d, x) <==> x % d == 0
  {
    if x % d == 0 {
      assert x == (x / d) * d;
    }
    if Divides(d, x) {
      var k: int :| x == k * d;
      DivModUnique(x, k, 0, d);
    }
  }

  lemma DividesMul(d: int, x: int, y: int)
    requires Divides(d, x)
    ensures Divides(d, x * y) && Divides(d, y * x)
  {
    var k: int :| x == k * d;
    assert x * y == (k * y) * d && y * x == (k * y) * d;
  }

  lemma DividesSum(d: int, x: int, y: int)
    requires Divides(d, x) && Divides(d, y)
    ensures Divides(d, x + y) && Divides(d, x - y)
  {
    var k: int :| x == k * d;
    var l: int :| y == l * d;
    assert x + y == (k + l) * d && x - y == (k - l) * d;
  }

  lemma DividesAtMost(d: nat, x: nat)
    requires Divides(d, x) && x > 0
    ensures 0 < d <= x
  {
    var k: int :| x == k * d;
    if k <= 0 { MulMono(k, 0, d); } else { MulMono(1, k, d); }
  }

  lemma DividesCombination(d: int, x: int, y: int, s: int, t: int)
    requires Divides(d, x) && Divides(d, y)
    ensures Divides(d, s * x + t * y)
  {
    hide Divides;
    DividesMul(d, x, s);
    DividesMul(d, y, t);
    DividesSum(d, s * x, t * y);
  }

  // ----- greatest common divisor -----

  /** Euclid's algorithm. */
  function Gcd(a: nat, b: nat): nat
    decreases b
  {
    if b == 0 then a else Gcd(b, a % b)
  }

  /** g is the greatest common divisor in the order of divisibility. */
  ghost predicate IsGcd(g: nat, a: nat, b: nat)
  {
    && Divides(g, a) && Divides(g, b)
    && forall d: int :: Divides(d, a) && Divides(d, b) ==> Divides(d, g)
  }

  /** The greatest common divisor is a combination of its arguments. */
  lemma {:induction false} Bezout(a: nat, b: nat) returns (s: int, t: int)
    ensures s * a + t * b == Gcd(a, b)
    ensures Divides(Gcd(a, b), a) && Divides(Gcd(a, b), b)
    decreases b
  {
    hide Divides;
    var g := Gcd(a, b);
    if b == 0 {
      s, t := 1, 0;
      DividesIntro(g, a, 1);
      DividesIntro(g, b, 0);
    } else {
      var q, r := a / b, a % b;
      assert a == q * b + r;
      var s1, t1 := Bezout(b, r);
      s, t := t1, s1 - q * t1;
      assert s * a + t * b == s1 * b + t1 * r by {
        assert t1 * (q * b + r) == q * t1 * b + t1 * r;
        assert (s1 - q * t1) * b == s1 * b - q * t1 * b;
      }
      DividesMul(g, b, q);
      DividesSum(g, q * b, r);
    }
  }

  lemma GcdIsGcd(a: nat, b: nat)
    ensures IsGcd(Gcd(a, b), a, b)
  {
    var s, t := Bezout(a, b);
    forall d: int | Divides(d, a) && Divides(d, b) ensures Divides(d, Gcd(a, b)) {
      DividesMul(d, a, s);
      DividesMul(d, b, t);
      DividesSum(d, s * a, t * b);
    }
  }

  lemma GcdUnique(g: nat, h: nat, a: nat, b: nat)
    requires IsGcd(g, a, b) && IsGcd(h, a, b)
    ensures g == h
  {
    assert Divides(g, h) && Divides(h, g);
    if g > 0 { DividesAtMost(h, g); DividesAtMost(g, h); }
    if h > 0 { DividesAtMost(g, h); }
  }

  /** Same common divisors, same greatest one. */
  lemma GcdByDivisors(a: nat, b: nat, a': nat, b': nat)
    requires forall d: int :: Divides(d, a) && Divides(d, b) <==> Divides(d, a') && Divides(d, b')
    ensures Gcd(a, b) == Gcd(a', b')
  {
    GcdIsGcd(a, b);
    GcdIsGcd(a', b');
    GcdUnique(Gcd(a, b), Gcd(a', b'), a, b);
  }

  lemma GcdSwap(a: nat, b: nat)
    ensures Gcd(a, b) == Gcd(b, a)
  {
    GcdByDivisors(a, b, b, a);
  }

  lemma GcdSubtract(a: nat, b: nat)
    requires a >= b
    ensures Gcd(a - b, b) == Gcd(a, b)
  {
    hide Divides;
    forall d: int
      ensures Divides(d, a) && Divides(d, b) <==> Divides(d, a - b) && Divides(d, b)
    {
      if Divides(d, a) && Divides(d, b) { DividesSum(d, a, b); }
      if Divides(d, a - b) && Divides(d, b) { DividesSum(d, a - b, b); }
    }
    GcdByDivisors(a, b, a - b, b);
  }

  /** A factor of one argument that is coprime to the other does not matter. */
  lemma GcdCoprimeFactor(c: nat, a: nat, b: nat)
    requires Gcd(c, b) == 1
    ensures Gcd(c * a, b) == Gcd(a, b)
  {
    hide Divides;
    var s, t := Bezout(c, b);
    MulNat(c, a);
    CoprimeAlgebra(s, t, c, b, a);
    forall d: int
      ensures Divides(d, c * a) && Divides(d, b) <==> Divides(d, a) && Divides(d, b)
    {
      if Divides(d, a) { DividesMul(d, a, c); }
      if Divides(d, c * a) && Divides(d, b) {
        DividesCombination(d, c * a, b, s, t * a);
      }
    }
    GcdByDivisors(c * a, b, a, b);
  }

  lemma CoprimeAlgebra(s: int, t: int, c: int, b: int, a: int)
    requires s * c + t * b == 1
    ensures s * (c * a) + (t * a) * b == a
  {
    assert s * (c * a) + (t * a) * b == (s * c + t * b) * a;
  }

  /** A common factor comes out. */
  lemma GcdScale(c: nat, a: nat, b: nat)
    requires c > 0
    ensures Gcd(c * a, c * b) == c * Gcd(a, b)
  {
    hide Divides;
    MulNat(c, a);
    MulNat(c, b);
    var g := Gcd(a, b);
    MulNat(c, g);
    var s, t := Bezout(a, b);
    GcdIsGcd(c * a, c * b);
    ScaleDivides(c, g, a);
    ScaleDivides(c, g, b);
    ScaleAlgebra(c, s, a, t, b);
    forall d: int | Divides(d, c * a) && Divides(d, c * b) ensures Divides(d, c * g) {
      DividesCombination(d, c * a, c * b, s, t);
    }
    GcdUnique(Gcd(c * a, c * b), c * g, c * a, c * b);
  }

  lemma ScaleAlgebra(c: int, s: int, a: int, t: int, b: int)
    ensures s * (c * a) + t * (c * b) == c * (s * a + t * b)
  {
  }

  lemma ScaleDivides(c: int, d: int, x: int)
    requires Divides(d, x)
    ensures Divides(c * d, c * x)
  {
    var k: int :| x == k * d;
    assert c * x == k * (c * d);
  }

  ghost predicate HasInverse(x: nat, m: nat)
    requires m > 0
  {
    exists a: int :: (a * x) % m == 1
  }

  /** There is an inverse exactly for coprime numbers. */
  lemma InverseIffCoprime(x: nat, m: nat)
    requires m > 1
    ensures HasInverse(x, m) <==> Gcd(x, m) == 1
  {
    var s, t := Bezout(x, m);
    var g := Gcd(x, m);
    hide Gcd, Divides;
    if g == 1 {
      CongIntro(s * x, 1, 0 - t, m);
      DivModUnique(1, 0, 1, m);
    }
    if HasInverse(x, m) {
      var a: int :| (a * x) % m == 1;
      var q := (a * x) / m;
      assert a * x == q * m + 1;
      DividesCombination(g, x, m, a, 0 - q);
      assert a * x + (0 - q) * m == 1;
      DividesAtMost(g, 1);
    }
  }

  /** An inverse, for a number that need not be reduced. */
  lemma InverseModulo(z: nat, m: nat) returns (i: int)
    requires m > 1 && Gcd(z % m, m) == 1
    ensures (z * i) % m == 1
  {
    InverseIffCoprime(z % m, m);
    i :| (i * (z % m)) % m == 1;
    ModMul(i, z, m);
    assert i * z == z * i;
  }

  lemma InverseShows(z: nat, i: int, m: nat)
    requires m > 1 && (z * i) % m == 1
    ensures Gcd(z % m, m) == 1
  {
    InverseIffCoprime(z % m, m);
    ModMul(i, z, m);
    assert (i * (z % m)) % m == 1 by { assert i * z == z * i; }
  }

  // ----- primes -----

  ghost predicate Prime(p: nat)
  {
    p >= 2 && forall d: nat :: Divides(d, p) ==> d == 1 || d == p
  }

  /** A number is prime exactly when no smaller one but 1 leaves the remainder 0. */
  lemma PrimeIff(p: nat)
    ensures Prime(p) <==> p >= 2 && forall d: nat :: 1 < d < p ==> p % d != 0
  {
    if Prime(p) {
      forall d: nat | 1 < d < p ensures p % d != 0 { DividesMod(d, p); }
    } else if p >= 2 {
      var d: nat :| Divides(d, p) && d != 1 && d != p;
      DividesAtMost(d, p);
      DividesMod(d, p);
    }
  }

  /** A prime that divides a product divides a factor. */
  lemma Euclid(p: nat, a: nat, b: int)
    requires Prime(p) && Divides(p, a * b) && !Divides(p, a)
    ensures Divides(p, b)
  {
    var s, t := Bezout(a, p);
    assert Gcd(a, p) == 1;
    hide Divides;
    DividesIntro(p, p, 1);
    DividesCombination(p, a * b, p, s, t * b);
    EuclidAlgebra(s, t, a, p, b);
  }

  lemma EuclidAlgebra(s: int, t: int, a: int, p: int, b: int)
    requires s * a + t * p == 1
    ensures s * (a * b) + (t * b) * p == b
  {
    assert s * (a * b) + (t * b) * p == (s * a + t * p) * b;
  }

  // ----- binomial coefficients and Fermat's little theorem -----

  function Choose(n: nat, k: nat): nat
  {
    if k == 0 then 1 else if n == 0 then 0 else Choose(n - 1, k - 1) + Choose(n - 1, k)
  }

  lemma {:induction false} ChooseBeyond(n: nat, k: nat)
    requires k > n
    ensures Choose(n, k) == 0
  {
    if n > 0 {
      ChooseBeyond(n - 1, k - 1);
      ChooseBeyond(n - 1, k);
    }
  }

  lemma {:induction false} ChooseAll(n: nat)
    ensures Choose(n, n) == 1
  {
    if n > 0 {
      ChooseAll(n - 1);
      ChooseBeyond(n - 1, n);
    }
  }

  lemma {:induction false} Absorb(n: nat, k: nat)
    requires n > 0 && k > 0
    ensures k * Choose(n, k) == n * Choose(n - 1, k - 1)
  {
    if n == 1 {
      if k > 1 { ChooseBeyond(1, k); ChooseBeyond(0, k - 1); }
    } else {
      var x, y := Choose(n - 1, k - 1), Choose(n - 1, k);
      Absorb(n - 1, k);
      if k == 1 {
        assert Choose(n - 1, 0) == 1 && Choose(n - 2, 0) == 1;
      } else {
        Absorb(n - 1, k - 1);
        AbsorbStep(n, k, x, y, Choose(n - 2, k - 2), Choose(n - 2, k - 1));
      }
    }
  }

  lemma AbsorbStep(n: int, k: int, x: int, y: int, u: int, v: int)
    requires k * y == (n - 1) * v && (k - 1) * x == (n - 1) * u && x == u + v
    ensures k * (x + y) == n * x
  {
    assert k * (x + y) == (k - 1) * x + x + k * y;
    assert (n - 1) * u + (n - 1) * v == (n - 1) * (u + v);
  }

  /** Sum of the binomial terms C(n,j) a^j for j up to m. */
  function BinomialSum(n: nat, a: nat, m: nat): nat
  {
    if m == 0 then 1 else MulNat(Choose(n, m), Pow(a, m)); BinomialSum(n, a, m - 1) + Choose(n, m) * Pow(a, m)
  }

  lemma {:induction false} Pascal(n: nat, a: nat, m: nat)
    ensures BinomialSum(n + 1, a, m + 1) == BinomialSum(n, a, m + 1) + a * BinomialSum(n, a, m)
  {
    PowStep(a, m);
    if m == 0 {
      assert Pow(a, 1) == a * Pow(a, 0) && Pow(a, 0) == 1;
      assert Choose(n + 1, 1) == Choose(n, 0) + Choose(n, 1);
      assert BinomialSum(n + 1, a, 1) == 1 + (1 + Choose(n, 1)) * a;
      assert BinomialSum(n, a, 1) == 1 + Choose(n, 1) * a;
    } else {
      Pascal(n, a, m - 1);
      PascalStep(Choose(n, m), Choose(n, m + 1), Pow(a, m), a, BinomialSum(n, a, m), BinomialSum(n, a, m - 1));
    }
  }

  lemma PascalStep(c: int, c': int, p: int, a: int, s: int, t: int)
    requires s == t + c * p
    ensures (s + a * t) + (c + c') * (a * p) == (s + c' * (a * p)) + a * s
  {
    assert a * s == a * t + c * (a * p) by { assert a * (c * p) == c * (a * p); }
    assert (c + c') * (a * p) == c * (a * p) + c' * (a * p);
  }

  lemma {:induction false} BinomialTheorem(n: nat, a: nat)
    ensures BinomialSum(n, a, n) == Pow(a + 1, n)
  {
    if n > 0 {
      BinomialTheorem(n - 1, a);
      Pascal(n - 1, a, n - 1);
      SumBeyond(n - 1, a);
      PowStep(a + 1, n - 1);
      hide Pow, BinomialSum;
      OneMore(a, Pow(a + 1, n - 1));
    }
  }

  lemma SumBeyond(n: nat, a: nat)
    ensures BinomialSum(n, a, n + 1) == BinomialSum(n, a, n)
  {
    ChooseBeyond(n, n + 1);
    hide Choose, Pow;
    assert 0 * Pow(a, n + 1) == 0;
  }

  lemma OneMore(a: int, x: int)
    ensures (a + 1) * x == x + a * x
  {
  }

  /** The inner binomial coefficients of a prime are its multiples. */
  lemma ChoosePrime(p: nat, k: nat)
    requires Prime(p) && 0 < k < p
    ensures Divides(p, Choose(p, k))
  {
    hide Divides, Prime, Choose;
    Absorb(p, k);
    DividesIntro(p, k * Choose(p, k), Choose(p - 1, k - 1));
    if Divides(p, k) { DividesAtMost(p, k); }
    Euclid(p, k, Choose(p, k));
  }

  lemma {:induction false} InnerSum(p: nat, a: nat, m: nat)
    requires Prime(p) && m < p
    ensures Divides(p, BinomialSum(p, a, m) - 1)
  {
    if m == 0 {
      DividesIntro(p, 0, 0);
    } else {
      InnerSum(p, a, m - 1);
      ChoosePrime(p, m);
      DividesMul(p, Choose(p, m), Pow(a, m));
      DividesSum(p, BinomialSum(p, a, m - 1) - 1, Choose(p, m) * Pow(a, m));
    }
  }

  lemma {:induction false} FermatAll(p: nat, a: nat)
    requires Prime(p)
    ensures Divides(p, Pow(a, p) - a)
  {
    if a == 0 {
      assert Pow(0, p) == 0 * Pow(0, p - 1);
      DividesIntro(p, 0, 0);
    } else {
      FermatAll(p, a - 1);
      BinomialTheorem(p, a - 1);
      InnerSum(p, a - 1, p - 1);
      ChooseAll(p);
      DividesSum(p, BinomialSum(p, a - 1, p - 1) - 1, Pow(a - 1, p) - (a - 1));
    }
  }

  /** Fermat's little theorem. */
  lemma Fermat(p: nat, a: nat)
    requires Prime(p) && !Divides(p, a)
    ensures Pow(a, p - 1) % p == 1
  {
    FermatAll(p, a);
    var x := Pow(a, p - 1);
    assert Pow(a, p) == a * x;
    assert a * x - a == a * (x - 1);
    Euclid(p, a, x - 1);
    DividesMod(p, x - 1);
    assert x - 1 == ((x - 1) / p) * p;
    DivModUnique(x, (x - 1) / p, 1, p);
  }

  /** Modulo a prime, 1 has no square roots but 1 and -1. */
  lemma RootsOfOne(p: nat, x: nat)
    requires Prime(p) && x < p && (x * x) % p == 1
    ensures x == 1 || x == p - 1
  {
    assert x >= 1;
    var q := (x * x) / p;
    assert x * x == q * p + 1;
    assert (x - 1) * (x + 1) == q * p;
    if !Divides(p, x - 1) {
      Euclid(p, x - 1, x + 1);
      DividesAtMost(p, x + 1);
    } else if x > 1 {
      DividesAtMost(p, x - 1);
      assert false;
    }
  }
}
