/** Stein's greatest common divisor and the modular inverse by extended Euclid. */
module GreatestCommonDivisor {
  import opened Arith
  import opened BigUInts
  import opened Shifts
  import opened BitCounts
  import opened Comparison
  import opened Subtraction
  import opened Multiplication
  import opened Division
  import opened Exponentiation
  import opened SignedInts
  import N = NumberTheory

  lemma GcdTwoOdd(y: nat)
    requires y % 2 == 1
    ensures N.Gcd(2, y) == 1
  {
    assert N.Gcd(2, y) == N.Gcd(y, 2) by { N.GcdSwap(2, y); }
    assert N.Gcd(y, 2) == N.Gcd(2, 1);
    assert N.Gcd(2, 1) == N.Gcd(1, 0);
  }

  /** Factors of two of one argument can be dropped when the other is odd. */
  lemma {:induction false} GcdDropTwos(z: nat, x: nat, y: nat)
    requires y % 2 == 1
    ensures N.Gcd(Pow2(z) * x, y) == N.Gcd(x, y)
  {
    if z == 0 {
      assert Pow2(0) * x == x;
    } else {
      GcdDropTwos(z - 1, x, y);
      GcdTwoOdd(y);
      N.GcdCoprimeFactor(2, Pow2(z - 1) * x, y);
      assert Pow2(z) * x == 2 * (Pow2(z - 1) * x);
    }
  }

  /** The common factors of two come out; the others do not matter. */
  lemma GcdTwos(az: nat, x: nat, bz: nat, y: nat)
    requires x % 2 == 1 && y % 2 == 1
    ensures N.Gcd(Pow2(az) * x, Pow2(bz) * y) == Pow2(Min(az, bz)) * N.Gcd(x, y)
  {
    var t := Min(az, bz);
    var i, j := az - t, bz - t;
    Pow2Add(t, i);
    Pow2Add(t, j);
    OneFactor(i, j, x, y);
    hide Pow2, N.Gcd;
    MulAssoc(Pow2(t), Pow2(i), x);
    MulAssoc(Pow2(t), Pow2(j), y);
    MulNat(Pow2(i), x);
    MulNat(Pow2(j), y);
    N.GcdScale(Pow2(t), Pow2(i) * x, Pow2(j) * y);
  }

  lemma OneFactor(i: nat, j: nat, x: nat, y: nat)
    requires x % 2 == 1 && y % 2 == 1 && (i == 0 || j == 0)
    ensures N.Gcd(Pow2(i) * x, Pow2(j) * y) == N.Gcd(x, y)
  {
    PowZero(x);
    PowZero(y);
    hide Pow2, N.Gcd;
    MulNat(Pow2(i), x);
    MulNat(Pow2(j), y);
    if i == 0 {
      N.GcdSwap(x, Pow2(j) * y);
      GcdDropTwos(j, y, x);
      N.GcdSwap(y, x);
    } else {
      GcdDropTwos(i, x, y);
    }
  }

  lemma FactorTwos(a: nat, z: nat)
    requires TrailingZeroBits(a, z)
    ensures a == Pow2(z) * (a / Pow2(z)) && (a / Pow2(z)) % 2 == 1
  {
  }

  /** The greatest common divisor; 0 counts as divisible by everything. */
  method SteinGcd(a: BigUInt, b: BigUInt) returns (r: BigUInt)
    requires a.Valid() && b.Valid()
    ensures fresh(r) && r.Valid() && r.Value() == N.Gcd(a.Value(), b.Value())
    ensures N.Divides(r.Value(), a.Value()) && N.Divides(r.Value(), b.Value())
    ensures forall d: int :: N.Divides(d, a.Value()) && N.Divides(d, b.Value()) ==> N.Divides(d, r.Value())
  {
    N.GcdIsGcd(a.Value(), b.Value());
    hide BigUInt.Valid, BigUInt.Value, BigUInt.Words, TrailingZeroBits, Pow2, N.Gcd, N.Divides;
    GcdOfZero(a.Value(), b.Value());
    if a.IsZero() {
      r := new BigUInt.Copy(b);
      return;
    }
    if b.IsZero() {
      r := new BigUInt.Copy(a);
      return;
    }
    var az := TrailingZeroBitCount(a);
    var bz := TrailingZeroBitCount(b);
    var twos := Min(az, bz);
    FactorTwos(a.Value(), az);
    FactorTwos(b.Value(), bz);
    var x := ShiftedRight(a, az);
    var y := ShiftedRight(b, bz);
    GcdTwos(az, x.Value(), bz, y.Value());
    hide Min;
    y := OddGcd(x, y);
    r := ShiftedLeft(y, twos);
    MulCommutes(Pow2(twos), y.Value());
  }

  lemma GcdOfZero(a: nat, b: nat)
    ensures a == 0 ==> N.Gcd(a, b) == b
    ensures b == 0 ==> N.Gcd(a, b) == a
  {
    if a == 0 { N.GcdSwap(0, b); }
  }

  /** Subtract the smaller of two odd numbers from the larger and drop the factors of two. */
  method OddGcd(x0: BigUInt, y0: BigUInt) returns (y: BigUInt)
    requires x0.Valid() && y0.Valid() && x0.Value() % 2 == 1 && y0.Value() % 2 == 1
    ensures fresh(y) && y.Valid() && y.Value() == N.Gcd(x0.Value(), y0.Value())
  {
    hide BigUInt.Valid, BigUInt.Value, BigUInt.Words, TrailingZeroBits, Pow2, N.Gcd;
    ghost var g := N.Gcd(x0.Value(), y0.Value());
    var x := new BigUInt.Copy(x0);
    y := new BigUInt.Copy(y0);
    var less := Less(x, y);
    N.GcdSwap(x.Value(), y.Value());
    if less { x, y := y, x; }
    while !x.IsZero()
      invariant x.Valid() && y.Valid() && fresh(x) && fresh(y) && x != y
      invariant y.Value() % 2 == 1 && N.Gcd(x.Value(), y.Value()) == g
      decreases x.Value() + y.Value()
    {
      var z := TrailingZeroBitCount(x);
      FactorTwos(x.Value(), z);
      GcdDropTwos(z, x.Value() / Pow2(z), y.Value());
      ShrinkBy(x.Value(), z);
      ShiftRight(x, z);
      N.GcdSwap(x.Value(), y.Value());
      less := Less(x, y);
      if less { x, y := y, x; }
      N.GcdSubtract(x.Value(), y.Value());
      WeightZero();
      Subtract(x, y, 0);
    }
    GcdOfZero(x.Value(), y.Value());
  }

  lemma ShrinkBy(v: nat, z: nat)
    ensures 0 <= v / Pow2(z) <= v
  {
    QuotientAtMost(v, Pow2(z));
  }

  // ----- modular inverse -----

  /** t1*x = r1 and t2*x = r2 (mod m), with t1 and t2 of opposite signs and small. */
  ghost predicate InverseLoop(t1: int, t2: int, r1: nat, r2: nat, x: nat, m: nat)
  {
    && m > 1 && r1 > 0 && (r2 > 0 ==> r1 > 1)
    && (t1 * x) % m == r1 % m && (t2 * x) % m == r2 % m
    && N.Gcd(r1, r2) == N.Gcd(m, x)
    && (t1 <= 0 <= t2 || t2 <= 0 <= t1)
    && Abs(t1) * r2 + Abs(t2) * r1 == m
    && Abs(t1) < m
  }

  lemma InverseLoopStart(x: nat, m: nat)
    requires m > 1
    ensures InverseLoop(0, 1, m, x, x, m)
  {
    assert 0 * x == 0 && 1 * x == x;
    DivModUnique(m, 1, 0, m);
  }

  lemma InverseLoopNext(t1: int, t2: int, r1: nat, r2: nat, x: nat, m: nat)
    requires r2 > 0 && InverseLoop(t1, t2, r1, r2, x, m)
    ensures r1 - (r1 / r2) * r2 >= 0
    ensures InverseLoop(t2, t1 - (r1 / r2) * t2, r2, r1 - (r1 / r2) * r2, x, m)
  {
    hide N.Gcd, InverseLoop;
    var q, r := r1 / r2, r1 % r2;
    FloorBounds(r1, r2);
    QuotientAtMost(r1, r2);
    GcdStep(r1, r2);
    InverseLoopWith(t1, t2, r1, r2, q, t1 - q * t2, r, x, m);
  }

  lemma GcdStep(r1: nat, r2: nat)
    requires r2 > 0
    ensures N.Gcd(r1, r2) == N.Gcd(r2, r1 % r2)
  {
  }

  lemma InverseLoopWith(t1: int, t2: int, r1: nat, r2: nat, q: nat, t: int, r: nat, x: nat, m: nat)
    requires InverseLoop(t1, t2, r1, r2, x, m) && r1 == q * r2 + r && r < r2 && t == t1 - q * t2
    requires N.Gcd(r1, r2) == N.Gcd(r2, r)
    ensures InverseLoop(t2, t, r2, r, x, m)
  {
    hide N.Gcd;
    NextCongruence(t1, t2, r1, r2, q, x, m);
    NextBalance(t1, t2, r1, r2, q, r);
    MulNat(Abs(t1), r2);
    SmallFactor(Abs(t1) * r2, Abs(t2), r1, m);
  }

  lemma NextCongruence(t1: int, t2: int, r1: int, r2: int, q: int, x: int, m: int)
    requires m > 0 && (t1 * x) % m == r1 % m && (t2 * x) % m == r2 % m
    ensures ((t1 - q * t2) * x) % m == (r1 - q * r2) % m
  {
    CongMul(t2 * x, r2, q, q, m);
    CongAdd(t1 * x, r1, (t2 * x) * q, r2 * q, m);
    assert (t1 - q * t2) * x == t1 * x - (t2 * x) * q;
  }

  lemma NextBalance(t1: int, t2: int, r1: int, r2: int, q: int, r: int)
    requires q >= 0 && r1 == q * r2 + r && (t1 <= 0 <= t2 || t2 <= 0 <= t1)
    ensures Abs(t2) * r + Abs(t1 - q * t2) * r2 == Abs(t1) * r2 + Abs(t2) * r1
    ensures t2 <= 0 <= t1 - q * t2 || t1 - q * t2 <= 0 <= t2
  {
    AbsDifference(t1, t2, q);
    var a, b := Abs(t1), Abs(t2);
    hide Abs;
    assert (a + q * b) * r2 == a * r2 + q * b * r2;
    assert b * (q * r2 + r) == q * b * r2 + b * r;
  }

  lemma AbsDifference(t1: int, t2: int, q: int)
    requires q >= 0 && (t1 <= 0 <= t2 || t2 <= 0 <= t1)
    ensures Abs(t1 - q * t2) == Abs(t1) + q * Abs(t2)
    ensures t2 <= 0 <= t1 - q * t2 || t1 - q * t2 <= 0 <= t2
  {
    if t2 >= 0 { MulNat(q, t2); } else { MulNat(q, 0 - t2); assert q * (0 - t2) == 0 - q * t2; }
  }

  lemma SmallFactor(a: int, b: nat, r: nat, m: nat)
    requires a >= 0 && a + b * r == m && r > 1 && m > 0
    ensures b < m
  {
    MulMono(2, r, b);
  }

  /** The end of the loop: the greatest common divisor, and the coefficient that made it. */
  lemma InverseLoopEnd(t1: int, t2: int, r1: nat, x: nat, m: nat)
    requires InverseLoop(t1, t2, r1, 0, x, m)
    ensures N.Gcd(x, m) == r1 && Abs(t1) < m
    ensures r1 > 0 && m > 1
    ensures r1 == 1 ==> InverseOf(if t1 < 0 then m + t1 else t1, x, m)
  {
    N.GcdSwap(m, x);
    assert N.Gcd(r1, 0) == r1;
    hide N.Gcd;
    if r1 == 1 { UnitCoefficient(t1, x, m); }
  }

  lemma UnitCoefficient(t: int, x: int, m: int)
    requires m > 1 && (t * x) % m == 1 % m
    ensures (t * x) % m == 1 && ((m + t) * x) % m == 1 && t != 0
  {
    DivModUnique(1, 0, 1, m);
    DivModUnique(0, 0, 0, m);
    assert (m + t) * x == t * x + x * m;
    CongIntro((m + t) * x, t * x, x, m);
    if t == 0 { ZeroTimes(x); }
  }

  lemma ZeroTimes(x: int)
    ensures 0 * x == 0
  {
  }

  /** The inverse modulo `modulus`; by `InverseIffCoprime` it is found exactly when there is one. */
  method Inverse(x: BigUInt, modulus: BigUInt) returns (found: bool, r: BigUInt)
    requires x.Valid() && modulus.Valid() && modulus.Value() > 1
    ensures found <==> N.Gcd(x.Value(), modulus.Value()) == 1
    ensures fresh(r) && r.Valid()
    ensures found ==> r.Value() < modulus.Value() && (r.Value() * x.Value()) % modulus.Value() == 1
  {
    hide BigUInt.Valid, BigUInt.Value, BigUInt.Words, InverseLoop, InverseOf, N.Gcd;
    var t1 := FromInt(0);
    var t2 := FromInt(1);
    var r1 := new BigUInt.Copy(modulus);
    var r2 := new BigUInt.Copy(x);
    ghost var xv, m := x.Value(), modulus.Value();
    InverseLoopStart(xv, m);
    while !r2.IsZero()
      invariant t1.Valid() && t2.Valid() && r1.Valid() && r2.Valid()
      invariant fresh(t1.magnitude) && fresh(t2.magnitude) && fresh(r1) && fresh(r2)
      invariant InverseLoop(t1.Value(), t2.Value(), r1.Value(), r2.Value(), xv, m)
      decreases r2.Value()
    {
      t1, t2, r1, r2 := InverseStep(t1, t2, r1, r2, xv, m);
    }
    InverseLoopEnd(t1.Value(), t2.Value(), r1.Value(), xv, m);
    found, r := InverseResult(t1, r1, modulus, xv);
    if found { InverseOfMeans(r.Value(), xv, m); }
  }

  ghost predicate InverseOf(r: nat, x: nat, m: nat)
  {
    r < m && (r * x) % m == 1
  }

  lemma InverseOfMeans(r: nat, x: nat, m: nat)
    requires m > 0 && InverseOf(r, x, m)
    ensures r < m && (r * x) % m == 1
  {
  }

  method InverseResult(t1: BigInt, r1: BigUInt, modulus: BigUInt, ghost x: nat) returns (found: bool, r: BigUInt)
    requires t1.Valid() && r1.Valid() && modulus.Valid() && modulus.Value() > 1 && r1.Value() > 0
    requires Abs(t1.Value()) < modulus.Value()
    requires r1.Value() == 1 ==>
      InverseOf(if t1.Value() < 0 then modulus.Value() + t1.Value() else t1.Value(), x, modulus.Value())
    ensures found <==> r1.Value() == 1
    ensures fresh(r) && r.Valid() && (found ==> InverseOf(r.Value(), x, modulus.Value()))
  {
    hide BigUInt.Valid, BigUInt.Value, BigUInt.Words, InverseOf;
    var one := new BigUInt.FromWord(1);
    var more := Less(one, r1);
    if more {
      r := new BigUInt();
      return false, r;
    }
    found := true;
    if t1.sign == Minus {
      r := Difference(modulus, t1.magnitude);
    } else {
      r := new BigUInt.Copy(t1.magnitude);
    }
  }

  method InverseStep(t1: BigInt, t2: BigInt, r1: BigUInt, r2: BigUInt, ghost x: nat, ghost m: nat)
    returns (t1': BigInt, t2': BigInt, r1': BigUInt, r2': BigUInt)
    requires t1.Valid() && t2.Valid() && r1.Valid() && r2.Valid() && r2.Value() > 0
    requires InverseLoop(t1.Value(), t2.Value(), r1.Value(), r2.Value(), x, m)
    ensures t1' == t2 && r1' == r2 && t2'.Valid() && r2'.Valid() && fresh(t2'.magnitude) && fresh(r2')
    ensures InverseLoop(t1'.Value(), t2'.Value(), r1'.Value(), r2'.Value(), x, m)
    ensures r2'.Value() < r2.Value()
  {
    hide BigUInt.Valid, BigUInt.Value, BigUInt.Words, InverseLoop;
    InverseLoopNext(t1.Value(), t2.Value(), r1.Value(), r2.Value(), x, m);
    RemainderBelow(r1.Value(), r2.Value());
    var quotient := Quotient(r1, r2);
    var product := SignedProduct(BigInt(Plus, quotient), t2);
    t2' := SignedDifference(t1, product);
    var s := MultiplyBy(quotient, r2);
    r2' := Difference(r1, s);
    t1', r1' := t2, r2;
  }

  lemma RemainderBelow(a: nat, b: nat)
    requires b > 0
    ensures 0 <= a - (a / b) * b < b
  {
  }
}
