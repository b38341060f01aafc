/** Single bits of an integer, and the count of its trailing zero bits. */
module BitCounts {
  import opened Arith
  import opened Digits
  import opened BigUInts
  import opened WordOps
  import opened Shifts
  import opened Multiplication
  import M = MachineInts

  /** Bit 64*i + k of the exponent is bit k of its digit i. */
  lemma ExponentBit(e: nat, i: nat, k: nat)
    requires k < WIDTH
    ensures (e / Pow2(WIDTH * i + k)) % 2 == (Digit(e, i) / Pow2(k)) % 2
    ensures Digit(e, i) / Pow2(k + 1) == (Digit(e, i) / Pow2(k)) / 2
    ensures Digit(e, i) / Pow2(k) >= 0
  {
    DivideFactor(e, i, k);
    var y := e / Weight(i);
    var h, d := y / BASE, y % BASE;
    assert d == Digit(e, i) && y == h * BASE + d;
    PowerSplit(k);
    hide Weight, Digit;
    DivideTwice(d, Pow2(k), 2);
    assert Pow2(k + 1) == Pow2(k) * 2;
    QuotientAtMost(d, Pow2(k));
    BitOfLow(h, d, k);
  }

  lemma BitOfLow(h: int, d: Word, k: nat)
    requires k < WIDTH
    ensures ((h * BASE + d) / Pow2(k)) % 2 == (d / Pow2(k)) % 2
  {
    PowerSplit(k);
    assert Pow2(WIDTH - k) == 2 * Pow2(WIDTH - 1 - k);
    hide Pow2;
    LowWordBit(h, d, Pow2(k), Pow2(WIDTH - 1 - k), BASE);
  }

  lemma LowWordBit(h: int, d: int, p: int, q: int, base: int)
    requires p > 0 && p * (2 * q) == base
    ensures ((h * base + d) / p) % 2 == (d / p) % 2
  {
    var a, r := d / p, d % p;
    assert d == a * p + r;
    assert (h * (2 * q) + a) * p == h * ((2 * q) * p) + a * p;
    DivModUnique(h * base + d, h * (2 * q) + a, r, p);
    assert h * (2 * q) == (h * q) * 2;
    CongIntro(h * (2 * q) + a, a, h * q, 2);
  }

  /** z zero bits, then a one. */
  ghost predicate TrailingZeroBits(v: nat, z: nat)
  {
    v % Pow2(z) == 0 && (v / Pow2(z)) % 2 == 1
  }

  /** 2^z is the largest power of two that divides v. */
  lemma LargestPower(v: nat, z: nat)
    ensures TrailingZeroBits(v, z) <==> v % Pow2(z) == 0 && v % Pow2(z + 1) != 0
  {
    var p, q := Pow2(z), v / Pow2(z);
    assert Pow2(z + 1) == 2 * p;
    hide Pow2;
    if v % p == 0 { HalfMultiple(v, p, q); }
  }

  lemma HalfMultiple(v: nat, p: nat, q: nat)
    requires p > 0 && v == q * p
    ensures v % (2 * p) == (q % 2) * p
  {
    var h := q / 2;
    assert q == 2 * h + q % 2;
    Expanded(h, q % 2, p);
    DivModUnique(v, h, (q % 2) * p, 2 * p);
  }

  lemma Expanded(h: int, b: int, p: int)
    ensures (2 * h + b) * p == h * (2 * p) + b * p
  {
  }

  lemma {:induction false} CtzCounts(x: nat)
    requires x > 0
    ensures TrailingZeroBits(x, M.Ctz(x))
  {
    if x % 2 == 1 {
      assert Pow2(0) == 1;
    } else {
      CtzCounts(x / 2);
      var z := M.Ctz(x / 2);
      TrailingZeroDouble(x / 2, z);
    }
  }

  lemma TrailingZeroDouble(x: nat, z: nat)
    requires TrailingZeroBits(x, z)
    ensures TrailingZeroBits(2 * x, z + 1)
  {
    var p, y := Pow2(z), x / Pow2(z);
    assert x == y * p;
    assert 2 * x == y * (2 * p);
    DivModUnique(2 * x, y, 0, 2 * p);
  }

  lemma TrailingZeroUnique(v: nat, z: nat, z': nat)
    requires TrailingZeroBits(v, z) && TrailingZeroBits(v, z')
    ensures z == z'
  {
    if z < z' { NotDivisible(v, z, z'); }
    if z' < z { NotDivisible(v, z', z); }
  }

  lemma NotDivisible(v: nat, z: nat, z': nat)
    requires TrailingZeroBits(v, z) && z < z'
    ensures v % Pow2(z') != 0
  {
    Pow2Add(z + 1, z' - z - 1);
    assert Pow2(z + 1) == 2 * Pow2(z);
    hide Pow2;
    OddQuotient(v, Pow2(z), Pow2(z' - z - 1), Pow2(z'));
  }

  lemma OddQuotient(v: nat, p: nat, q: nat, r: nat)
    requires p > 0 && r > 0 && r == (2 * p) * q && (v / p) % 2 == 1
    ensures v % r != 0
  {
    var k := v / r;
    if v == k * r {
      assert k * ((2 * p) * q) == (2 * (k * q)) * p;
      DivModUnique(v, 2 * (k * q), 0, p);
    }
  }

  method TrailingZeroBitCount(x: BigUInt) returns (z: nat)
    requires x.Valid()
    ensures x.Value() == 0 ==> z == 0
    ensures x.Value() > 0 ==> TrailingZeroBits(x.Value(), z)
  {
    hide BigUInt.Valid, BigUInt.Value, BigUInt.Words, BigUInt.Count, Weight, Digit, TrailingZeroBits;
    if x.Count() == 0 {
      ZeroCount(x.Value(), x.Count());
      return 0;
    }
    var i := 0;
    LowZeroStart(x.Value());
    TopDigitIs(x.Value(), x.Count());
    while x.Get(i) == 0
      invariant i < x.Count() && x.Value() % Weight(i) == 0
      decreases x.Count() - i
    {
      DigitSplit(x.Value(), i);
      i := i + 1;
    }
    z := i * WIDTH + M.Ctz(x.Get(i));
    CtzCounts(x.Get(i));
    WordTrailingZeros(x.Value(), i, M.Ctz(x.Get(i)));
  }

  lemma ZeroCount(v: nat, c: nat)
    requires DigitCount(v, c) && c == 0
    ensures v == 0
  {
    assert Weight(0) == 1;
  }

  lemma LowZeroStart(v: nat)
    ensures v % Weight(0) == 0
  {
  }

  lemma WordTrailingZeros(v: nat, i: nat, c: nat)
    requires v % Weight(i) == 0 && Digit(v, i) > 0 && TrailingZeroBits(Digit(v, i), c)
    ensures TrailingZeroBits(v, i * WIDTH + c)
  {
    var d := Digit(v, i);
    if c >= WIDTH {
      Pow2Mono(WIDTH, c);
      M.PowersOfTwo();
      DivModUnique(d, 0, d, Pow2(c));
      assert false;
    }
    ExponentBit(v, i, c);
    WeightIsPow2(i);
    Pow2Add(WIDTH * i, c);
    PowerSplit(c);
    DigitSplit(v, i);
    hide Weight, Digit, Pow2;
    LowDivisible(v / Weight(i + 1), d, Weight(i), Pow2(c), Pow2(WIDTH - c), v, BASE);
  }

  lemma LowDivisible(h: int, d: int, w: int, p: int, q: int, v: int, base: int)
    requires w > 0 && p > 0 && p * q == base && d % p == 0 && w * p > 0
    requires v == (h * base + d) * w
    ensures v % (w * p) == 0
  {
    var k := d / p;
    assert d == k * p;
    assert h * (p * q) + k * p == (h * q + k) * p;
    assert ((h * q + k) * p) * w == (h * q + k) * (w * p);
    DivModUnique(v, h * q + k, 0, w * p);
  }
}
