/** Powers by squaring, plain and modular. */
module Exponentiation {
  import opened Arith
  import opened Digits
  import opened BigUInts
  import opened WordOps
  import opened Shifts
  import opened Comparison
  import opened Multiplication
  import opened Division
  import opened BitCounts

  const DIRECT_MULTIPLICATION_LIMIT := 1024

  lemma {:induction false} PowProduct(b: nat, n: nat)
    ensures Pow(b * b, n) == Pow(b, 2 * n)
  {
    if n > 0 {
      PowProduct(b, n - 1);
      assert 2 * n == (2 * (n - 1) + 1) + 1;
      PowStep(b, 2 * (n - 1));
      PowStep(b, 2 * (n - 1) + 1);
      MulAssoc(b, b, Pow(b, 2 * (n - 1)));
    }
  }

  lemma {:induction false} PowOfOne(n: nat)
    ensures Pow(1, n) == 1
  {
    if n > 0 { PowOfOne(n - 1); }
  }

  /** Squaring halves the exponent: result * b^e is the power being computed. */
  lemma SquareStep(b: nat, e: nat, result: nat)
    ensures result * Pow(b, e)
         == (if e % 2 == 1 then (result * b) * Pow(b * b, e / 2) else result * Pow(b * b, e / 2))
  {
    PowProduct(b, e / 2);
    if e % 2 == 1 {
      assert e == 2 * (e / 2) + 1;
      PowStep(b, 2 * (e / 2));
      MulAssoc(result, b, Pow(b, 2 * (e / 2)));
    }
  }

  /** x *= y, on values. */
  method MultiplyBy(x: BigUInt, y: BigUInt) returns (r: BigUInt)
    requires x.Valid() && y.Valid()
    ensures fresh(r) && r.Valid() && r.Value() == x.Value() * y.Value()
  {
    r := Multiply(x, y, DIRECT_MULTIPLICATION_LIMIT);
  }

  /** base ^ exponent; a negative exponent is only meaningful for a base that is not zero. */
  method Power(base: BigUInt, exponent: int) returns (r: BigUInt)
    requires base.Valid() && (exponent < 0 ==> base.Value() != 0)
    ensures fresh(r) && r.Valid()
    ensures exponent >= 0 ==> r.Value() == Pow(base.Value(), exponent)
    ensures exponent < 0 ==> r.Value() == (if base.Value() == 1 then 1 else 0)
  {
    hide BigUInt.Valid, BigUInt.Value, BigUInt.Words, Pow;
    var one := new BigUInt.FromWord(1);
    SmallPowers(base.Value(), exponent);
    var isOne := Equal(base, one);
    if exponent == 0 { return one; }
    if exponent == 1 {
      r := new BigUInt.Copy(base);
      return;
    }
    if exponent < 0 {
      r := new BigUInt.FromWord(if isOne then 1 else 0);
      return;
    }
    var above := Less(one, base);
    if !above {
      r := new BigUInt.Copy(base);
      return;
    }
    r := new BigUInt.FromWord(1);
    var b := new BigUInt.Copy(base);
    var e: nat := exponent;
    while e > 0
      invariant r.Valid() && b.Valid() && fresh(r) && fresh(b)
      invariant r.Value() * Pow(b.Value(), e) == Pow(base.Value(), exponent)
    {
      SquareStep(b.Value(), e, r.Value());
      if e % 2 == 1 {
        r := MultiplyBy(r, b);
      }
      e := e / 2;
      b := MultiplyBy(b, b);
    }
    PowerZero(b.Value());
  }

  lemma PowerZero(b: nat)
    ensures Pow(b, 0) == 1
  {
  }

  lemma SmallPowers(b: nat, e: int)
    ensures e == 0 ==> Pow(b, e) == 1
    ensures e == 1 ==> Pow(b, e) == b
    ensures e > 0 && b <= 1 ==> Pow(b, e) == b
  {
    if e > 0 && b == 1 { PowOfOne(e); }
    if e > 0 && b == 0 { assert Pow(0, e) == 0 * Pow(0, e - 1); }
    if e == 1 { PowStep(b, 0); }
  }

  // ----- modular powers -----

  /** n low bits of the exponent have been used; b is base^(2^n) modulo m. */
  ghost predicate PowerLoop(result: nat, b: nat, base: nat, exponent: nat, m: nat, n: nat)
  {
    && m > 1
    && result == Pow(base, LowBits(exponent, n)) % m
    && b == Pow(base, Pow2(n)) % m
  }

  function LowBits(e: nat, n: nat): nat { e % Pow2(n) }

  lemma PowerLoopStart(base: nat, exponent: nat, m: nat)
    requires m > 1
    ensures PowerLoop(1, base % m, base, exponent, m, 0)
  {
    assert Pow2(0) == 1 && LowBits(exponent, 0) == 0;
    assert Pow(base, 1) == base * Pow(base, 0);
    DivModUnique(1, 0, 1, m);
  }

  /** Peeling bit n off the exponent. */
  lemma LowBitsNext(e: nat, n: nat)
    ensures LowBits(e, n + 1) == LowBits(e, n) + (if (e / Pow2(n)) % 2 == 1 then Pow2(n) else 0)
  {
    var p := Pow2(n);
    hide Pow2;
    PeelBit(e, p);
    assert Pow2(n + 1) == 2 * p by { Doubled(n); }
  }

  lemma Doubled(n: nat)
    ensures Pow2(n + 1) == 2 * Pow2(n)
  {
  }

  lemma PeelBit(e: int, p: int)
    requires p > 0
    ensures e % (2 * p) == e % p + (if (e / p) % 2 == 1 then p else 0)
  {
    var y, s := e / p, e % p;
    var h, d := y / 2, y % 2;
    assert e == y * p + s && y == 2 * h + d;
    TwiceTimes(h, p);
    var m := 2 * p;
    if d == 1 { DivModUnique(e, h, p + s, m); } else { DivModUnique(e, h, s, m); }
  }

  lemma PowerLoopNext(result: nat, b: nat, base: nat, exponent: nat, m: nat, n: nat)
    requires PowerLoop(result, b, base, exponent, m, n)
    ensures (exponent / Pow2(n)) % 2 == 1 ==> PowerLoop((result * b) % m, (b * b) % m, base, exponent, m, n + 1)
    ensures (exponent / Pow2(n)) % 2 != 1 ==> PowerLoop(result, (b * b) % m, base, exponent, m, n + 1)
  {
    MulNat(result, b);
    MulNat(b, b);
    LowBitsNext(exponent, n);
    var p := Pow2(n);
    Pow2Add(n, 1);
    assert Pow2(n + 1) == p + p;
    PowAdd(base, p, p);
    PowAdd(base, LowBits(exponent, n), p);
    hide Pow, LowBits, Pow2;
    ModMul(Pow(base, p), Pow(base, p), m);
    ModMul(Pow(base, LowBits(exponent, n)), Pow(base, p), m);
  }

  lemma PowerLoopEnd(result: nat, b: nat, base: nat, exponent: nat, m: nat, n: nat)
    requires PowerLoop(result, b, base, exponent, m, n) && exponent < Pow2(n)
    ensures result == Pow(base, exponent) % m
  {
    DivModUnique(exponent, 0, exponent, Pow2(n));
  }

  /** base ^ exponent mod modulus, from the low bit up. */
  method PowerMod(base: BigUInt, exponent: BigUInt, modulus: BigUInt) returns (result: BigUInt)
    requires base.Valid() && exponent.Valid() && modulus.Valid() && modulus.Value() != 0
    ensures fresh(result) && result.Valid()
    ensures result.Value() == Pow(base.Value(), exponent.Value()) % modulus.Value()
  {
    hide BigUInt.Valid, BigUInt.Value, BigUInt.Words, BigUInt.Count, Weight, Digit, DigitCount, Pow, Pow2, PowerLoop,
         LeadingZeroBitCount;
    var one := new BigUInt.FromWord(1);
    var trivial := Equal(modulus, one);
    if trivial {
      ModOne(Pow(base.Value(), exponent.Value()));
      result := new BigUInt();
      return;
    }
    ghost var m, bv, ev := modulus.Value(), base.Value(), exponent.Value();
    var normalized, shift := NormalizedForm(modulus);
    result := new BigUInt.FromWord(1);
    var b := new BigUInt.Copy(base);
    FormRemainder(b, normalized, shift);
    PowerLoopStart(bv, ev, m);
    for i := 0 to exponent.Count()
      invariant result.Valid() && b.Valid() && fresh(result) && fresh(b) && result != normalized && b != normalized
      invariant normalized.Valid() && NormalizedFor(normalized, shift, m)
      invariant PowerLoop(result.Value(), b.Value(), bv, ev, m, WIDTH * i)
    {
      result, b := PowerWord(result, b, normalized, shift, exponent.Get(i), bv, ev, m, i);
    }
    ExponentUsed(ev, exponent.Count());
    PowerLoopEnd(result.Value(), b.Value(), bv, ev, m, WIDTH * exponent.Count());
  }

  lemma ModOne(x: int)
    ensures x % 1 == 0
  {
  }

  lemma ExponentUsed(e: nat, c: nat)
    requires DigitCount(e, c)
    ensures e < Pow2(WIDTH * c)
  {
    WeightIsPow2(c);
  }

  /** y is m shifted up until its top bit is set. */
  ghost predicate NormalizedFor(y: BigUInt, shift: nat, m: nat)
    requires y.Valid()
    reads y
  {
    && shift < WIDTH && y.Value() != 0 && LeadingZeroBitCount(y) == 0
    && y.Value() % Pow2(shift) == 0 && y.Value() / Pow2(shift) == m
  }

  /** The 64 bits of one word of the exponent. */
  method PowerWord(result0: BigUInt, b0: BigUInt, normalized: BigUInt, shift: nat, word: Word,
                   ghost base: nat, ghost exponent: nat, ghost m: nat, ghost i: nat)
    returns (result: BigUInt, b: BigUInt)
    requires result0.Valid() && b0.Valid() && normalized.Valid() && NormalizedFor(normalized, shift, m)
    requires word == Digit(exponent, i)
    requires PowerLoop(result0.Value(), b0.Value(), base, exponent, m, WIDTH * i)
    ensures fresh(result) && fresh(b) && result.Valid() && b.Valid()
    ensures PowerLoop(result.Value(), b.Value(), base, exponent, m, WIDTH * (i + 1))
  {
    hide BigUInt.Valid, BigUInt.Value, BigUInt.Words, Weight, Digit, Pow, Pow2, PowerLoop, LeadingZeroBitCount;
    result := new BigUInt.Copy(result0);
    b := new BigUInt.Copy(b0);
    var e: nat := word;
    WordBitsStart(word);
    for k := 0 to WIDTH
      invariant result.Valid() && b.Valid() && fresh(result) && fresh(b) && e == word / Pow2(k)
      invariant PowerLoop(result.Value(), b.Value(), base, exponent, m, WIDTH * i + k)
    {
      ExponentBit(exponent, i, k);
      PowerLoopNext(result.Value(), b.Value(), base, exponent, m, WIDTH * i + k);
      if e % 2 == 1 {
        result := MultiplyBy(result, b);
        FormRemainder(result, normalized, shift);
      }
      e := e / 2;
      b := MultiplyBy(b, b);
      FormRemainder(b, normalized, shift);
    }
    assert WIDTH * i + WIDTH == WIDTH * (i + 1);
  }

  lemma WordBitsStart(word: Word)
    ensures word == word / Pow2(0)
  {
    DivModUnique(word, word, 0, 1);
  }
}
