/** Bit fields, shifts and rounding of scalars. */
module ScalarBits {
  import opened Arith
  import opened MachineInts
  import opened Scalars
  import opened ScalarMul
  import opened Digits
  import opened WordOps
  import opened Shifts
  import WordDivision

  /** `x >> low | y << (64 - low)`. */
  function ShiftPair(x: uint64, y: uint64, low: nat): nat
    requires low < WIDTH
  {
    if low == 0 then x else BitOr(WordShiftRight(x, low), WordShiftLeft(y, WIDTH - low))
  }

  lemma ShiftPairIs(x: uint64, y: uint64, low: nat)
    requires low < WIDTH
    ensures ShiftPair(x, y, low) == ((y % Pow2(low)) * TWO64 + x) / Pow2(low)
    ensures ShiftPair(x, y, low) < TWO64
    ensures ((y % Pow2(low)) * TWO64 + x) % Pow2(low) == x % Pow2(low)
  {
    if low == 0 {
      assert Pow2(0) == 1;
    } else {
      WordDown(x, y % Pow2(low), low);
      WordDown(y, 0, low);
      OrCommutes(WordShiftRight(x, low), WordShiftLeft(y, WIDTH - low));
    }
  }

  /** One word of the shift: the quotient of the upper part, extended by a digit. */
  lemma ShiftNext(upper: nat, y: uint64, x: uint64, low: nat)
    requires low < WIDTH && upper % Pow2(low) == y % Pow2(low)
    ensures (upper * TWO64 + x) / Pow2(low) == (upper / Pow2(low)) * TWO64 + ShiftPair(x, y, low)
    ensures (upper * TWO64 + x) % Pow2(low) == x % Pow2(low)
  {
    ShiftPairIs(x, y, low);
    DivideNext(upper, x, Pow2(low));
  }

  method ShiftLimbs(m: Scalar, low: nat) returns (r: Scalar)
    requires low < WIDTH
    ensures r.Val() == m.Val() / Pow2(low)
    ensures m.Val() % Pow2(low) == m.d0 % Pow2(low)
  {
    hide ShiftPair, Pow2, Scalar.Val;
    ShiftPairIs(m.d0, m.d1, low);
    ShiftPairIs(m.d1, m.d2, low);
    ShiftPairIs(m.d2, m.d3, low);
    ShiftPairIs(m.d3, 0, low);
    ghost var u1 := m.d3 * TWO64 + m.d2;
    ghost var u2 := u1 * TWO64 + m.d1;
    ZeroMod(Pow2(low));
    ShiftNext(0, 0, m.d3, low);
    ShiftNext(m.d3, m.d3, m.d2, low);
    ShiftNext(u1, m.d2, m.d1, low);
    ShiftNext(u2, m.d1, m.d0, low);
    r := Scalar(ShiftPair(m.d0, m.d1, low), ShiftPair(m.d1, m.d2, low), ShiftPair(m.d2, m.d3, low), ShiftPair(m.d3, 0, low));
    Nested(m);
    Nested(r);
  }

  lemma ZeroMod(p: nat)
    requires p > 0
    ensures 0 % p == 0 && 0 / p == 0
  {
    DivModUnique(0, 0, 0, p);
  }

  lemma Nested(m: Scalar)
    ensures m.Val() == ((m.d3 * TWO64 + m.d2) * TWO64 + m.d1) * TWO64 + m.d0
  {
  }

  /** Shift right in place; returns the bits shifted out. */
  method ShrInt(a: Scalar, n: nat) returns (r: Scalar, bits: nat)
    requires 0 < n < 16
    ensures r.Val() == a.Val() / Pow2(n) && bits == a.Val() % Pow2(n)
  {
    r := ShiftLimbs(a, n);
    QuotientAtMost(a.d0, Pow2(n));
    bits := a.d0 % Pow2(n);
  }

  // ----- bit fields -----

  lemma LimbWeights()
    ensures Weight(0) == 1 && Weight(1) == TWO64 && Weight(2) == TWO128 && Weight(3) == TWO192 && Weight(4) == TWO256
  {
    assert Weight(1) == BASE * Weight(0);
    assert Weight(2) == BASE * Weight(1);
    assert Weight(3) == BASE * Weight(2);
    assert Weight(4) == BASE * Weight(3);
  }

  /** The limbs from i on, as a number: limb i and the limbs above it. */
  lemma UpperLimbs(a: Scalar, i: nat)
    requires i < 4
    ensures a.Val() / Weight(i) == (a.Val() / Weight(i + 1)) * TWO64 + a.Limb(i)
  {
    LimbWeights();
    hide Weight;
    var d0, d1, d2, d3 := a.d0, a.d1, a.d2, a.d3;
    DivModUnique(a.Val(), a.Val(), 0, 1);
    DivModUnique(a.Val(), d1 + d2 * TWO64 + d3 * TWO128, d0, TWO64);
    DivModUnique(a.Val(), d2 + d3 * TWO64, d0 + d1 * TWO64, TWO128);
    DivModUnique(a.Val(), d3, d0 + d1 * TWO64 + d2 * TWO128, TWO192);
    DivModUnique(a.Val(), 0, a.Val(), TWO256);
  }

  /** A multiple of a higher power of two does not reach the low bits. */
  lemma LowBitsOnly(h: int, x: int, i: nat, j: nat)
    requires j <= i
    ensures (h * Pow2(i) + x) % Pow2(j) == x % Pow2(j)
  {
    Pow2Add(j, i - j);
    hide Pow2;
    AddMultiple(h, x, Pow2(j), Pow2(i - j));
  }

  lemma AddMultiple(h: int, x: int, p: int, q: int)
    requires p > 0
    ensures (h * (p * q) + x) % p == x % p
  {
    assert h * (p * q) == (h * q) * p;
    CongIntro(h * (p * q) + x, x, h * q, p);
  }

  /** `count` bits from `offset` on. */
  function Bits(v: nat, offset: nat, count: nat): nat { (v / Pow2(offset)) % Pow2(count) }

  lemma FieldInLimb(v: nat, upper: nat, x: uint64, i: nat, s: nat, count: nat)
    requires v / Weight(i) == upper * TWO64 + x && s + count <= WIDTH
    ensures Bits(v, WIDTH * i + s, count) == (x / Pow2(s)) % Pow2(count)
  {
    DivideFactor(v, i, s);
    PowerSplit(s);
    hide Pow2, Weight;
    InLimbQuotient(upper, x, Pow2(s), Pow2(WIDTH - s));
    LowBitsOnly(upper, x / Pow2(s), WIDTH - s, count);
  }

  lemma InLimbQuotient(upper: int, x: int, p: int, q: int)
    requires p * q == TWO64 && p > 0
    ensures (upper * TWO64 + x) / p == upper * q + x / p
  {
    var h, l := x / p, x % p;
    assert x == h * p + l;
    assert upper * (p * q) == (upper * q) * p;
    assert (upper * q + h) * p == (upper * q) * p + h * p;
    DivModUnique(upper * TWO64 + x, upper * q + h, l, p);
  }

  lemma FieldAcrossLimbs(v: nat, upper: nat, y: uint64, x: uint64, i: nat, s: nat, count: nat)
    requires v / Weight(i) == upper * TWO64 + x && upper % Pow2(s) == y % Pow2(s)
    requires s < WIDTH && count <= WIDTH
    ensures Bits(v, WIDTH * i + s, count) == ShiftPair(x, y, s) % Pow2(count)
  {
    DivideFactor(v, i, s);
    PowersOfTwo();
    hide Weight, ShiftPair, Pow2;
    ShiftNext(upper, y, x, s);
    LowBitsOnly(upper / Pow2(s), ShiftPair(x, y, s), WIDTH, count);
  }

  /** Bits inside one limb. */
  function GetBits(a: Scalar, offset: nat, count: nat): (bits: nat)
    requires count >= 1 && offset + count <= 256 && (offset + count - 1) / WIDTH == offset / WIDTH
    ensures bits == Bits(a.Val(), offset, count)
  {
    var (i, s) := (offset / WIDTH, offset % WIDTH);
    UpperLimbs(a, i);
    QuotientAtMost(a.Val(), Weight(i + 1));
    FieldInLimb(a.Val(), a.Val() / Weight(i + 1), a.Limb(i), i, s, count);
    QuotientAtMost(a.Limb(i), Pow2(s));
    WordShiftRight(a.Limb(i), s) % Pow2(count)
  }

  /** Bits that may straddle two limbs. */
  function GetBitsVar(a: Scalar, offset: nat, count: nat): (bits: nat)
    requires 1 <= count < 32 && offset + count <= 256
    ensures bits == Bits(a.Val(), offset, count)
  {
    if (offset + count - 1) / WIDTH == offset / WIDTH then GetBits(a, offset, count)
    else
      var (i, s) := (offset / WIDTH, offset % WIDTH);
      UpperLimbs(a, i);
      UpperLimbs(a, i + 1);
      QuotientAtMost(a.Val(), Weight(i + 1));
      NextLimbLow(a.Val() / Weight(i + 1), a.Val() / Weight(i + 2), a.Limb(i + 1), s);
      FieldAcrossLimbs(a.Val(), a.Val() / Weight(i + 1), a.Limb(i + 1), a.Limb(i), i, s, count);
      ShiftPair(a.Limb(i), a.Limb(i + 1), s) % Pow2(count)
  }

  lemma NextLimbLow(upper: int, rest: int, y: uint64, s: nat)
    requires upper == rest * TWO64 + y && s <= WIDTH
    ensures upper % Pow2(s) == y % Pow2(s)
  {
    PowersOfTwo();
    LowBitsOnly(rest, y, WIDTH, s);
  }

  /** Low and high 128 bits. */
  function Split128(a: Scalar): (r: (Scalar, Scalar))
    ensures r.0.Val() + r.1.Val() * TWO128 == a.Val() && r.0.Val() < TWO128 && r.1.Val() < TWO128
  {
    (Scalar(a.d0, a.d1, 0, 0), Scalar(a.d2, a.d3, 0, 0))
  }

  // ----- rounded multiplication -----

  function Words(l: Wide): seq<uint64>
  {
    [l.l0, l.l1, l.l2, l.l3, l.l4, l.l5, l.l6, l.l7]
  }

  lemma WideWeights()
    ensures Weight(5) == TWO320 && Weight(6) == TWO384 && Weight(7) == TWO448
  {
    LimbWeights();
    assert Weight(5) == BASE * Weight(4);
    assert Weight(6) == BASE * Weight(5);
    assert Weight(7) == BASE * Weight(6);
  }

  lemma WideSum(l: Wide)
    ensures Nat(Words(l)) == l.Val()
  {
    var w := Words(l);
    LimbWeights();
    WideWeights();
    hide Weight;
    SumStep(w, 0);
    SumStep(w, 1);
    SumStep(w, 2);
    SumStep(w, 3);
    SumStep(w, 4);
    SumStep(w, 5);
    SumStep(w, 6);
    SumStep(w, 7);
    assert Sum(w, 0) == 0;
  }

  /** Limb i of the product, zero above the eighth. */
  function LimbOrZero(l: Wide, i: nat): uint64 { if i < 8 then l.Limb(i) else 0 }

  lemma WideDigit(l: Wide, i: nat)
    ensures LimbOrZero(l, i) == Digit(l.Val(), i)
    ensures l.Val() / Weight(i) == (l.Val() / Weight(i + 1)) * TWO64 + LimbOrZero(l, i)
    ensures i >= 8 ==> l.Val() / Weight(i) == 0
  {
    WideSum(l);
    AtIsDigit(Words(l), i);
    assert At(Words(l), i) == LimbOrZero(l, i);
    DigitSplit(l.Val(), i);
    if i >= 8 {
      SumBound(Words(l), 8);
      DigitBeyond(l.Val(), 8, i);
    }
  }

  /** The four limbs from index i >= 4 on are the product divided by their weight. */
  lemma WideUpper(l: Wide, i: nat)
    requires i >= 4
    ensures Scalar(LimbOrZero(l, i), LimbOrZero(l, i + 1), LimbOrZero(l, i + 2), LimbOrZero(l, i + 3)).Val()
         == l.Val() / Weight(i)
  {
    hide Weight, Digit, Scalar.Val, Wide.Val, LimbOrZero;
    WideDigit(l, i);
    WideDigit(l, i + 1);
    WideDigit(l, i + 2);
    WideDigit(l, i + 3);
    WideDigit(l, i + 4);
    Nested(Scalar(LimbOrZero(l, i), LimbOrZero(l, i + 1), LimbOrZero(l, i + 2), LimbOrZero(l, i + 3)));
  }

  /** Add 2^bit when flag is set; the sum must stay below the order. */
  method CaddBit(a: Scalar, bit: nat, flag: bool) returns (r: Scalar)
    requires bit < 256 && (flag ==> a.Val() + Pow2(bit) < N)
    ensures r.Val() == a.Val() + (if flag then Pow2(bit) else 0)
  {
    hide Pow2, WordShiftLeft, Scalar.Val;
    var i := (if flag then bit else bit + 256) / WIDTH;
    BitPlace(bit);
    M2Below(bit % WIDTH);
    var x := WordShiftLeft(1, bit % WIDTH);
    AddAt(a, i, x);
    var carry;
    r, carry := CarryLimbs(a.d0 + (if i == 0 then x else 0), a.d1 + (if i == 1 then x else 0),
                           a.d2 + (if i == 2 then x else 0), a.d3 + (if i == 3 then x else 0));
  }

  lemma AddAt(a: Scalar, i: nat, x: int)
    ensures (a.d0 + (if i == 0 then x else 0)) + (a.d1 + (if i == 1 then x else 0)) * TWO64
            + (a.d2 + (if i == 2 then x else 0)) * TWO128 + (a.d3 + (if i == 3 then x else 0)) * TWO192
         == a.Val() + x * (if i == 0 then 1 else if i == 1 then TWO64 else if i == 2 then TWO128
                           else if i == 3 then TWO192 else 0)
  {
  }

  lemma M2Below(s: nat)
    requires s < WIDTH
    ensures Pow2(s) < TWO64 && WordShiftLeft(1, s) == Pow2(s)
  {
    PowerMore(s);
    DivModUnique(Pow2(s), 0, Pow2(s), TWO64);
  }

  lemma BitPlace(bit: nat)
    requires bit < 256
    ensures Pow2(bit) == Pow2(bit % WIDTH) * (if bit / WIDTH == 0 then 1 else if bit / WIDTH == 1 then TWO64
                                              else if bit / WIDTH == 2 then TWO128 else TWO192)
  {
    var i := bit / WIDTH;
    WeightIsPow2(i);
    LimbWeights();
    Pow2Add(bit % WIDTH, WIDTH * i);
  }

  /** Rounding to nearest is truncation plus the highest bit cut off. */
  lemma RoundedQuotient(v: nat, shift: nat)
    requires shift > 0
    ensures (v + Pow2(shift - 1)) / Pow2(shift) == v / Pow2(shift) + Bits(v, shift - 1, 1)
  {
    assert Pow2(1) == 2 && Pow2(shift) == 2 * Pow2(shift - 1);
    hide Pow2;
    RoundHalf(v, Pow2(shift - 1));
  }

  lemma RoundHalf(v: int, p: int)
    requires p > 0
    ensures (v + p) / (2 * p) == v / (2 * p) + (v / p) % 2
  {
    var y, s := v / p, v % p;
    RoundParts(v, p, y / 2, y % 2, s);
  }

  lemma RoundParts(v: int, p: int, h: int, d: int, s: int)
    requires v == (2 * h + d) * p + s && 0 <= s < p && 0 <= d < 2
    ensures v / (2 * p) == h && (v + p) / (2 * p) == h + d
  {
    TwiceTimes(h, p);
    var m := 2 * p;
    if d == 1 {
      DivModUnique(v, h, p + s, m);
      DivModUnique(v + p, h + 1, s, m);
    } else {
      DivModUnique(v, h, s, m);
      DivModUnique(v + p, h, p + s, m);
    }
  }

  /** The product of two reduced scalars, cut at 256 bits or more, leaves room for the rounding. */
  lemma RoundedFits(a: nat, b: nat, shift: nat)
    requires a < N && b < N && shift >= 256
    ensures (a * b) / Pow2(shift) + 1 < N
  {
    Pow2Mono(256, shift);
    WeightIsPow2(4);
    LimbWeights();
    MulMono(a, N - 1, b);
    MulMono(b, N - 1, N - 1);
    MulMono(TWO256, Pow2(shift), N - 1);
    WordDivision.QuotientFrom(a * b, Pow2(shift), N - 1);
  }

  /** a * b / 2^shift, rounded to the nearest integer. */
  method MulShiftVar(a: Scalar, b: Scalar, shift: nat) returns (r: Scalar)
    requires a.Reduced() && b.Reduced() && 256 <= shift <= 512
    ensures r.Reduced() && a.Val() * b.Val() + Pow2(shift - 1) >= 0
    ensures r.Val() == (a.Val() * b.Val() + Pow2(shift - 1)) / Pow2(shift)
  {
    hide Pow2, Weight, Digit, Wide.Val, Bits, LimbOrZero, Scalar.Val;
    var l := Mul512(a, b);
    var shiftlimbs, shiftlow := shift / WIDTH, shift % WIDTH;
    r := ShiftLimbs(Scalar(LimbOrZero(l, shiftlimbs), LimbOrZero(l, shiftlimbs + 1),
                           LimbOrZero(l, shiftlimbs + 2), LimbOrZero(l, shiftlimbs + 3)), shiftlow);
    WideUpper(l, shiftlimbs);
    DivideFactor(l.Val(), shiftlimbs, shiftlow);
    RoundedQuotient(l.Val(), shift);
    RoundedFits(a.Val(), b.Val(), shift);
    var i, s := (shift - 1) / WIDTH, (shift - 1) % WIDTH;
    WideDigit(l, i);
    QuotientAtMost(l.Val(), Pow2(0));
    TopBit(l, i, s);
    PowOne(1);
    r := CaddBit(r, 0, WordShiftRight(LimbOrZero(l, i), s) % 2 == 1);
  }

  lemma TopBit(l: Wide, i: nat, s: nat)
    requires s < WIDTH
    ensures Bits(l.Val(), WIDTH * i + s, 1) == WordShiftRight(LimbOrZero(l, i), s) % 2
  {
    hide Weight, Digit, Wide.Val, LimbOrZero;
    WideDigit(l, i);
    QuotientAtMost(l.Val(), Weight(i + 1));
    assert Pow2(1) == 2;
    FieldInLimb(l.Val(), l.Val() / Weight(i + 1), LimbOrZero(l, i), i, s, 1);
  }
}
