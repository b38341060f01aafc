/** The three signed-digit recodings of a scalar. */
module Wnaf {
  import opened Arith
  import opened MachineInts
  import opened Scalars
  import opened ScalarBits
  import Shifts

  /** The digits from index i on, in base b. */
  function Weighted(d: seq<int>, i: nat, b: nat): int
    decreases |d| - i
  {
    if i >= |d| then 0 else d[i] + b * Weighted(d, i + 1, b)
  }

  lemma {:induction false} WeightedSet(d: seq<int>, i: nat, b: nat, k: nat, x: int)
    requires i <= k < |d|
    ensures Weighted(d[k := x], i, b) == Weighted(d, i, b) + (x - d[k]) * Pow(b, k - i)
    decreases k - i
  {
    var e := d[k := x];
    if i == k {
      WeightedCongruent(d, e, i + 1, b);
      assert Pow(b, 0) == 1;
    } else {
      WeightedSet(d, i + 1, b, k, x);
      hide Pow;
      PowStep(b, k - i - 1);
      ScaleDifference(b, Weighted(d, i + 1, b), x - d[k], Pow(b, k - i - 1));
    }
  }

  lemma WeightedShift(d: seq<int>, b: nat, k: nat, delta: int)
    requires k < |d|
    ensures Weighted(d[k := d[k] + delta], 0, b) == Weighted(d, 0, b) + delta * Pow(b, k)
  {
    hide Weighted, Pow;
    WeightedSet(d, 0, b, k, d[k] + delta);
    assert d[k] + delta - d[k] == delta;
  }

  lemma ScaleDifference(b: int, y: int, x: int, p: int)
    ensures b * (y + x * p) == b * y + x * (b * p)
  {
  }

  lemma {:induction false} WeightedCongruent(d: seq<int>, e: seq<int>, i: nat, b: nat)
    requires |d| == |e| && forall j :: i <= j < |d| ==> d[j] == e[j]
    ensures Weighted(d, i, b) == Weighted(e, i, b)
    decreases |d| - i
  {
    if i < |d| { WeightedCongruent(d, e, i + 1, b); }
  }

  lemma {:induction false} WeightedZeros(d: seq<int>, i: nat, b: nat)
    requires forall j :: i <= j < |d| ==> d[j] == 0
    ensures Weighted(d, i, b) == 0
    decreases |d| - i
  {
    if i < |d| { WeightedZeros(d, i + 1, b); }
  }

  lemma {:induction false} WeightedAppend(d: seq<int>, i: nat, b: nat, x: int)
    requires i <= |d|
    ensures Weighted(d + [x], i, b) == Weighted(d, i, b) + x * Pow(b, |d| - i)
    decreases |d| - i
  {
    if i == |d| {
      assert Weighted(d + [x], i + 1, b) == 0;
      assert Pow(b, 0) == 1;
    } else {
      WeightedAppend(d, i + 1, b, x);
      hide Pow;
      PowStep(b, |d| - i - 1);
      ScaleDifference(b, Weighted(d, i + 1, b), x, Pow(b, |d| - i - 1));
      assert (d + [x])[i] == d[i];
    }
  }

  lemma {:induction false} PowOfTwo(n: nat, k: nat)
    ensures Pow(Pow2(n), k) == Pow2(n * k)
  {
    if k > 0 {
      PowOfTwo(n, k - 1);
      Pow2Add(n, n * (k - 1));
      assert n + n * (k - 1) == n * k;
    }
  }

  /** Peeling `count` bits off at position `bit`. */
  lemma BitsNext(v: nat, bit: nat, count: nat)
    ensures v % Pow2(bit + count) == v % Pow2(bit) + Bits(v, bit, count) * Pow2(bit)
  {
    Pow2Add(bit, count);
    hide Pow2;
    FieldAlgebra(v, Pow2(bit), Pow2(count));
  }

  lemma FieldAlgebra(v: int, p: int, q: int)
    requires p > 0 && q > 0
    ensures p * q > 0 && v % (p * q) == v % p + ((v / p) % q) * p
  {
    var y, s := v / p, v % p;
    var h, d := y / q, y % q;
    assert v == y * p + s && y == h * q + d;
    assert (h * q + d) * p == h * (p * q) + d * p;
    MulMono(d, q - 1, p);
    MulMono(0, d, p);
    assert (q - 1) * p == p * q - p;
    DivModUnique(v, h, d * p + s, p * q);
  }

  // ----- sliding windows -----

  /** Below `bit`: the digits so far and the carry stand for the low bits of s. */
  ghost predicate WnafLoop(d: seq<int>, s: nat, sign: int, bit: nat, carry: int)
  {
    && (sign == 1 || sign == -1) && (carry == 0 || carry == 1)
    && Weighted(d, 0, 2) == sign * (s % Pow2(bit) - carry * Pow2(bit))
    && (carry == 1 ==> 2 * (s % Pow2(bit)) > Pow2(bit))
  }

  /** Digits are zero or odd and small, and non-zero ones are at least w apart. */
  ghost predicate WnafDigits(d: seq<int>, w: nat)
    requires w > 0
  {
    && (forall i :: 0 <= i < |d| && d[i] != 0 ==> d[i] % 2 == 1 && Abs(d[i]) < Pow2(w - 1))
    && (forall i, j :: 0 <= i < j < |d| && d[i] != 0 && d[j] != 0 ==> i + w <= j)
  }

  lemma WnafDigitsMeans(d: seq<int>, w: nat)
    requires w > 0
    ensures WnafDigits(d, w) <==>
              forall i :: 0 <= i < |d| && d[i] != 0 ==>
                d[i] % 2 == 1 && 0 - Pow2(w - 1) < d[i] < Pow2(w - 1) && forall j :: i < j < |d| && j < i + w ==> d[j] == 0
  {
    hide Pow2;
  }

  /** What the digits stand for after all `bit` bits of s. */
  lemma WnafLoopMeans(d: seq<int>, s: nat, sign: int, bit: nat, carry: int)
    requires WnafLoop(d, s, sign, bit, carry)
    ensures (sign == 1 || sign == -1) && (carry == 0 || carry == 1)
    ensures Weighted(d, 0, 2) == sign * (s % Pow2(bit) - carry * Pow2(bit))
    ensures carry == 1 ==> 2 * (s % Pow2(bit)) > Pow2(bit)
  {
    hide Weighted, Pow2;
  }

  lemma WnafStart(d: seq<int>, s: nat, sign: int)
    requires (sign == 1 || sign == -1) && forall i :: 0 <= i < |d| ==> d[i] == 0
    ensures WnafLoop(d, s, sign, 0, 0)
  {
    WeightedZeros(d, 0, 2);
    assert Pow2(0) == 1;
  }

  lemma WnafSkip(d: seq<int>, s: nat, sign: int, bit: nat, carry: int)
    requires WnafLoop(d, s, sign, bit, carry) && Bits(s, bit, 1) == carry
    ensures WnafLoop(d, s, sign, bit + 1, carry)
  {
    BitsNext(s, bit, 1);
    assert Pow2(bit + 1) == 2 * Pow2(bit);
  }

  /** A window: its odd value, less 2^w when it is in the upper half. */
  lemma WnafWindow(d: seq<int>, s: nat, sign: int, bit: nat, carry: int, now: nat, w: nat, word: int, carry': int)
    requires WnafLoop(d, s, sign, bit, carry) && bit < |d| && d[bit] == 0
    requires 1 <= now <= w && 2 <= w && Bits(s, bit, 1) != carry
    requires word == Bits(s, bit, now) + carry && carry' == (if word >= Pow2(w - 1) then 1 else 0)
    ensures 0 < word < Pow2(now) && word % 2 == 1
    ensures carry' == 1 ==> now == w
    ensures 2 * s >= Pow2(bit)
    ensures word - carry' * Pow2(w) != 0 && (word - carry' * Pow2(w)) % 2 == 1
    ensures Abs(word - carry' * Pow2(w)) < Pow2(w - 1)
    ensures WnafLoop(d[bit := sign * (word - carry' * Pow2(w))], s, sign, bit + now, carry')
  {
    WindowOpens(s, bit, carry);
    WindowParity(s, bit, now, carry);
    WindowRange(word, carry, carry', now, w);
    hide Bits, Abs;
    WindowLoop(d, s, sign, bit, carry, now, w, word, carry');
  }

  /** A window opens at a set bit, or above the upper half of the window before it. */
  lemma WindowOpens(s: nat, bit: nat, carry: int)
    requires (carry == 0 || carry == 1) && (carry == 1 ==> 2 * (s % Pow2(bit)) > Pow2(bit)) && Bits(s, bit, 1) != carry
    ensures 2 * s >= Pow2(bit)
  {
    var p := Pow2(bit);
    assert Pow2(1) == 2;
    hide Pow2;
    QuotientCases(s, p);
  }

  lemma QuotientCases(s: nat, p: nat)
    requires p > 0
    ensures s % p <= s && (s < p ==> s / p == 0)
  {
    if s < p { DivModUnique(s, 0, s, p); }
  }

  lemma WindowLoop(d: seq<int>, s: nat, sign: int, bit: nat, carry: int, now: nat, w: nat, word: int, carry': int)
    requires WnafLoop(d, s, sign, bit, carry) && bit < |d| && d[bit] == 0 && 2 <= w && (carry' == 0 || carry' == 1)
    requires word == Bits(s, bit, now) + carry && (carry' == 1 ==> now == w && word > Pow2(w - 1))
    ensures WnafLoop(d[bit := sign * (word - carry' * Pow2(w))], s, sign, bit + now, carry')
  {
    var digit := word - carry' * Pow2(w);
    WeightedSet(d, 0, 2, bit, sign * digit);
    PowOfTwo(1, bit);
    assert Pow2(1) == 2;
    BitsNext(s, bit, now);
    Pow2Add(bit, now);
    HalfPower(w);
    hide Pow2, Weighted, Bits;
    WindowAlgebra(sign, s % Pow2(bit), carry, carry', word, Pow2(bit), Pow2(now), Pow2(w), Pow2(w - 1));
  }

  lemma TwiceEven(x: int)
    ensures (2 * x) % 2 == 0
  {
    DivModUnique(2 * x, x, 0, 2);
  }

  lemma HalfPower(w: nat)
    requires w >= 2
    ensures Pow2(w) == 2 * Pow2(w - 1) && Pow2(w - 1) % 2 == 0
  {
    EvenPower(w - 1);
  }

  lemma WindowParity(s: nat, bit: nat, now: nat, carry: int)
    requires now >= 1 && (carry == 0 || carry == 1) && Bits(s, bit, 1) != carry
    ensures 0 <= Bits(s, bit, now) < Pow2(now) && (Bits(s, bit, now) + carry) % 2 == 1
  {
    var y := s / Pow2(bit);
    ModTwice(y, Pow2(now));
    CongPow2(y % Pow2(now), y, now, 1);
    assert Pow2(1) == 2;
  }

  lemma WindowRange(word: int, carry: int, carry': int, now: nat, w: nat)
    requires 1 <= now <= w && 2 <= w && (carry == 0 || carry == 1) && word % 2 == 1
    requires 0 <= word - carry < Pow2(now)
    requires carry' == (if word >= Pow2(w - 1) then 1 else 0)
    ensures 0 < word < Pow2(now)
    ensures carry' == 1 ==> now == w && word > Pow2(w - 1)
    ensures word - carry' * Pow2(w) != 0 && (word - carry' * Pow2(w)) % 2 == 1
    ensures Abs(word - carry' * Pow2(w)) < Pow2(w - 1)
  {
    HalfPower(w);
    assert Pow2(now) == 2 * Pow2(now - 1);
    if now < w { Pow2Mono(now, w - 1); }
    hide Pow2;
    OddBelow(word, Pow2(now));
    if carry' == 1 { OddBelow(Pow2(w - 1), word); OddMinusEven(word, Pow2(w)); }
  }

  lemma OddBelow(x: int, y: int)
    requires x <= y && x % 2 != y % 2
    ensures x < y
  {
  }

  lemma OddMinusEven(x: int, y: int)
    requires x % 2 == 1 && y % 2 == 0
    ensures (x - y) % 2 == 1 && (x + y) % 2 == 1
  {
  }

  lemma WindowAlgebra(sign: int, m: int, c: int, c': int, word: int, p: int, q: int, wp: int, half: int)
    requires sign == 1 || sign == -1
    requires (c == 0 || c == 1) && (c' == 0 || c' == 1) && (c' == 1 ==> q == wp && word > half)
    requires p > 0 && wp == 2 * half && 0 <= m && (c == 1 ==> 2 * m > p)
    ensures sign * (m - c * p) + (sign * (word - c' * wp)) * p == sign * (m + (word - c) * p - c' * (p * q))
    ensures c' == 1 ==> 2 * (m + (word - c) * p) > p * q
  {
    WindowSum(m, c, c', word, p, wp);
    if c' == 1 {
      WindowHigh(m, c, word, p, half);
    } else {
      assert c' * wp == 0 && c' * (p * q) == 0 && c' * (p * wp) == 0;
    }
    SignSum(sign, m - c * p, word - c' * wp, p);
  }

  lemma WindowSum(m: int, c: int, c': int, word: int, p: int, wp: int)
    ensures (m - c * p) + (word - c' * wp) * p == m + (word - c) * p - c' * (p * wp)
  {
    assert (word - c' * wp) * p == word * p - c' * (p * wp);
    assert (word - c) * p == word * p - c * p;
  }

  lemma SignSum(sign: int, x: int, y: int, p: int)
    ensures sign * x + (sign * y) * p == sign * (x + y * p)
  {
  }

  lemma WindowHigh(m: int, c: int, word: int, p: int, half: int)
    requires (c == 0 || c == 1) && word > half && p > 0 && 0 <= m && (c == 1 ==> 2 * m > p)
    ensures 2 * (m + (word - c) * p) > p * (2 * half)
  {
    assert (word - c) * p == word * p - c * p;
    MulMono(half + 1, word, p);
    assert (half + 1) * p == half * p + p;
    assert p * (2 * half) == 2 * (half * p);
  }

  /** Non-zero digits written so far keep their distance from what is to come. */
  ghost predicate Spaced(d: seq<int>, bit: nat, w: nat, len: nat)
  {
    forall i :: 0 <= i < |d| && d[i] != 0 ==> i < bit && (i + w <= bit || bit >= len)
  }

  lemma DigitWritten(d: seq<int>, bit: nat, w: nat, now: nat, x: int)
    requires w > 0 && WnafDigits(d, w) && Spaced(d, bit, w, |d|) && bit < |d|
    requires x % 2 == 1 && Abs(x) < Pow2(w - 1) && (now == w || now == |d| - bit) && now > 0
    ensures WnafDigits(d[bit := x], w) && Spaced(d[bit := x], bit + now, w, |d|)
  {
    hide Pow2;
    var e := d[bit := x];
    forall i, j | 0 <= i < j < |e| && e[i] != 0 && e[j] != 0 ensures i + w <= j {
      if j == bit { assert d[i] != 0; } else { assert d[j] != 0; assert i != bit; }
    }
  }

  /** The magnitude fits in `len` bits with the sign bit to spare. */
  lemma WnafEnd(d: seq<int>, s: nat, sign: int, len: nat, carry: int)
    requires WnafLoop(d, s, sign, len, carry) && 2 * s <= Pow2(len)
    ensures carry == 0 && Weighted(d, 0, 2) == sign * s
  {
    DivModUnique(s, 0, s, Pow2(len));
  }

  /** Window recoding of a scalar (its negation when that is shorter) into `len` digits. The
      digits always stand for the low `len` bits less the final carry, and for the whole
      number when its magnitude is at most 2^(len-1). */
  method EcmultWnaf(wnaf: array<int>, len: nat, a: Scalar, w: nat) returns (bits: nat, ghost carry: int)
    requires wnaf.Length == len <= 256 && 2 <= w <= 31 && a.Reduced()
    modifies wnaf
    ensures WnafDigits(wnaf[..], w)
    ensures bits <= len && forall i :: bits <= i < len ==> wnaf[i] == 0
    ensures bits > 0 ==> wnaf[bits - 1] != 0
    ensures forall length: nat :: Magnitude(a.Val()) < Pow2(length) ==> bits <= length + 1
    ensures WnafLoop(wnaf[..], Magnitude(a.Val()), if a.Val() >= TWO255 then -1 else 1, len, carry)
    ensures 2 * Magnitude(a.Val()) <= Pow2(len) ==> Weighted(wnaf[..], 0, 2) == Short(a.Val())
  {
    hide WnafLoop, WnafDigits, Spaced, Pow2, Weighted, Bits, Scalar.Val, GetBits;
    forall i | 0 <= i < len { wnaf[i] := 0; }
    var sign := 1;
    var s := a;
    TopBit(a.Val());
    if GetBits(a, 255, 1) == 1 {
      s := Negate(a);
      sign := -1;
    }
    ghost var sv := s.Val();
    NoDigits(wnaf[..], w, len);
    WnafStart(wnaf[..], sv, sign);
    var lastSetBit;
    lastSetBit, carry := Recode(wnaf, s, sign, w);
    bits := lastSetBit + 1;
    DigitsBound(sv, lastSetBit);
    if 2 * sv <= Pow2(len) { WnafEnd(wnaf[..], sv, sign, len, carry); }
  }

  /** The windows from the lowest bit up, skipping bits that equal the carry. */
  method Recode(wnaf: array<int>, s: Scalar, sign: int, w: nat) returns (lastSetBit: int, ghost carry: int)
    requires wnaf.Length <= 256 && 2 <= w <= 31 && forall i :: 0 <= i < wnaf.Length ==> wnaf[i] == 0
    requires WnafLoop(wnaf[..], s.Val(), sign, 0, 0) && WnafDigits(wnaf[..], w) && Spaced(wnaf[..], 0, w, wnaf.Length)
    modifies wnaf
    ensures WnafLoop(wnaf[..], s.Val(), sign, wnaf.Length, carry) && WnafDigits(wnaf[..], w)
    ensures -1 <= lastSetBit < wnaf.Length && forall i :: lastSetBit < i < wnaf.Length ==> wnaf[i] == 0
    ensures lastSetBit >= 0 ==> wnaf[lastSetBit] != 0 && 2 * s.Val() >= Pow2(lastSetBit)
  {
    hide WnafLoop, WnafDigits, Spaced, Pow2, Bits, Scalar.Val, GetBits;
    ghost var sv := s.Val();
    lastSetBit := -1;
    var bit, carryBit := 0, 0;
    while bit < wnaf.Length
      invariant 0 <= bit <= wnaf.Length && -1 <= lastSetBit < bit
      invariant (carryBit == 0 || carryBit == 1) && WnafLoop(wnaf[..], sv, sign, bit, carryBit)
      invariant WnafDigits(wnaf[..], w) && Spaced(wnaf[..], bit, w, wnaf.Length)
      invariant forall i :: lastSetBit < i < wnaf.Length ==> wnaf[i] == 0
      invariant lastSetBit >= 0 ==> wnaf[lastSetBit] != 0 && 2 * sv >= Pow2(lastSetBit)
    {
      if GetBits(s, bit, 1) == carryBit {
        WnafSkip(wnaf[..], sv, sign, bit, carryBit);
        SpacedSkip(wnaf[..], bit, w, wnaf.Length);
        bit := bit + 1;
      } else {
        var now;
        now, carryBit := Window(wnaf, s, sign, bit, carryBit, w);
        lastSetBit := bit;
        bit := bit + now;
      }
    }
    carry := carryBit;
  }

  /** The digit at `bit`: how many bits it takes in, and what it carries. */
  method Window(wnaf: array<int>, s: Scalar, sign: int, bit: nat, carry: int, w: nat) returns (now: nat, carry': int)
    requires bit < wnaf.Length <= 256 && 2 <= w <= 31 && wnaf[bit] == 0
    requires (carry == 0 || carry == 1) && WnafLoop(wnaf[..], s.Val(), sign, bit, carry) && Bits(s.Val(), bit, 1) != carry
    requires WnafDigits(wnaf[..], w) && Spaced(wnaf[..], bit, w, wnaf.Length)
    modifies wnaf
    ensures 0 < now <= wnaf.Length - bit && (carry' == 0 || carry' == 1)
    ensures WnafLoop(wnaf[..], s.Val(), sign, bit + now, carry')
    ensures WnafDigits(wnaf[..], w) && Spaced(wnaf[..], bit + now, w, wnaf.Length)
    ensures wnaf[bit] != 0 && forall i :: 0 <= i < wnaf.Length && i != bit ==> wnaf[i] == old(wnaf[i])
    ensures 2 * s.Val() >= Pow2(bit)
  {
    hide WnafDigits, Spaced, Pow2, Weighted, Bits, Scalar.Val, Abs;
    ghost var d, sv := wnaf[..], s.Val();
    now := w;
    if now > wnaf.Length - bit { now := wnaf.Length - bit; }
    var word := GetBitsVar(s, bit, now) + carry;
    carry' := (word / Pow2(w - 1)) % 2;
    WordCarry(sv, bit, now, carry, w, word, carry');
    WnafWindow(d, sv, sign, bit, carry, now, w, word, carry');
    hide WnafLoop;
    word := word - carry' * Pow2(w);
    SignedDigit(sign, word, Pow2(w - 1));
    DigitWritten(d, bit, w, now, sign * word);
    wnaf[bit] := sign * word;
    assert wnaf[..] == d[bit := sign * word];
  }

  /** The last digit is at most one place above the bits of the number. */
  lemma DigitsBound(s: nat, last: int)
    requires last >= 0 ==> 2 * s >= Pow2(last)
    ensures forall length: nat :: s < Pow2(length) ==> last <= length
  {
    forall length: nat | s < Pow2(length) ensures last <= length {
      if last > length { Pow2Mono(length + 1, last); }
    }
  }

  const TWO255 := TWO256 / 2

  /** The value of a scalar closest to zero by its top bit, and its magnitude. */
  function Short(a: nat): int { if a >= TWO255 then a - N else a }

  function Magnitude(a: nat): nat
    requires a < N
  {
    if a >= TWO255 then N - a else a
  }

  lemma ShortMeans(a: nat)
    requires a < N
    ensures Magnitude(a) == Abs(Short(a))
    ensures Short(a) == a <==> a < 0x80000000_00000000_00000000_00000000_00000000_00000000_00000000_00000000
    ensures Short(a) == a || Short(a) == a - N
  {
  }

  lemma TopBit(a: nat)
    requires a < N
    ensures Bits(a, 255, 1) == (if a >= TWO255 then 1 else 0)
  {
    assert Pow2(255) == TWO255 by { TopPower(); }
    assert Pow2(1) == 2;
    if a >= TWO255 { DivModUnique(a, 1, a - TWO255, TWO255); } else { DivModUnique(a, 0, a, TWO255); }
  }

  lemma TopPower()
    ensures Pow2(255) == TWO255
  {
    Shifts.WeightIsPow2(4);
    LimbWeights();
    assert Pow2(256) == 2 * Pow2(255);
  }

  lemma NoDigits(d: seq<int>, w: nat, len: nat)
    requires w > 0 && forall i :: 0 <= i < |d| ==> d[i] == 0
    ensures WnafDigits(d, w) && Spaced(d, 0, w, len)
  {
  }

  lemma SpacedSkip(d: seq<int>, bit: nat, w: nat, len: nat)
    requires Spaced(d, bit, w, len)
    ensures Spaced(d, bit + 1, w, len)
  {
  }

  /** `(word >> (w-1)) & 1` on a word of at most w bits. */
  lemma WordCarry(s: nat, bit: nat, now: nat, carry: int, w: nat, word: int, c: int)
    requires 1 <= now <= w && 2 <= w && (carry == 0 || carry == 1) && Bits(s, bit, 1) != carry
    requires word == Bits(s, bit, now) + carry && c == (word / Pow2(w - 1)) % 2
    ensures c == (if word >= Pow2(w - 1) then 1 else 0)
  {
    WindowParity(s, bit, now, carry);
    WindowRange(word, carry, if word >= Pow2(w - 1) then 1 else 0, now, w);
    HalfPower(w);
    Pow2Mono(now, w);
    if word >= Pow2(w - 1) {
      DivModUnique(word, 1, word - Pow2(w - 1), Pow2(w - 1));
    } else {
      DivModUnique(word, 0, word, Pow2(w - 1));
    }
  }

  lemma SignedDigit(sign: int, word: int, half: int)
    requires (sign == 1 || sign == -1) && word % 2 == 1 && word != 0 && Abs(word) < half
    ensures (sign * word) % 2 == 1 && sign * word != 0 && Abs(sign * word) < half
  {
    MulCommutes(sign, word);
    SignedOdd(word, sign, half);
  }

  // ----- fixed windows -----

  const WNAF_BITS: nat := 128

  /** Number of w-bit windows in `bits` bits. */
  function WnafSizeBits(bits: nat, w: nat): (n: nat)
    requires w > 0
    ensures w * n >= bits && (n > 0 ==> w * (n - 1) < bits)
  {
    WindowCount(bits, w);
    (bits + w - 1) / w
  }

  lemma WindowCount(bits: nat, w: nat)
    requires w > 0
    ensures var n := (bits + w - 1) / w; n >= 0 && w * n >= bits && (n > 0 ==> w * (n - 1) < bits)
  {
    var n, r := (bits + w - 1) / w, (bits + w - 1) % w;
    assert bits + w - 1 == n * w + r;
    assert w * (n - 1) == n * w - w && w * n == n * w;
    if n < 0 { MulMono(n, -1, w); }
  }

  /** Where window k starts; the last one ends at 128 even when w does not divide that. */
  function WindowStart(k: nat, w: nat): nat
    requires w > 0
  {
    if k >= WnafSizeBits(WNAF_BITS, w) then WNAF_BITS else w * k
  }

  /** The width of window k. */
  function WindowWidth(k: nat, w: nat): (n: int)
    requires w > 0
  {
    if k == WnafSizeBits(WNAF_BITS, w) - 1 then WNAF_BITS - (WnafSizeBits(WNAF_BITS, w) - 1) * w else w
  }

  lemma Windows(k: nat, w: nat)
    requires 0 < w < 32 && k < WnafSizeBits(WNAF_BITS, w)
    ensures 1 <= WindowWidth(k, w) <= w
    ensures WindowStart(k, w) == w * k && WindowStart(k + 1, w) == w * k + WindowWidth(k, w) <= WNAF_BITS
    ensures k == 0 ==> WindowWidth(k, w) == w
  {
    var n := WnafSizeBits(WNAF_BITS, w);
    hide WnafSizeBits;
    Multiples(k, w);
    Multiples(n - 1, w);
    if k + 1 < n { MulMono(k + 1, n - 1, w); }
    if n <= 1 { MulMono(n, 1, w); }
  }

  lemma Multiples(k: int, w: int)
    ensures w * k == k * w && w * (k + 1) == w * k + w && (k + 1) * w == k * w + w
  {
  }

  /** Every digit is zero or odd and below b in magnitude. */
  ghost predicate FixedDigits(d: seq<int>, b: nat)
  {
    forall i :: 0 <= i < |d| ==> d[i] == 0 || (d[i] % 2 == 1 && Abs(d[i]) < b)
  }

  lemma FixedDigitsMeans(d: seq<int>, b: nat)
    ensures FixedDigits(d, b) <==> forall i :: 0 <= i < |d| && d[i] != 0 ==> d[i] % 2 == 1 && 0 - b < d[i] < b
  {
  }

  /** The first |d| windows are done: their digits stand for the bits below and the skew, and the
      last digit is odd and positive. */
  ghost predicate FixedLoop(d: seq<int>, s: nat, skew: int, w: nat)
    requires w > 0
  {
    && |d| > 0 && FixedDigits(d, Pow2(w))
    && d[|d| - 1] % 2 == 1 && 0 < d[|d| - 1] < Pow2(w)
    && Weighted(d, 0, Pow2(w)) == s % Pow2(WindowStart(|d|, w)) + skew
  }

  lemma FixedStart(s: nat, skew: int, w: nat, d0: int)
    requires 0 < w < 32 && skew == (if s % 2 == 0 then 1 else 0) && d0 == Bits(s, 0, w) + skew
    ensures FixedLoop([d0], s, skew, w)
  {
    Windows(0, w);
    assert w * 0 == 0 && w * 1 == w;
    LowWindow(s, w, d0, skew);
    SingleDigit(d0, Pow2(w));
    hide Pow2, Weighted, WindowStart, WindowWidth;
    assert |[d0]| == 1;
  }

  lemma LowWindow(s: nat, w: nat, d0: int, skew: int)
    requires 0 < w && skew == (if s % 2 == 0 then 1 else 0) && d0 == Bits(s, 0, w) + skew
    ensures d0 == s % Pow2(w) + skew && d0 % 2 == 1 && 0 < d0 < Pow2(w)
  {
    hide Pow2, Bits;
    LowBits(s, w);
    EvenPower(w);
    OddRoundedUp(s % Pow2(w), Pow2(w), skew);
  }

  lemma OddRoundedUp(x: int, b: int, skew: int)
    requires 0 <= x < b && b % 2 == 0 && skew == (if x % 2 == 0 then 1 else 0)
    ensures (x + skew) % 2 == 1 && 0 < x + skew < b
  {
  }

  lemma LowBits(s: nat, w: nat)
    requires w > 0
    ensures Bits(s, 0, w) == s % Pow2(w) && (s % Pow2(w)) % 2 == s % 2
  {
    assert Pow2(0) == 1 && Pow2(1) == 2;
    assert s / 1 == s;
    ModTwice(s, Pow2(w));
    CongPow2(s % Pow2(w), s, w, 1);
  }

  lemma SingleDigit(d0: int, b: nat)
    ensures Weighted([d0], 0, b) == d0
  {
    assert Weighted([d0], 1, b) == 0;
  }

  /** The next window: an even value borrows 2^w from the digit below. */
  function NextWindow(d: seq<int>, val: int, b: int): seq<int>
    requires |d| > 0
  {
    if val % 2 == 0 then Borrowed(d, b) + [val + 1] else d + [val]
  }

  /** The digits with b taken from the last one. */
  function Borrowed(d: seq<int>, b: int): (e: seq<int>)
    requires |d| > 0
    ensures |e| == |d|
  {
    d[|d| - 1 := d[|d| - 1] + (0 - b)]
  }

  lemma BorrowValue(d: seq<int>, b: nat)
    requires |d| > 0
    ensures Weighted(Borrowed(d, b), 0, b) == Weighted(d, 0, b) - Pow(b, |d|)
  {
    hide Weighted, Pow;
    var k := |d| - 1;
    PowStep(b, k);
    WeightedShift(d, b, k, 0 - b);
    NegativeTimes(b, Pow(b, k));
  }

  lemma NegativeTimes(b: int, p: int)
    ensures (0 - b) * p == 0 - b * p
  {
  }

  lemma FixedNext(d: seq<int>, s: nat, skew: int, w: nat, val: int)
    requires 0 < w < 32 && FixedLoop(d, s, skew, w) && |d| < WnafSizeBits(WNAF_BITS, w)
    requires val == Bits(s, w * |d|, WindowWidth(|d|, w))
    ensures FixedLoop(NextWindow(d, val, Pow2(w)), s, skew, w)
    ensures var e := NextWindow(d, val, Pow2(w)); |e| >= 2 && e[|e| - 2] % 2 == 1 && Abs(e[|e| - 2]) < Pow2(w)
  {
    var k, b := |d|, Pow2(w);
    Windows(k, w);
    BitsNext(s, w * k, WindowWidth(k, w));
    ValueRange(s, w * k, WindowWidth(k, w), w);
    PowOfTwo(w, k);
    NextValue(d, val, b);
    EvenPower(w);
    hide Pow2, Bits, WindowStart, Weighted, Pow, WindowWidth, NextWindow, FixedDigits, WnafSizeBits;
    NextDigits(d, val, b);
  }

  lemma NextDigits(d: seq<int>, val: int, b: nat)
    requires |d| > 0 && FixedDigits(d, b) && d[|d| - 1] % 2 == 1 && 0 < d[|d| - 1] < b && b % 2 == 0 && 0 <= val < b
    ensures var e := NextWindow(d, val, b);
      && |e| == |d| + 1 && FixedDigits(e, b) && e[|e| - 1] % 2 == 1 && 0 < e[|e| - 1] < b
      && e[|e| - 2] % 2 == 1 && Abs(e[|e| - 2]) < b
  {
    OddMinusEven(d[|d| - 1], b);
    if val % 2 == 0 { OddBelow(val + 1, b); }
  }

  lemma NextValue(d: seq<int>, val: int, b: nat)
    requires |d| > 0
    ensures Weighted(NextWindow(d, val, b), 0, b) == Weighted(d, 0, b) + val * Pow(b, |d|)
  {
    hide Weighted, Pow, Borrowed;
    if val % 2 == 0 {
      BorrowValue(d, b);
      WeightedAppend(Borrowed(d, b), 0, b, val + 1);
      assert (val + 1) * Pow(b, |d|) == val * Pow(b, |d|) + Pow(b, |d|);
    } else {
      WeightedAppend(d, 0, b, val);
    }
  }

  lemma ValueRange(s: nat, offset: nat, width: nat, w: nat)
    requires width <= w
    ensures 0 <= Bits(s, offset, width) < Pow2(w)
  {
    Pow2Mono(width, w);
  }

  /** A digit 1 after a negative one (or -1 after a positive one) is folded into it. */
  function FoldUnit(d: seq<int>, b: int): seq<int>
    requires |d| >= 3
  {
    var k := |d| - 1;
    if d[k - 1] == 1 && d[k - 2] < 0 then MoveUnit(d, k, b, 1)
    else if d[k - 1] == -1 && d[k - 2] > 0 then MoveUnit(d, k, b, -1)
    else d
  }

  /** Digit k-1 becomes zero and digit k-2 takes over its unit. */
  function MoveUnit(d: seq<int>, k: nat, b: int, unit: int): seq<int>
    requires 2 <= k < |d|
  {
    var e := d[k - 2 := d[k - 2] + unit * b];
    e[k - 1 := e[k - 1] + (0 - unit)]
  }

  lemma FixedFold(d: seq<int>, s: nat, skew: int, w: nat)
    requires 0 < w < 32 && FixedLoop(d, s, skew, w) && |d| >= 3
    ensures FixedLoop(FoldUnit(d, Pow2(w)), s, skew, w)
  {
    hide Pow2, Weighted, WindowStart, FoldUnit, FixedDigits, WnafSizeBits;
    EvenPower(w);
    FoldValue(d, Pow2(w));
    FoldDigits(d, Pow2(w));
  }

  lemma EvenPower(w: nat)
    requires w > 0
    ensures Pow2(w) % 2 == 0
  {
    var p := Pow2(w - 1);
    assert Pow2(w) == 2 * p;
    hide Pow2;
    TwiceEven(p);
  }

  lemma FoldDigits(d: seq<int>, b: nat)
    requires |d| >= 3 && FixedDigits(d, b) && b % 2 == 0 && d[|d| - 1] % 2 == 1 && 0 < d[|d| - 1] < b
    ensures var e := FoldUnit(d, b); |e| == |d| && FixedDigits(e, b) && e[|e| - 1] == d[|d| - 1]
  {
    var k := |d| - 1;
    if d[k - 2] != 0 {
      OddMinusEven(d[k - 2], b);
    }
  }

  lemma FoldValue(d: seq<int>, b: nat)
    requires |d| >= 3
    ensures Weighted(FoldUnit(d, b), 0, b) == Weighted(d, 0, b)
  {
    var k := |d| - 1;
    UnitValue(d, k, b, 1);
    UnitValue(d, k, b, -1);
  }

  lemma UnitValue(d: seq<int>, k: nat, b: nat, unit: int)
    requires 2 <= k < |d|
    ensures Weighted(MoveUnit(d, k, b, unit), 0, b) == Weighted(d, 0, b)
  {
    hide Weighted, Pow;
    WeightedShift(d, b, k - 2, unit * b);
    WeightedShift(d[k - 2 := d[k - 2] + unit * b], b, k - 1, 0 - unit);
    PowStep(b, k - 2);
    UnitAlgebra(unit, b, Pow(b, k - 2));
  }

  lemma UnitAlgebra(unit: int, b: int, p: int)
    ensures unit * b * p + (0 - unit) * (b * p) == 0
  {
  }

  lemma FixedFinish(d: seq<int>, s: nat, skew: int, w: nat, rest: nat)
    requires w > 0 && FixedLoop(d, s, skew, w) && |d| + rest == WnafSizeBits(WNAF_BITS, w)
    requires s % Pow2(WindowStart(|d|, w)) == s % Pow2(WNAF_BITS)
    ensures var z := d + seq(rest, _ => 0);
      FixedDigits(z, Pow2(w)) && Weighted(z, 0, Pow2(w)) == s % Pow2(WNAF_BITS) + skew
  {
    AppendZeros(d, 0, Pow2(w), rest);
  }

  lemma {:induction false} AppendZeros(d: seq<int>, i: nat, b: nat, rest: nat)
    ensures Weighted(d + seq(rest, _ => 0), i, b) == Weighted(d, i, b)
    decreases |d| - i
  {
    var z := d + seq(rest, _ => 0);
    if i < |d| {
      AppendZeros(d, i + 1, b, rest);
    } else {
      WeightedZeros(z, i, b);
    }
  }

  /** Recoding of the low 128 bits of a scalar into one digit per window, less the skew. */
  method WnafFixed(wnaf: array<int>, s: Scalar, w: nat) returns (skew: int)
    requires 0 < w < 31 && wnaf.Length == WnafSizeBits(WNAF_BITS, w)
    modifies wnaf
    ensures skew == 0 || skew == 1
    ensures FixedDigits(wnaf[..], Pow2(w))
    ensures Weighted(wnaf[..], 0, Pow2(w)) - skew == s.Val() % Pow2(WNAF_BITS)
  {
    hide FixedDigits, FixedLoop, Pow2, Weighted, Bits, Scalar.Val, NextWindow, FoldUnit, WnafSizeBits, WindowStart, WindowWidth;
    Windows(0, w);
    var size := WnafSizeBits(WNAF_BITS, w);
    ghost var sv := s.Val();
    if IsZero(s) {
      forall i | 0 <= i < size { wnaf[i] := 0; }
      ZeroRecoding(wnaf[..], w);
      return 0;
    }
    skew := if IsEven(s) then 1 else 0;
    wnaf[0] := GetBitsVar(s, 0, w) + skew;
    FixedStart(sv, skew, w, wnaf[0]);
    var pos := size - 1;
    WholeRange(sv, size, w);
    while pos > 0
      invariant 0 <= pos < size
      invariant sv % Pow2(WindowStart(pos + 1, w)) == sv % Pow2(WNAF_BITS)
      invariant wnaf[0] == Bits(sv, 0, w) + skew
      invariant forall i :: pos < i < size ==> wnaf[i] == 0
    {
      Windows(pos, w);
      var val := GetBitsVar(s, pos * w, WindowWidth(pos, w));
      if val != 0 { break; }
      EmptyWindow(sv, pos, w);
      wnaf[pos] := 0;
      pos := pos - 1;
    }
    var maxPos := pos;
    pos := 1;
    assert wnaf[..1] == [wnaf[0]];
    while pos <= maxPos
      invariant 1 <= pos <= maxPos + 1
      invariant FixedLoop(wnaf[..pos], sv, skew, w)
      invariant forall i :: maxPos < i < size ==> wnaf[i] == 0
    {
      Windows(pos, w);
      var val := GetBitsVar(s, pos * w, WindowWidth(pos, w));
      FixedStep(wnaf, pos, val, w, sv, skew);
      pos := pos + 1;
    }
    FixedFinish(wnaf[..pos], sv, skew, w, size - pos);
    assert wnaf[..] == wnaf[..pos] + seq(size - pos, _ => 0);
  }

  /** One round of the loop of `WnafFixed`. */
  method FixedStep(wnaf: array<int>, pos: nat, val: int, w: nat, ghost s: nat, ghost skew: int)
    requires 0 < w < 31 && 1 <= pos < wnaf.Length == WnafSizeBits(WNAF_BITS, w)
    requires FixedLoop(wnaf[..pos], s, skew, w) && val == Bits(s, w * pos, WindowWidth(pos, w))
    modifies wnaf
    ensures FixedLoop(wnaf[..pos + 1], s, skew, w)
    ensures forall i :: pos < i < wnaf.Length ==> wnaf[i] == old(wnaf[i])
  {
    hide FixedDigits, FixedLoop, Pow2, Weighted, Bits, WnafSizeBits, WindowStart, WindowWidth;
    ghost var d := wnaf[..pos];
    FixedNext(d, s, skew, w, val);
    if val % 2 == 0 {
      wnaf[pos - 1] := wnaf[pos - 1] - Pow2(w);
      wnaf[pos] := val + 1;
    } else {
      wnaf[pos] := val;
    }
    ghost var e := wnaf[..pos + 1];
    assert e == NextWindow(d, val, Pow2(w));
    if pos >= 2 {
      FixedFold(e, s, skew, w);
      if (wnaf[pos - 1] == 1 && wnaf[pos - 2] < 0) || (wnaf[pos - 1] == -1 && wnaf[pos - 2] > 0) {
        if wnaf[pos - 1] == 1 {
          wnaf[pos - 2] := wnaf[pos - 2] + Pow2(w);
        } else {
          wnaf[pos - 2] := wnaf[pos - 2] - Pow2(w);
        }
        wnaf[pos - 1] := 0;
      }
      assert wnaf[..pos + 1] == FoldUnit(e, Pow2(w));
    }
  }

  lemma ZeroRecoding(d: seq<int>, w: nat)
    requires forall i :: 0 <= i < |d| ==> d[i] == 0
    ensures FixedDigits(d, Pow2(w)) && Weighted(d, 0, Pow2(w)) == 0 == 0 % Pow2(WNAF_BITS)
  {
    WeightedZeros(d, 0, Pow2(w));
    DivModUnique(0, 0, 0, Pow2(WNAF_BITS));
  }

  lemma WholeRange(s: nat, size: nat, w: nat)
    requires 0 < w < 31 && size == WnafSizeBits(WNAF_BITS, w)
    ensures size > 0 && s % Pow2(WindowStart(size, w)) == s % Pow2(WNAF_BITS)
  {
    assert w * 0 == 0;
  }

  lemma EmptyWindow(s: nat, k: nat, w: nat)
    requires 0 < w < 31 && k < WnafSizeBits(WNAF_BITS, w) && Bits(s, w * k, WindowWidth(k, w)) == 0
    ensures s % Pow2(WindowStart(k, w)) == s % Pow2(WindowStart(k + 1, w))
  {
    Windows(k, w);
    BitsNext(s, w * k, WindowWidth(k, w));
  }

  // ----- constant-time windows -----

  /** Every digit is odd, so never zero, and below b in magnitude. */
  ghost predicate OddDigits(d: seq<int>, b: nat)
  {
    forall i :: 0 <= i < |d| ==> d[i] % 2 == 1 && Abs(d[i]) < b
  }

  lemma OddDigitsMeans(d: seq<int>, b: nat)
    ensures OddDigits(d, b) <==> forall i :: 0 <= i < |d| ==> d[i] % 2 == 1 && 0 - b < d[i] < b
  {
  }

  /** s is what remains of s0 above |d|+1 windows; u is the window in hand, odd and positive. */
  ghost predicate ConstLoop(d: seq<int>, s0: nat, s: nat, u: int, sign: int, b: nat)
  {
    && b > 0 && (sign == 1 || sign == -1)
    && OddDigits(d, b) && u % 2 == 1 && 0 < u < b
    && s0 == sign * Weighted(d, 0, b) + u * Pow(b, |d|) + s * Pow(b, |d| + 1)
  }

  lemma ConstStart(s0: nat, sign: int, b: nat)
    requires s0 % 2 == 1 && b > 0 && b % 2 == 0 && (sign == 1 || sign == -1)
    ensures s0 / b >= 0 && ConstLoop([], s0, s0 / b, s0 % b, sign, b)
  {
    var q, u := s0 / b, s0 % b;
    assert s0 == q * b + u;
    var h := b / 2;
    assert b == 2 * h;
    assert q * b == 2 * (q * h);
    assert Pow(b, 0) == 1;
    assert Pow(b, 1) == b * Pow(b, 0);
    if q < 0 { MulMono(q, -1, b); }
  }

  /** u takes a unit of the next window when that is even, and pays with b. */
  lemma ConstNext(d: seq<int>, s0: nat, s: nat, u: int, sign: int, b: nat, x: int)
    requires b % 2 == 0 && ConstLoop(d, s0, s, u, sign, b) && x == s % b
    ensures s / b >= 0
    ensures var even := x % 2 == 0;
      ConstLoop(d + [(if even then u - b else u) * sign], s0, s / b, if even then x + 1 else x, sign, b)
  {
    var q := s / b;
    QuotientStep(s, b, q, x);
    var digit := if x % 2 == 0 then u - b else u;
    var u' := if x % 2 == 0 then x + 1 else x;
    ConstDigit(u, x, b);
    SignedOdd(digit, sign, b);
    WeightedAppend(d, 0, b, digit * sign);
    PowStep(b, |d|);
    PowStep(b, |d| + 1);
    hide Weighted, Pow;
    AppendOdd(d, digit * sign, b);
    hide OddDigits;
    ConstAlgebra(Weighted(d, 0, b), sign, digit, u, u', x, q, b, Pow(b, |d|));
  }

  lemma QuotientStep(s: nat, b: nat, q: int, x: int)
    requires b > 0 && q == s / b && x == s % b
    ensures s == q * b + x && q >= 0
  {
    if q < 0 { MulMono(q, -1, b); }
  }

  lemma ConstDigit(u: int, x: int, b: int)
    requires b % 2 == 0 && u % 2 == 1 && 0 < u < b && 0 <= x < b
    ensures var digit := if x % 2 == 0 then u - b else u; digit % 2 == 1 && Abs(digit) < b
    ensures var u' := if x % 2 == 0 then x + 1 else x; u' % 2 == 1 && 0 < u' < b
  {
    OddMinusEven(u, b);
    if x % 2 == 0 { OddBelow(x + 1, b); }
  }

  lemma AppendOdd(d: seq<int>, x: int, b: nat)
    requires OddDigits(d, b) && x % 2 == 1 && Abs(x) < b
    ensures OddDigits(d + [x], b)
  {
  }

  lemma SignedOdd(x: int, sign: int, b: int)
    requires x % 2 == 1 && Abs(x) < b && (sign == 1 || sign == -1)
    ensures (x * sign) % 2 == 1 && Abs(x * sign) < b
  {
    if sign == -1 {
      assert x * sign == 0 - x;
      CongIntro(0 - x, x, 0 - x, 2);
    }
  }

  lemma ConstAlgebra(v: int, sign: int, digit: int, u: int, u': int, x: int, q: int, b: int, p: int)
    requires sign == 1 || sign == -1
    requires (digit == u && u' == x) || (digit == u - b && u' == x + 1)
    ensures sign * v + u * p + (q * b + x) * (b * p)
         == sign * (v + digit * sign * p) + u' * (b * p) + q * (b * (b * p))
  {
    assert sign * (v + digit * sign * p) == sign * v + digit * p;
    assert (q * b + x) * (b * p) == q * (b * (b * p)) + x * (b * p);
    if digit == u - b { assert (u - b) * p == u * p - b * p; }
  }

  lemma ConstEnd(d: seq<int>, s0: nat, s: nat, u: int, sign: int, b: nat, n: nat)
    requires ConstLoop(d, s0, s, u, sign, b) && s0 < Pow(b, n) && n <= |d| + 1
    ensures s == 0 && OddDigits(d + [u * sign], b)
    ensures Weighted(d + [u * sign], 0, b) == sign * s0
  {
    SignedOdd(u, sign, b);
    AppendOdd(d, u * sign, b);
    hide Weighted, Pow, OddDigits;
    WeightedAppend(d, 0, b, u * sign);
    PrefixBound(d, b);
    PowMono(b, n, |d| + 1);
    PowStep(b, |d|);
    PowPositive(b, |d|);
    TopIsZero(sign * Weighted(d, 0, b), Weighted(d, 0, b), sign, u, s, Pow(b, |d|), b, s0);
    SignBack(sign, Weighted(d, 0, b), u, Pow(b, |d|));
    assert 0 * Pow(b, |d| + 1) == 0;
  }

  lemma SignBack(sign: int, v: int, u: int, p: int)
    requires sign == 1 || sign == -1
    ensures sign * (sign * v + u * p) == v + u * sign * p
  {
  }

  /** Digits below b in magnitude stand for less than b^n. */
  lemma {:induction false} PrefixBound(d: seq<int>, b: nat)
    requires b > 0 && OddDigits(d, b)
    ensures Abs(Weighted(d, 0, b)) < Pow(b, |d|)
  {
    if d == [] {
      assert Pow(b, 0) == 1;
    } else {
      var n := |d| - 1;
      var e := d[..n];
      PrefixBound(e, b);
      WeightedAppend(e, 0, b, d[n]);
      assert d == e + [d[n]];
      PowStep(b, n);
      hide Weighted, Pow;
      BoundStep(Weighted(e, 0, b), d[n], b, Pow(b, n));
    }
  }

  lemma BoundStep(v: int, x: int, b: int, p: int)
    requires Abs(v) < p && Abs(x) < b
    ensures Abs(v + x * p) < b * p
  {
    MulMono(x, b - 1, p);
    MulMono(1 - b, x, p);
    assert (1 - b) * p == p - b * p && (b - 1) * p == b * p - p;
  }

  lemma TopIsZero(y: int, v: int, sign: int, u: int, s: nat, p: int, b: int, s0: int)
    requires y == sign * v && (sign == 1 || sign == -1) && Abs(v) < p && 0 < u && b > 0
    requires s0 == y + u * p + s * (b * p) && s0 < b * p
    ensures s == 0
  {
    MulMono(1, u, p);
    MulMono(1, b, p);
    if s > 0 { MulMono(1, s, b * p); }
  }

  /** Recoding into odd digits only, for scalars whose magnitude fits in `size` bits. */
  method WnafConst(wnaf: array<int>, scalar: Scalar, w: nat, size: nat) returns (skew: int)
    requires 0 < w < 16 && size > 0 && scalar.Reduced() && wnaf.Length == WnafSizeBits(size, w) + 1
    requires HalfMagnitude(scalar.Val()) < Pow2(size)
    modifies wnaf
    ensures skew == 0 || skew == 1
    ensures OddDigits(wnaf[..], Pow2(w))
    ensures Weighted(wnaf[..], 0, Pow2(w)) - skew == Centered(scalar.Val())
  {
    hide OddDigits, ConstLoop, Pow2, Weighted, Scalar.Val, WnafSizeBits;
    var flip := IsHigh(scalar);
    skew := (if flip then 1 else 0) + (if IsEven(scalar) then 1 else 0);
    skew := skew % 2;
    Pow2Zero();
    ghost var v := scalar.Val();
    var s := CaddBit(scalar, 0, skew == 1);
    var globalSign;
    s, globalSign := CondNegate(s, flip);
    ghost var s0, b := s.Val(), Pow2(w);
    OddMagnitude(v, skew, s0, size);
    EvenPower(w);
    ConstStart(s0, globalSign, b);
    var uLast, u;
    s, uLast := ShrInt(s, w);
    var word := 0;
    assert wnaf[..0] == [];
    ConstRoom(size, w, s0);
    while true
      invariant 0 <= word && word + 1 < wnaf.Length
      invariant ConstLoop(wnaf[..word], s0, s.Val(), uLast, globalSign, b)
      decreases wnaf.Length - word
    {
      s, u := ConstStep(wnaf, word, s, uLast, globalSign, w, s0);
      word := word + 1;
      uLast := u;
      WordsDone(word, size, w);
      if word * w >= size { break; }
    }
    ConstEnd(wnaf[..word], s0, s.Val(), u, globalSign, b, word);
    ghost var d := wnaf[..word];
    wnaf[word] := u * globalSign;
    assert wnaf[..] == d + [u * globalSign];
  }

  /** One round of the loop of `WnafConst`. */
  method ConstStep(wnaf: array<int>, word: nat, s0: Scalar, uLast0: int, globalSign: int, w: nat, ghost v: nat)
    returns (s: Scalar, u: int)
    requires 0 < w < 16 && word < wnaf.Length
    requires ConstLoop(wnaf[..word], v, s0.Val(), uLast0, globalSign, Pow2(w))
    modifies wnaf
    ensures ConstLoop(wnaf[..word + 1], v, s.Val(), u, globalSign, Pow2(w))
  {
    hide OddDigits, ConstLoop, Pow2, Weighted, Scalar.Val;
    EvenPower(w);
    ConstNext(wnaf[..word], v, s0.Val(), uLast0, globalSign, Pow2(w), s0.Val() % Pow2(w));
    s, u := ShrInt(s0, w);
    var even := if u % 2 == 0 then 1 else 0;
    u := u + even;
    var uLast := uLast0 - even * Pow2(w);
    ghost var d := wnaf[..word];
    wnaf[word] := uLast * globalSign;
    assert wnaf[..word + 1] == d + [uLast * globalSign];
  }

  /** The value closest to zero modulo the order, and its magnitude. */
  function Centered(a: nat): int { if a > N / 2 then a - N else a }

  function HalfMagnitude(a: nat): nat
    requires a < N
  {
    if a > N / 2 then N - a else a
  }

  /** Of all numbers with that residue it is the closest to zero. */
  lemma CenteredMeans(a: nat)
    requires a < N
    ensures HalfMagnitude(a) == Abs(Centered(a)) && 2 * Abs(Centered(a)) < N
    ensures Centered(a) == a || Centered(a) == a - N
  {
  }

  lemma OddMagnitude(v: nat, skew: int, s0: nat, size: nat)
    requires v < N && size > 0 && HalfMagnitude(v) < Pow2(size)
    requires skew == ((if v > N / 2 then 1 else 0) + (if v % 2 == 0 then 1 else 0)) % 2
    requires s0 == (if v > N / 2 then N - (v + skew) else v + skew)
    ensures s0 % 2 == 1 && s0 < Pow2(size)
    ensures (if v > N / 2 then 0 - s0 else s0) - skew == Centered(v)
  {
    EvenPower(size);
    if v <= N / 2 && v % 2 == 0 { OddBelow(v + 1, Pow2(size)); }
  }

  lemma ConstRoom(size: nat, w: nat, s0: nat)
    requires w > 0 && size > 0 && s0 < Pow2(size)
    ensures WnafSizeBits(size, w) >= 1
    ensures s0 < Pow(Pow2(w), WnafSizeBits(size, w))
  {
    var n := WnafSizeBits(size, w);
    assert w * 0 == 0;
    Pow2Mono(size, w * n);
    PowOfTwo(w, n);
  }

  /** The loop ends when all windows are done, and not before. */
  lemma WordsDone(word: nat, size: nat, w: nat)
    requires w > 0 && word <= WnafSizeBits(size, w)
    ensures word * w >= size <==> word == WnafSizeBits(size, w)
  {
    var n := WnafSizeBits(size, w);
    if word < n { MulMono(word, n - 1, w); }
  }
}
