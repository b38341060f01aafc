/** Bit shifts over words, in place and copying, and the bit counts they depend on. */
module Shifts {
  import opened Arith
  import opened Digits
  import opened BigUInts
  import opened WordOps
  import M = MachineInts

  const WIDTH: nat := 64

  /** Number of bits of a number without leading zeros. */
  function BitLength(v: nat): (n: nat)
    ensures v < Pow2(n) && (n > 0 ==> Pow2(n - 1) <= v)
  {
    if v == 0 then 0 else 1 + BitLength(v / 2)
  }

  lemma {:induction false} BitLengthAtMost(v: nat, n: nat)
    requires v < Pow2(n)
    ensures BitLength(v) <= n
  {
    if v > 0 { BitLengthAtMost(v / 2, n - 1); }
  }

  /** `FixedWidthInteger.leadingZeroBitCount` of a word. */
  function WordLeadingZeros(w: Word): (z: nat)
    ensures z <= WIDTH
    ensures w < Pow2(WIDTH - z) && (z < WIDTH ==> Pow2(WIDTH - 1 - z) <= w)
  {
    M.PowersOfTwo();
    BitLengthAtMost(w, WIDTH);
    WIDTH - BitLength(w)
  }

  lemma {:induction false} WeightIsPow2(n: nat)
    ensures Weight(n) == Pow2(WIDTH * n)
  {
    if n > 0 {
      WeightIsPow2(n - 1);
      M.PowersOfTwo();
      assert Pow2(WIDTH) == BASE;
      Pow2Add(WIDTH, WIDTH * (n - 1));
      assert WIDTH + WIDTH * (n - 1) == WIDTH * n;
    }
  }

  lemma PowerSplit(up: nat)
    requires up <= WIDTH
    ensures Pow2(up) * Pow2(WIDTH - up) == BASE && Pow2(WIDTH - up) * Pow2(up) == BASE
    ensures 1 <= Pow2(up) <= BASE && 1 <= Pow2(WIDTH - up) <= BASE
  {
    M.PowersOfTwo();
    hide Pow2;
    Pow2Add(up, WIDTH - up);
    Pow2Mono(up, WIDTH);
    Pow2Mono(WIDTH - up, WIDTH);
    MulCommutes(Pow2(up), Pow2(WIDTH - up));
  }

  /** `w << n` and `w >> n` on words: bits shifted out are lost. */
  function WordShiftLeft(w: Word, n: nat): Word { (w * Pow2(n)) % BASE }

  function WordShiftRight(w: Word, n: nat): Word
  {
    QuotientAtMost(w, Pow2(n));
    w / Pow2(n)
  }

  lemma QuotientAtMost(w: nat, p: nat)
    requires p > 0
    ensures 0 <= w / p <= w
  {
    var q := w / p;
    assert w == q * p + w % p;
    if q < 0 { MulMono(q, -1, p); }
    if q > w { MulMono(w + 1, q, p); MulMono(1, p, w + 1); }
  }

  /** A word shifted up by `up` bits meets the bits that came up from the word below. */
  lemma WordUp(w: Word, low: Word, up: nat)
    requires 0 < up < WIDTH && low < Pow2(up)
    ensures M.BitOr(WordShiftLeft(w, up), low) < BASE
    ensures M.BitOr(WordShiftLeft(w, up), low) == Pow2(up) * w + low - WordShiftRight(w, WIDTH - up) * BASE
    ensures WordShiftRight(w, WIDTH - up) < Pow2(up)
  {
    PowerSplit(up);
    var p, q := Pow2(up), Pow2(WIDTH - up);
    var h, l := w / q, w % q;
    hide Pow2;
    assert w == h * q + l;
    UpAlgebra(w, h, l, p, q);
    DivModUnique(w * p, h, l * p, BASE);
    MulMono(l, q - 1, p);
    QuotientAtMost(w, q);
    if h >= p { MulMono(p, h, q); }
    M.OrIsAdd(l, low, up);
  }

  lemma UpAlgebra(w: int, h: int, l: int, p: int, q: int)
    requires w == h * q + l && p * q == BASE && p > 0 && 0 <= l < q
    ensures w * p == h * BASE + l * p && p * w == w * p && 0 <= l * p < BASE
    ensures (q - 1) * p == BASE - p
  {
    assert (h * q + l) * p == h * (p * q) + l * p;
    MulMono(l, q - 1, p);
    MulMono(0, l, p);
    assert (q - 1) * p == p * q - p;
  }

  /** x << amount, as a new integer. */
  method ShiftedLeft(x: BigUInt, amount: nat) returns (r: BigUInt)
    requires x.Valid()
    ensures fresh(r) && r.Valid() && r.Value() == x.Value() * Pow2(amount)
  {
    hide BigUInt.Valid, BigUInt.Value, BigUInt.Words, Weight, Digit, At, Put, Carried, Pow2, WordShiftLeft, WordShiftRight;
    if amount == 0 {
      r := new BigUInt.Copy(x);
      PowZero(x.Value());
      return;
    }
    var ext, up := amount / WIDTH, amount % WIDTH;
    ShiftFactor(x.Value(), ext, up);
    if up > 0 {
      r := ShiftedLeftBits(x, ext, up);
    } else {
      r := ShiftedLeftWords(x, ext);
      PowOne(x.Value());
    }
  }

  method ShiftedLeftBits(x: BigUInt, ext: nat, up: nat) returns (r: BigUInt)
    requires x.Valid() && 0 < up < WIDTH
    ensures fresh(r) && r.Valid() && r.Value() == Pow2(up) * x.Value() * Weight(ext)
  {
    hide BigUInt.Valid, BigUInt.Value, BigUInt.Words, BigUInt.Count, Weight, Digit, DigitCount, At, Put, Carried, Above, Pow2,
         WordShiftLeft, WordShiftRight;
    ghost var v0 := x.Value();
    CountBelow(v0, x.Count());
    r := new BigUInt();
    var i := 0;
    var lowbits: Word := 0;
    UpStart(v0, up, ext);
    while i < x.Count() || lowbits > 0
      invariant r.Valid() && fresh(r) && lowbits < Pow2(up) < BASE
      invariant Carried(r.Value(), 0, v0, Pow2(up), ext, i, lowbits) && Above(r.Value(), ext + i)
      decreases x.Count() + ext + 3 - i
    {
      if i >= x.Count() {
        CarryReach(r.Value(), 0, v0, Pow2(up), ext, i, x.Count(), 0, lowbits);
      }
      var word := x.Get(i);
      WordUp(word, lowbits, up);
      var d := M.BitOr(WordShiftLeft(word, up), lowbits);
      UpNext(r.Value(), v0, up, ext, i, lowbits, WordShiftRight(word, WIDTH - up), d);
      r.Set(i + ext, d);
      lowbits := WordShiftRight(word, WIDTH - up);
      i := i + 1;
    }
    CarriedEnd(r.Value(), 0, v0, Pow2(up), ext, i, x.Count(), 0);
  }

  method ShiftedLeftWords(x: BigUInt, ext: nat) returns (r: BigUInt)
    requires x.Valid()
    ensures fresh(r) && r.Valid() && r.Value() == x.Value() * Weight(ext)
  {
    hide BigUInt.Valid, BigUInt.Value, BigUInt.Words, BigUInt.Count, Weight, Digit, DigitCount, At, Put, Carried, Above;
    ghost var v0 := x.Value();
    CountBelow(v0, x.Count());
    r := new BigUInt();
    CopyStart(v0, ext);
    for i := 0 to x.Count()
      invariant r.Valid() && fresh(r) && Carried(r.Value(), 0, v0, 1, ext, i, 0) && Above(r.Value(), ext + i)
    {
      CopyNext(r.Value(), v0, ext, i);
      r.Set(i + ext, x.Get(i));
    }
    CarriedEnd(r.Value(), 0, v0, 1, ext, x.Count(), x.Count(), 0);
  }

  lemma UpStart(v0: nat, up: nat, ext: nat)
    requires up < WIDTH
    ensures Carried(0, 0, v0, Pow2(up), ext, 0, 0) && Above(0, ext) && 0 < Pow2(up) < BASE
  {
    CarriedStart(0, v0, Pow2(up), ext);
    PowerMore(up);
  }

  lemma CopyStart(v0: nat, ext: nat)
    ensures Carried(0, 0, v0, 1, ext, 0, 0) && Above(0, ext)
  {
    CarriedStart(0, v0, 1, ext);
  }

  lemma PowOne(v: int)
    ensures Pow2(0) * v == v
  {
  }

  /** Nothing has been written at index i or above. */
  ghost predicate Above(v: nat, i: nat)
  {
    v < Weight(i)
  }

  lemma PowZero(v: int)
    ensures v * Pow2(0) == v
  {
  }

  lemma PowerMore(up: nat)
    requires up < WIDTH
    ensures Pow2(up) < BASE
  {
    M.PowersOfTwo();
    Pow2Mono(up, WIDTH - 1);
  }

  /** 2^amount = 2^up * BASE^ext. */
  lemma ShiftFactor(v: int, ext: nat, up: nat)
    ensures v * Pow2(WIDTH * ext + up) == Pow2(up) * v * Weight(ext)
  {
    WeightIsPow2(ext);
    Pow2Add(WIDTH * ext, up);
    assert v * (Weight(ext) * Pow2(up)) == Pow2(up) * v * Weight(ext);
  }

  lemma AboveNext(v: nat, i: nat, d: Word)
    requires Above(v, i)
    ensures Digit(v, i) == 0 && Put(v, i, d) >= 0 && Above(Put(v, i, d), i + 1)
  {
    DigitBeyond(v, i, i);
    WeightStep(i);
    NextDigitBound(v, d, Weight(i));
  }

  lemma UpNext(v: nat, v0: nat, up: nat, ext: nat, i: nat, low: Word, high: Word, d: Word)
    requires Carried(v, 0, v0, Pow2(up), ext, i, low) && Above(v, ext + i)
    requires d == Pow2(up) * Digit(v0, i) + low - high * BASE
    ensures Put(v, ext + i, d) >= 0
    ensures Carried(Put(v, ext + i, d), 0, v0, Pow2(up), ext, i + 1, high)
    ensures Above(Put(v, ext + i, d), ext + (i + 1))
  {
    hide Weight, Digit, Carried, Put, Above;
    AboveNext(v, ext + i, d);
    assert ext + i + 1 == ext + (i + 1);
    CarriedNext(v, 0, v0, Pow2(up), ext, i, low, high, d);
  }

  lemma CopyNext(v: nat, v0: nat, ext: nat, i: nat)
    requires Carried(v, 0, v0, 1, ext, i, 0) && Above(v, ext + i)
    ensures Put(v, ext + i, Digit(v0, i)) >= 0
    ensures Carried(Put(v, ext + i, Digit(v0, i)), 0, v0, 1, ext, i + 1, 0)
    ensures Above(Put(v, ext + i, Digit(v0, i)), ext + (i + 1))
  {
    hide Weight, Digit, Carried, Put, Above;
    AboveNext(v, ext + i, Digit(v0, i));
    assert ext + i + 1 == ext + (i + 1);
    CarriedNext(v, 0, v0, 1, ext, i, 0, 0, Digit(v0, i));
  }

  /** x <<= amount. */
  method ShiftLeft(x: BigUInt, amount: nat)
    requires x.Valid()
    modifies x
    ensures x.Valid() && x.Value() == old(x.Value()) * Pow2(amount)
  {
    hide BigUInt.Valid, BigUInt.Value, BigUInt.Words, Weight, Pow2;
    if amount == 0 {
      PowZero(x.Value());
      return;
    }
    var ext, up := amount / WIDTH, amount % WIDTH;
    ShiftFactor(x.Value(), ext, up);
    if up > 0 {
      ShiftLeftBits(x, up);
    } else {
      PowOne(x.Value());
    }
    if ext > 0 && x.Count() > 0 {
      x.ShiftLeftWords(ext);
    } else {
      NothingToMove(x.Value(), x.Count(), ext);
    }
  }

  lemma NothingToMove(v: nat, c: nat, ext: nat)
    requires v < Weight(c) && (ext == 0 || c == 0)
    ensures v * Weight(ext) == v
  {
    assert Weight(0) == 1;
  }

  method ShiftLeftBits(x: BigUInt, up: nat)
    requires x.Valid() && 0 < up < WIDTH
    modifies x
    ensures x.Valid() && x.Value() == Pow2(up) * old(x.Value())
  {
    hide BigUInt.Valid, BigUInt.Value, BigUInt.Words, BigUInt.Count, Weight, Digit, DigitCount, At, Put, Carried, Untouched,
         Pow2, WordShiftLeft, WordShiftRight;
    ghost var v0, m := x.Value(), x.Count();
    CountBelow(v0, m);
    var i := 0;
    var lowbits: Word := 0;
    PowerMore(up);
    CarriedStart(v0, v0, Pow2(up) - 1, 0);
    UntouchedStart(v0, 0);
    while i < x.Count() || lowbits > 0
      invariant x.Valid() && lowbits < Pow2(up) < BASE
      invariant Carried(x.Value(), v0, v0, Pow2(up) - 1, 0, i, lowbits) && Untouched(x.Value(), v0, i)
      decreases m + 2 - i
    {
      InPlaceReach(x.Value(), x.Count(), v0, m, Pow2(up) - 1, i, lowbits);
      var word := x.Get(i);
      WordUp(word, lowbits, up);
      var d := M.BitOr(WordShiftLeft(word, up), lowbits);
      InPlaceNext(x.Value(), v0, Pow2(up), i, lowbits, WordShiftRight(word, WIDTH - up), d);
      x.Set(i, d);
      lowbits := WordShiftRight(word, WIDTH - up);
      i := i + 1;
    }
    InPlaceEnd(x.Value(), x.Count(), v0, Pow2(up), i);
  }

  lemma InPlaceReach(v: nat, c: nat, v0: nat, m: nat, y: int, i: nat, low: int)
    requires Carried(v, v0, v0, y, 0, i, low) && Untouched(v, v0, i) && 0 <= y < BASE && low >= 0
    requires v0 < Weight(m) && DigitCount(v, c)
    requires i < c || low > 0
    ensures i <= m + 1
  {
    hide Weight, Carried;
    if i >= m {
      if low > 0 {
        CarryReach(v, v0, v0, y, 0, i, m, m, low);
      } else {
        UntouchedBound(v, v0, i, m);
        CountAtMost(v, c, i);
      }
    }
  }

  lemma UntouchedBound(v: nat, v0: nat, i: nat, m: nat)
    requires Untouched(v, v0, i) && v0 < Weight(m) && m <= i
    ensures v < Weight(i)
  {
    DigitBeyond(v0, m, i);
    DivModUnique(v, v / Weight(i), v % Weight(i), Weight(i));
  }

  lemma InPlaceNext(v: nat, v0: nat, p: int, i: nat, low: Word, high: Word, d: Word)
    requires Carried(v, v0, v0, p - 1, 0, i, low) && Untouched(v, v0, i)
    requires d == p * Digit(v, i) + low - high * BASE
    ensures Put(v, i, d) >= 0
    ensures Carried(Put(v, i, d), v0, v0, p - 1, 0, i + 1, high) && Untouched(Put(v, i, d), v0, i + 1)
  {
    assert Digit(v, i) == Digit(v0, i);
    hide Weight, Digit, Carried, Put, Untouched;
    UntouchedNext(v, v0, i, d);
    assert p * Digit(v, i) == (p - 1) * Digit(v0, i) + Digit(v, i);
    CarriedNext(v, v0, v0, p - 1, 0, i, low, high, d);
  }

  lemma InPlaceEnd(v: nat, c: nat, v0: nat, p: int, i: nat)
    requires Carried(v, v0, v0, p - 1, 0, i, 0) && Untouched(v, v0, i)
    requires DigitCount(v, c) && i >= c
    ensures v == p * v0
  {
    assert Weight(0) == 1;
    hide Weight, Carried;
    DigitBeyond(v, c, i);
    assert v0 / Weight(i) == 0;
    DivModUnique(v0, 0, v0 % Weight(i), Weight(i));
    CarriedEnd(v, v0, v0, p - 1, 0, i, i, 0);
    assert (p - 1) * v0 == p * v0 - v0;
  }

  /** A word shifted down by `down` bits below the s left over from the word above: this is
      the division of the two by 2^down. */
  lemma WordDown(w: Word, s: nat, down: nat)
    requires 0 < down < WIDTH && s < Pow2(down)
    ensures 0 <= s * Pow2(WIDTH - down) < BASE
    ensures M.BitOr(s * Pow2(WIDTH - down), WordShiftRight(w, down)) < BASE
    ensures M.BitOr(s * Pow2(WIDTH - down), WordShiftRight(w, down)) == (s * BASE + w) / Pow2(down)
    ensures (s * BASE + w) % Pow2(down) == w % Pow2(down)
    ensures WordShiftLeft(w, WIDTH - down) == (w % Pow2(down)) * Pow2(WIDTH - down)
  {
    hide Pow2, WordShiftRight, M.BitOr;
    PowerSplit(down);
    RightParts(w, down);
    var p, q := Pow2(down), Pow2(WIDTH - down);
    var h, l := WordShiftRight(w, down), w % p;
    KeptBits(w, h, l, p, q, BASE);
    DownRange(w, s, h, l, p, q);
    M.OrIsAdd(s, h, WIDTH - down);
    DownSplit(w, s, h, l, p, q);
  }

  lemma RightParts(w: Word, n: nat)
    ensures w == WordShiftRight(w, n) * Pow2(n) + w % Pow2(n) && 0 <= w % Pow2(n) < Pow2(n)
  {
    hide Pow2;
  }

  /** Shifting up by the rest of the width keeps the low bits. */
  lemma KeptBits(w: int, h: int, l: int, p: int, q: int, base: int)
    requires w == h * p + l && 0 <= l < p && p * q == base && q > 0
    ensures base > 0 && (w * q) % base == l * q
  {
    MulMono(l + 1, p, q);
    MulNeighbours(l, q);
    MulNat(l, q);
    assert (h * p + l) * q == h * (p * q) + l * q;
    DivModUnique(w * q, h, l * q, base);
  }

  lemma DownRange(w: Word, s: nat, h: int, l: int, p: int, q: int)
    requires w == h * p + l && 0 <= l < p && p * q == BASE && q * p == BASE && s < p && q > 0
    ensures 0 <= h < q && 0 <= s * q && s * q + h < BASE
  {
    if h >= q { MulMono(q, h, p); }
    if h < 0 { MulMono(h, -1, p); }
    MulMono(s, p - 1, q);
    MulNat(s, q);
    assert (p - 1) * q == p * q - q;
  }

  lemma DownSplit(w: int, s: int, h: int, l: int, p: int, q: int)
    requires w == h * p + l && 0 <= l < p && q * p == BASE
    ensures (s * BASE + w) / p == s * q + h && (s * BASE + w) % p == l
  {
    assert s * (q * p) == (s * q) * p;
    assert (s * q + h) * p == (s * q) * p + h * p;
    DivModUnique(s * BASE + w, s * q + h, l, p);
  }

  /** The bit count of an integer, from its top digit. */
  function BitWidth(x: BigUInt): (n: nat)
    requires x.Valid()
    reads x
    ensures n == BitLength(x.Value())
  {
    var c := x.Count();
    TopDigit(x.Value(), c);
    if c == 0 then 0 else c * WIDTH - WordLeadingZeros(x.Get(c - 1))
  }

  /** The shift that brings the top bit of the top digit up. */
  function LeadingZeroBitCount(x: BigUInt): (z: nat)
    requires x.Valid()
    reads x
    ensures z < WIDTH
    ensures x.Value() * Pow2(z) < Weight(x.Count())
    ensures x.Count() > 0 ==> Weight(x.Count()) <= 2 * (x.Value() * Pow2(z))
  {
    var c := x.Count();
    TopDigit(x.Value(), c);
    if c == 0 then 0 else WordLeadingZeros(x.Get(c - 1))
  }

  lemma TopDigit(v: nat, c: nat)
    requires DigitCount(v, c)
    ensures c == 0 ==> v == 0 && BitLength(v) == 0 && v * Pow2(0) < Weight(c)
    ensures c > 0 ==> WordLeadingZeros(Digit(v, c - 1)) < WIDTH
    ensures c > 0 ==> BitLength(v) == c * WIDTH - WordLeadingZeros(Digit(v, c - 1))
    ensures c > 0 ==> v * Pow2(WordLeadingZeros(Digit(v, c - 1))) < Weight(c)
    ensures c > 0 ==> Weight(c) <= 2 * (v * Pow2(WordLeadingZeros(Digit(v, c - 1))))
  {
    if c > 0 {
      TopDigitIs(v, c);
      var d := Digit(v, c - 1);
      hide Digit, BitLength, WordLeadingZeros, Weight, Pow2;
      TopDigitBounds(v, c, d, WordLeadingZeros(d));
    } else {
      assert Weight(0) == 1;
    }
  }

  lemma TopDigitIs(v: nat, c: nat)
    requires c > 0 && DigitCount(v, c)
    ensures Digit(v, c - 1) > 0
    ensures v == v % Weight(c - 1) + Digit(v, c - 1) * Weight(c - 1)
  {
    hide Weight, Digit;
    DigitSplit(v, c - 1);
    DigitBeyond(v, c, c);
    if Digit(v, c - 1) == 0 { DivModUnique(v, 0, v % Weight(c - 1), Weight(c - 1)); }
  }

  lemma TopDigitBounds(v: nat, c: nat, d: Word, z: nat)
    requires c > 0 && d > 0
    requires v == v % Weight(c - 1) + d * Weight(c - 1)
    requires z <= WIDTH && d < Pow2(WIDTH - z) && (z < WIDTH ==> Pow2(WIDTH - 1 - z) <= d)
    ensures z < WIDTH
    ensures BitLength(v) == c * WIDTH - z
    ensures v * Pow2(z) < Weight(c) <= 2 * (v * Pow2(z))
  {
    assert z < WIDTH by { assert Pow2(0) == 1; }
    hide Pow2, Weight, BitLength;
    TopPowers(c, z);
    DigitRange(v % Weight(c - 1), d, Weight(c - 1), Pow2(WIDTH - z), Pow2(WIDTH - 1 - z));
    BitLengthIs(v, c * WIDTH - z);
    ScaleRange(v, Pow2(c * WIDTH - z), Pow2(c * WIDTH - z - 1), Pow2(z), Weight(c));
  }

  lemma ScaleRange(v: int, hi: int, lo: int, p: int, w: int)
    requires lo <= v < hi && p > 0 && hi * p == w && 2 * (lo * p) == w
    ensures v * p < w <= 2 * (v * p)
  {
    MulMono(v + 1, hi, p);
    MulMono(lo, v, p);
    assert (v + 1) * p == v * p + p;
  }

  /** The powers of two around the top digit. */
  lemma TopPowers(c: nat, z: nat)
    requires c > 0 && z < WIDTH
    ensures Pow2(WIDTH - z) * Weight(c - 1) == Pow2(c * WIDTH - z)
    ensures Pow2(WIDTH - 1 - z) * Weight(c - 1) == Pow2(c * WIDTH - z - 1)
    ensures Pow2(c * WIDTH - z) * Pow2(z) == Weight(c)
    ensures 2 * (Pow2(c * WIDTH - z - 1) * Pow2(z)) == Weight(c)
  {
    var k := WIDTH * (c - 1);
    WeightIsPow2(c - 1);
    WeightIsPow2(c);
    hide Weight;
    Pow2Add(WIDTH - z, k);
    Pow2Add(WIDTH - 1 - z, k);
    assert WIDTH - z + k == c * WIDTH - z && WIDTH - 1 - z + k == c * WIDTH - z - 1;
    Pow2Add(c * WIDTH - z, z);
    Pow2Add(c * WIDTH - z - 1, z);
    assert c * WIDTH - z + z == WIDTH * c && c * WIDTH - z - 1 + z == WIDTH * c - 1;
    assert Pow2(WIDTH * c) == 2 * Pow2(WIDTH * c - 1);
  }

  lemma DigitRange(s: int, d: int, w: int, hi: int, lo: int)
    requires 0 <= s < w && lo <= d < hi
    ensures lo * w <= s + d * w < hi * w
  {
    MulMono(d + 1, hi, w);
    MulMono(lo, d, w);
    assert (d + 1) * w == d * w + w;
  }

  lemma BitLengthIs(v: nat, n: nat)
    requires v < Pow2(n) && n > 0 && Pow2(n - 1) <= v
    ensures BitLength(v) == n
  {
    BitLengthAtMost(v, n);
    if BitLength(v) < n { Pow2Mono(BitLength(v), n - 1); }
  }

  /** x >>= amount. */
  method ShiftRight(x: BigUInt, amount: nat)
    requires x.Valid()
    modifies x
    ensures x.Valid() && x.Value() == old(x.Value()) / Pow2(amount)
  {
    hide BigUInt.Valid, BigUInt.Value, BigUInt.Words, BigUInt.Count, Weight, Digit, DigitCount, Pow2, BitLength, BitWidth;
    if amount == 0 {
      DividePowZero(x.Value());
      return;
    }
    if amount >= BitWidth(x) {
      AllShiftedOut(x.Value(), amount);
      var zero := new BigUInt();
      x.Load(zero);
      return;
    }
    var ext, down := amount / WIDTH, amount % WIDTH;
    DivideFactor(x.Value(), ext, down);
    if ext > 0 {
      DigitsRemain(x.Value(), x.Count(), ext, amount);
      x.ShiftRightWords(ext);
    } else {
      DivideWeightZero(x.Value());
    }
    if down > 0 {
      ShiftRightBits(x, down);
    } else {
      DividePowZero(x.Value());
    }
  }

  lemma DividePowZero(v: nat)
    ensures v / Pow2(0) == v
  {
    DivModUnique(v, v, 0, 1);
  }

  lemma DivideWeightZero(v: nat)
    ensures v / Weight(0) == v
  {
    DivModUnique(v, v, 0, 1);
  }

  lemma AllShiftedOut(v: nat, amount: nat)
    requires amount >= BitLength(v)
    ensures v / Pow2(amount) == 0
  {
    Pow2Mono(BitLength(v), amount);
    DivModUnique(v, 0, v, Pow2(amount));
  }

  lemma DivideFactor(v: nat, ext: nat, down: nat)
    ensures v / Pow2(WIDTH * ext + down) == (v / Weight(ext)) / Pow2(down)
  {
    WeightIsPow2(ext);
    Pow2Add(WIDTH * ext, down);
    DivideTwice(v, Weight(ext), Pow2(down));
  }

  lemma DivideTwice(v: nat, p: nat, q: nat)
    requires p > 0 && q > 0
    ensures p * q > 0 && v / (p * q) == (v / p) / q
  {
    var y, s := v / p, v % p;
    var h, l := y / q, y % q;
    assert v == y * p + s && y == h * q + l;
    assert (h * q + l) * p == h * (p * q) + l * p;
    MulMono(l, q - 1, p);
    MulNat(l, p);
    assert (q - 1) * p == p * q - p;
    DivModUnique(v, h, l * p + s, p * q);
  }

  lemma DigitsRemain(v: nat, c: nat, ext: nat, amount: nat)
    requires DigitCount(v, c) && WIDTH * ext <= amount < BitLength(v)
    ensures ext < c
  {
    if c <= ext {
      WeightMono(c, ext);
      WeightIsPow2(ext);
      Pow2Mono(WIDTH * ext, amount);
      BitLengthAtMost(v, amount);
    }
  }

  method ShiftRightBits(x: BigUInt, down: nat)
    requires x.Valid() && 0 < down < WIDTH
    modifies x
    ensures x.Valid() && x.Value() == old(x.Value()) / Pow2(down)
  {
    hide BigUInt.Valid, BigUInt.Value, BigUInt.Words, BigUInt.Count, Weight, Digit, DigitCount, At, Put, DividedFrom, Pow2,
         WordShiftLeft, WordShiftRight;
    ghost var v0 := x.Value();
    ghost var s: nat := 0;
    var i := x.Count();
    var highbits: Word := 0;
    CountBelow(v0, i);
    DividedStart(v0, v0, 0, i, Pow2(down));
    while i > 0
      invariant x.Valid() && DividedFrom(x.Value(), v0, v0, 0, i, Pow2(down), s)
      invariant s < Pow2(down) && highbits == s * Pow2(WIDTH - down)
    {
      i := i - 1;
      DividedGet(x.Value(), v0, v0, 0, i, Pow2(down), s);
      var word := x.Get(i);
      WordDown(word, s, down);
      var d := M.BitOr(highbits, WordShiftRight(word, down));
      DividedNext(x.Value(), v0, v0, 0, i, Pow2(down), s, d);
      x.Set(i, d);
      highbits := WordShiftLeft(word, WIDTH - down);
      s := word % Pow2(down);
    }
    DividedEnd(x.Value(), v0, v0, 0, Pow2(down), s);
    DivideWeightZero(v0);
  }

  /** x >> amount, as a new integer. */
  method ShiftedRight(x: BigUInt, amount: nat) returns (r: BigUInt)
    requires x.Valid()
    ensures fresh(r) && r.Valid() && r.Value() == x.Value() / Pow2(amount)
  {
    hide BigUInt.Valid, BigUInt.Value, BigUInt.Words, BigUInt.Count, Weight, Digit, DigitCount, Pow2, BitLength, BitWidth;
    if amount == 0 {
      DividePowZero(x.Value());
      r := new BigUInt.Copy(x);
      return;
    }
    if amount >= BitWidth(x) {
      AllShiftedOut(x.Value(), amount);
      r := new BigUInt();
      return;
    }
    var ext, down := amount / WIDTH, amount % WIDTH;
    DivideFactor(x.Value(), ext, down);
    DigitsRemain(x.Value(), x.Count(), ext, amount);
    if down > 0 {
      r := ShiftedRightBits(x, ext, down);
    } else {
      r := ShiftedRightWords(x, ext);
      DividePowZero(r.Value());
    }
  }

  method ShiftedRightBits(x: BigUInt, ext: nat, down: nat) returns (r: BigUInt)
    requires x.Valid() && 0 < down < WIDTH && ext < x.Count()
    ensures fresh(r) && r.Valid() && r.Value() == (x.Value() / Weight(ext)) / Pow2(down)
  {
    hide BigUInt.Valid, BigUInt.Value, BigUInt.Words, BigUInt.Count, Weight, Digit, DigitCount, At, Put, DividedFrom, Pow2,
         WordShiftLeft, WordShiftRight;
    ghost var v0 := x.Value();
    ghost var s: nat := 0;
    var i := x.Count();
    var highbits: Word := 0;
    r := new BigUInt();
    CountBelow(v0, i);
    DividedStart(v0, 0, ext, i, Pow2(down));
    while i > ext
      invariant ext <= i <= x.Count() && r.Valid() && fresh(r) && DividedFrom(r.Value(), v0, 0, ext, i, Pow2(down), s)
      invariant s < Pow2(down) && highbits == s * Pow2(WIDTH - down)
    {
      i := i - 1;
      var word := x.Get(i);
      WordDown(word, s, down);
      var d := M.BitOr(highbits, WordShiftRight(word, down));
      DividedNext(r.Value(), v0, 0, ext, i, Pow2(down), s, d);
      r.Set(i - ext, d);
      highbits := WordShiftLeft(word, WIDTH - down);
      s := word % Pow2(down);
    }
    DividedEnd(r.Value(), v0, 0, ext, Pow2(down), s);
  }

  method ShiftedRightWords(x: BigUInt, ext: nat) returns (r: BigUInt)
    requires x.Valid() && ext < x.Count()
    ensures fresh(r) && r.Valid() && r.Value() == x.Value() / Weight(ext)
  {
    hide BigUInt.Valid, BigUInt.Value, BigUInt.Words, BigUInt.Count, Weight, Digit, DigitCount, At, Put, MovedDown;
    ghost var v0 := x.Value();
    var i := x.Count();
    r := new BigUInt();
    CountBelow(v0, i);
    MovedDownStart(v0, ext, i);
    while i > ext
      invariant ext <= i <= x.Count() && r.Valid() && fresh(r) && MovedDown(r.Value(), v0, ext, i)
    {
      i := i - 1;
      MovedDownNext(r.Value(), v0, ext, i);
      r.Set(i - ext, x.Get(i));
    }
    MovedDownEnd(r.Value(), v0, ext);
  }

  ghost predicate MovedDown(v: nat, v0: nat, ext: nat, i: nat)
    requires ext <= i
  {
    v == (v0 / Weight(i)) * Weight(i - ext)
  }

  lemma MovedDownStart(v0: nat, ext: nat, c: nat)
    requires ext <= c && v0 < Weight(c)
    ensures MovedDown(0, v0, ext, c)
  {
    DigitBeyond(v0, c, c);
  }

  lemma MovedDownNext(v: nat, v0: nat, ext: nat, i: nat)
    requires ext <= i && MovedDown(v, v0, ext, i + 1)
    ensures Put(v, i - ext, Digit(v0, i)) >= 0
    ensures MovedDown(Put(v, i - ext, Digit(v0, i)), v0, ext, i)
  {
    hide Weight, Digit, Put;
    assert i + 1 - ext == (i - ext) + 1;
    DigitSplit(v0, i);
    ZeroRemainder(Weight(i - ext));
    ZeroRemainder(Weight(i - ext + 1));
    PutUnder(v, v0 / Weight(i + 1), 0, i - ext, Digit(v0, i));
    PutKeeps(v, i - ext, Digit(v0, i));
  }

  lemma ZeroRemainder(m: nat)
    requires m > 0
    ensures 0 % m == 0
  {
  }

  lemma MovedDownEnd(v: nat, v0: nat, ext: nat)
    requires MovedDown(v, v0, ext, ext)
    ensures v == v0 / Weight(ext)
  {
    assert Weight(0) == 1;
  }
}
