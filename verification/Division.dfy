/** Long division of integers of any length (Algorithm D), and the remainder-only form. */
module Division {
  import opened Arith
  import opened Digits
  import opened BigUInts
  import opened WordOps
  import opened Shifts
  import opened WordDivision
  import opened Comparison
  import opened Addition
  import opened Subtraction
  import opened Multiplication

  /** x /= y for a single word; returns the remainder. */
  method DivideByWord(x: BigUInt, y: Word) returns (remainder: Word)
    requires x.Valid() && y > 0
    modifies x
    ensures x.Valid() && x.Value() == old(x.Value()) / y && remainder == old(x.Value()) % y
  {
    hide BigUInt.Valid, BigUInt.Value, BigUInt.Words, BigUInt.Count, Weight, Digit, DigitCount, At, Put, DividedFrom;
    ghost var v0 := x.Value();
    if y == 1 {
      DivModUnique(v0, v0, 0, 1);
      return 0;
    }
    remainder := 0;
    var i := x.Count();
    CountBelow(v0, i);
    DividedStart(v0, v0, 0, i, y);
    while i > 0
      invariant x.Valid() && DividedFrom(x.Value(), v0, v0, 0, i, y, remainder) && remainder < y
    {
      i := i - 1;
      DividedGet(x.Value(), v0, v0, 0, i, y, remainder);
      var u := x.Get(i);
      var (q, r) := FastDividingFullWidth(y, remainder, u);
      DividedNext(x.Value(), v0, v0, 0, i, y, remainder, q);
      x.Set(i, q);
      remainder := r;
    }
    DividedEnd(x.Value(), v0, v0, 0, y, remainder);
    DivideWeightZero(v0);
  }

  /** The estimate from the top digits, against the quotient of the whole top part t of the
      dividend by y: never too small, and at most one too large. w is the weight of the digits
      that the estimate does not look at. */
  lemma EstimateOvershoot(t: nat, y: nat, t3: nat, y2: nat, w: nat, q: int)
    requires w > 0 && y2 > 0 && 2 * y2 >= BASE * BASE
    requires t3 * w <= t < (t3 + 1) * w && y2 * w <= y < (y2 + 1) * w
    requires t < y * BASE && q == CappedQuotient(t3, y2)
    ensures y > 0 && q - 1 <= t / y <= q
  {
    MulMono(1, y2, w);
    var u := t / y;
    assert t == u * y + t % y;
    QuotientRange(t, y, BASE);
    NeverTooSmall(t, y, t3, y2, w, u);
    QuotientFrom(t3, y2, u);
    QuotientFrom(t3, y2, q);
    if q > u + 1 {
      OneTooLarge(t, y, t3, y2, w, q);
      QuotientFrom(t, y, q - 1);
    }
  }

  lemma NeverTooSmall(t: int, y: int, t3: int, y2: int, w: int, u: int)
    requires w > 0 && u >= 0 && u * y <= t < (t3 + 1) * w && y2 * w <= y
    ensures u * y2 <= t3
  {
    MulMono(y2 * w, y, u);
    assert u * (y2 * w) == (u * y2) * w;
    if u * y2 >= t3 + 1 { MulMono(t3 + 1, u * y2, w); }
  }

  lemma OneTooLarge(t: int, y: int, t3: int, y2: int, w: int, q: int)
    requires w > 0 && 0 <= q < BASE && q * y2 <= t3
    requires t3 * w <= t && y < (y2 + 1) * w && y2 * w <= y && 2 * y2 >= BASE * BASE
    ensures (q - 1) * y <= t
  {
    MulMono(y, (y2 + 1) * w, q);
    MulMono(q * y2, t3, w);
    assert q * ((y2 + 1) * w) == (q * y2) * w + q * w;
    MulMono(q, y2, w);
    assert (q - 1) * y == q * y - y;
  }

  /** The three top digits of the part of v above digit j-2. */
  lemma TopThree(v: nat, j: nat)
    requires j >= 2 && v < Weight(j + 1)
    ensures v / Weight(j - 2) == (Digit(v, j) * BASE + Digit(v, j - 1)) * BASE + Digit(v, j - 2)
    ensures v / Weight(j) == Digit(v, j)
  {
    hide Weight, Digit;
    DigitSplit(v, j);
    DigitSplit(v, j - 1);
    DigitSplit(v, j - 2);
    DigitBeyond(v, j + 1, j + 1);
  }

  lemma FloorBounds(v: nat, w: nat)
    requires w > 0
    ensures 0 <= v / w && (v / w) * w <= v < (v / w + 1) * w
  {
    assert v == (v / w) * w + v % w;
    QuotientFrom(v, w, 0);
  }

  /** The divisor y has dc digits and its top bit set. */
  ghost predicate Divisor(y: nat, dc: nat)
  {
    dc >= 2 && y < Weight(dc) && y / Weight(dc - 1) == Digit(y, dc - 1) && Normalized(Digit(y, dc - 1))
  }

  /** What is left of the dividend before digit k of the quotient is formed. */
  ghost predicate Left(v: nat, y: nat, k: nat)
  {
    v < y * Weight(k)
  }

  lemma LeftQuotient(v: nat, y: nat, k: nat)
    requires Left(v, y, k + 1)
    ensures 0 <= v / Weight(k) < y * BASE
  {
    WeightStep(k);
    hide Weight;
    var w := Weight(k);
    assert y * (BASE * w) == w * (y * BASE);
    QuotientRange(v, w, y * BASE);
  }

  lemma LeftBound(v: nat, y: nat, dc: nat, k: nat)
    requires Left(v, y, k + 1) && y < Weight(dc)
    ensures v < Weight(dc + k + 1) && v / Weight(k) < Weight(dc + 1)
  {
    hide Weight;
    WeightAdd(dc, k + 1);
    MulMono(y, Weight(dc), Weight(k + 1));
    LeftQuotient(v, y, k);
    WeightStep(dc);
  }

  /** The top digit of the dividend does not exceed that of the divisor. */
  lemma LeftTopDigit(v: nat, y: nat, dc: nat, k: nat)
    requires Divisor(y, dc) && Left(v, y, k + 1)
    ensures Digit(v, dc + k) <= Digit(y, dc - 1)
  {
    var j, d1 := dc + k, Digit(y, dc - 1);
    LeftBound(v, y, dc, k);
    TopThree(v, j);
    hide Weight, Digit;
    FloorBounds(y, Weight(dc - 1));
    WeightAdd(dc - 1, k + 1);
    assert dc - 1 + (k + 1) == j;
    MulMono(y, (d1 + 1) * Weight(dc - 1), Weight(k + 1));
    assert (d1 + 1) * Weight(dc - 1) * Weight(k + 1) == (d1 + 1) * Weight(j) by {
      MulAssoc(d1 + 1, Weight(dc - 1), Weight(k + 1));
    }
    QuotientFrom(v, Weight(j), d1);
  }

  /** The digits that the loop reads give an estimate between the quotient digit and one more. */
  lemma DigitEstimate(v: nat, y: nat, dc: nat, k: nat, q: int)
    requires Divisor(y, dc) && Left(v, y, k + 1)
    requires q == CappedQuotient((Digit(v, dc + k) * BASE + Digit(v, dc + k - 1)) * BASE + Digit(v, dc + k - 2),
                                 Digit(y, dc - 1) * BASE + Digit(y, dc - 2))
    ensures y > 0 && 0 <= v / Weight(k) && q - 1 <= (v / Weight(k)) / y <= q
  {
    hide Weight, Digit, Divisor, Left, CappedQuotient, Normalized;
    LeftQuotient(v, y, k);
    DivisorTop(y, dc);
    DividendTop(v, y, dc, k);
    FloorBounds(y, Weight(dc - 2));
    EstimateOvershoot(v / Weight(k), y, v / Weight(dc + k - 2), y / Weight(dc - 2), Weight(dc - 2), q);
  }

  lemma DividendTop(v: nat, y: nat, dc: nat, k: nat)
    requires dc >= 2 && y < Weight(dc) && Left(v, y, k + 1)
    ensures v / Weight(dc + k - 2)
         == (Digit(v, dc + k) * BASE + Digit(v, dc + k - 1)) * BASE + Digit(v, dc + k - 2)
    ensures (v / Weight(dc + k - 2)) * Weight(dc - 2) <= v / Weight(k)
    ensures v / Weight(k) < (v / Weight(dc + k - 2) + 1) * Weight(dc - 2)
  {
    hide Weight, Digit, Left;
    LeftBound(v, y, dc, k);
    LeftQuotient(v, y, k);
    TopThree(v, dc + k);
    WeightAdd(k, dc - 2);
    assert k + (dc - 2) == dc + k - 2;
    DivideTwice(v, Weight(k), Weight(dc - 2));
    FloorBounds(v / Weight(k), Weight(dc - 2));
  }

  lemma DivisorTop(y: nat, dc: nat)
    requires Divisor(y, dc)
    ensures dc >= 2 && y < Weight(dc)
    ensures y / Weight(dc - 2) == Digit(y, dc - 1) * BASE + Digit(y, dc - 2)
    ensures y / Weight(dc - 2) > 0 && 2 * (y / Weight(dc - 2)) >= BASE * BASE
  {
    DigitSplit(y, dc - 2);
  }

  /** One step of the long division: the digit k of the quotient, subtracted out. */
  method DivideStep(x: BigUInt, y: BigUInt, product: BigUInt, d1: Word, d0: Word, k: nat) returns (q: Word)
    requires x.Valid() && y.Valid() && product.Valid() && x != y && x != product && y != product
    requires Divisor(y.Value(), y.Count()) && Left(x.Value(), y.Value(), k + 1)
    requires d1 == y.Get(y.Count() - 1) && d0 == y.Get(y.Count() - 2)
    modifies x, product
    ensures x.Valid() && y.Valid() && product.Valid() && y.Value() == old(y.Value())
    ensures Reduced(x.Value(), old(x.Value()), y.Value(), q, k)
  {
    hide BigUInt.Valid, BigUInt.Value, BigUInt.Words, BigUInt.Count, Weight, Digit, DigitCount, At, Normalized, Left, CappedQuotient, Reduced;
    var dc := y.Count();
    var j := dc + k;
    ghost var v0, yv := x.Value(), y.Value();
    DivisorDigits(yv, dc);
    q := Estimate(x, y, d1, d0, k);
    product.Load(y);
    MultiplyByWord(product, q);
    TopPart(v0, yv, dc, k);
    var less := TopLess(x, product, k, j + 1);
    q := SubtractProduct(x, y, product, q, less, k);
  }

  /** The digit k of the quotient, or one more, from the top digits. */
  method Estimate(x: BigUInt, y: BigUInt, d1: Word, d0: Word, k: nat) returns (q: Word)
    requires x.Valid() && y.Valid() && Divisor(y.Value(), y.Count()) && Left(x.Value(), y.Value(), k + 1)
    requires d1 == Digit(y.Value(), y.Count() - 1) && d0 == Digit(y.Value(), y.Count() - 2)
    ensures y.Value() > 0 && 0 <= x.Value() / Weight(k) && q - 1 <= (x.Value() / Weight(k)) / y.Value() <= q
  {
    hide BigUInt.Valid, BigUInt.Value, BigUInt.Words, BigUInt.Count, Weight, Digit, DigitCount, At, Normalized, Left, CappedQuotient;
    var dc := y.Count();
    DivisorDigits(y.Value(), dc);
    hide Divisor;
    LeftTopDigit(x.Value(), y.Value(), dc, k);
    q := ApproximateQuotient(x.Get(dc + k), x.Get(dc + k - 1), x.Get(dc + k - 2), d1, d0);
    DigitEstimate(x.Value(), y.Value(), dc, k, q);
  }

  /** Whether the digits k to j of x are less than the product. */
  method TopLess(x: BigUInt, product: BigUInt, k: nat, j: nat) returns (less: bool)
    requires x.Valid() && product.Valid() && k <= j && (x.Value() / Weight(k)) % Weight(j - k) == x.Value() / Weight(k)
    ensures less <==> x.Value() / Weight(k) < product.Value()
  {
    hide BigUInt.Valid, BigUInt.Value, BigUInt.Words, Weight;
    var top := x.Extract(k, j);
    less := Less(top, product);
  }

  /** Subtract q times y at digit k; when that is too much (`less`), put y back first. */
  method SubtractProduct(x: BigUInt, y: BigUInt, product: BigUInt, q: Word, less: bool, k: nat) returns (q': Word)
    requires x.Valid() && y.Valid() && product.Valid() && x != y && x != product
    requires y.Value() > 0 && q - 1 <= (x.Value() / Weight(k)) / y.Value() <= q
    requires product.Value() == y.Value() * q
    requires less <==> x.Value() / Weight(k) < product.Value()
    modifies x
    ensures x.Valid() && Reduced(x.Value(), old(x.Value()), y.Value(), q', k)
  {
    hide BigUInt.Valid, BigUInt.Value, BigUInt.Words, BigUInt.Count, Weight, Reduced;
    SubtractCases(x.Value(), y.Value(), k, q);
    if !less {
      Subtract(x, product, k);
      q' := q;
    } else {
      Add(x, y, k);
      Subtract(x, product, k);
      q' := q - 1;
    }
  }

  lemma DivisorDigits(y: nat, dc: nat)
    requires Divisor(y, dc)
    ensures dc >= 2 && y < Weight(dc) && Normalized(Digit(y, dc - 1))
  {
  }

  lemma TopPart(v: nat, y: nat, dc: nat, k: nat)
    requires Left(v, y, k + 1) && y < Weight(dc)
    ensures (v / Weight(k)) % Weight(dc + k + 1 - k) == v / Weight(k)
  {
    hide Weight;
    LeftBound(v, y, dc, k);
    LeftQuotient(v, y, k);
    assert dc + k + 1 - k == dc + 1;
    DivModUnique(v / Weight(k), 0, v / Weight(k), Weight(dc + 1));
  }

  /** v is v0 without q times y at digit k, and that was as often as it goes. */
  ghost predicate Reduced(v: nat, v0: nat, y: nat, q: int, k: nat)
  {
    v + q * y * Weight(k) == v0 && Left(v, y, k)
  }

  /** Both branches leave the remainder of the top part: v0 - (t / y) * y * BASE^k. */
  lemma SubtractCases(v0: nat, y: nat, k: nat, q: int)
    requires y > 0 && q - 1 <= (v0 / Weight(k)) / y <= q && 0 <= q
    ensures y * q <= v0 / Weight(k) ==>
      y * q * Weight(k) <= v0 && Reduced(v0 - y * q * Weight(k), v0, y, q, k)
    ensures y * q > v0 / Weight(k) ==>
      && q >= 1
      && y * q * Weight(k) <= v0 + y * Weight(k)
      && Reduced(v0 + y * Weight(k) - y * q * Weight(k), v0, y, q - 1, k)
  {
    var w, t := Weight(k), v0 / Weight(k);
    FloorBounds(v0, w);
    FloorBounds(t, y);
    hide Weight;
    QuotientFrom(t, y, q);
    OneLess(y, q, w);
    SubtractAlgebra(v0, t, y, t / y, w);
  }

  lemma OneLess(y: int, q: int, w: int)
    ensures y * q == q * y
    ensures y * (q - 1) * w == y * q * w - y * w && (q - 1) * y * w == y * q * w - y * w
  {
  }

  lemma SubtractAlgebra(v0: int, t: int, y: int, u: int, w: int)
    requires w > 0 && y > 0 && u * y <= t < (u + 1) * y && t * w <= v0 < (t + 1) * w
    ensures 0 <= v0 - y * u * w < y * w
  {
    assert y * u == u * y;
    MulMono(t - u * y + 1, y, w);
    MulMono(0, t - u * y, w);
    assert (t - u * y + 1) * w == t * w - u * y * w + w;
    assert (t - u * y) * w == t * w - u * y * w;
  }

  /** Before quotient digit k is formed: what has been divided out, plus what is left, is x0. */
  ghost predicate Divided(q: nat, v: nat, x0: nat, y: nat, k: nat)
  {
    q * y + v == x0 && Left(v, y, k) && q % Weight(k) == 0
  }

  lemma DividedInit(x0: nat, c: nat, y: nat, dc: nat)
    requires x0 < Weight(c) && 1 <= dc <= c && Weight(dc - 1) <= y
    ensures Divided(0, x0, x0, y, c + 1 - dc)
  {
    hide Weight;
    WeightAdd(dc - 1, c + 1 - dc);
    assert dc - 1 + (c + 1 - dc) == c;
    MulMono(Weight(dc - 1), y, Weight(c + 1 - dc));
    ZeroRemainder(Weight(c + 1 - dc));
  }

  lemma DividedStep(q: nat, v: nat, v': nat, x0: nat, y: nat, k: nat, d: Word)
    requires Divided(q, v, x0, y, k + 1) && Reduced(v', v, y, d, k)
    ensures Put(q, k, d) >= 0 && Divided(Put(q, k, d), v', x0, y, k)
  {
    hide Weight, Digit, Put, Left;
    PutInZero(q, k, d);
    AddDigit(q, d, Weight(k), y);
  }

  lemma AddDigit(q: int, d: int, w: int, y: int)
    ensures (q + d * w) * y == q * y + d * y * w
  {
  }

  lemma PutInZero(q: nat, k: nat, d: Word)
    requires q % Weight(k + 1) == 0
    ensures Put(q, k, d) == q + d * Weight(k) >= 0 && Put(q, k, d) % Weight(k) == 0
  {
    WeightStep(k);
    var w := Weight(k);
    var h := q / (BASE * w);
    assert q == h * (BASE * w);
    hide Weight;
    DigitOf(q, k, 0, 0, h);
    AtSplit(0, d, h, w);
    PutKeeps(q, k, d);
    DivModUnique(Put(q, k, d), h * BASE + d, 0, w);
  }

  lemma DividedFinish(q: nat, v: nat, x0: nat, y: nat)
    requires Divided(q, v, x0, y, 0)
    ensures y > 0 && q == x0 / y && v == x0 % y
  {
    assert Weight(0) == 1;
    DivModUnique(x0, q, v, y);
  }

  /** A divisor whose leading zeros have been shifted out. */
  lemma NormalizedDivisor(y: nat, dc: nat)
    requires dc >= 2 && y < Weight(dc) <= 2 * y
    ensures Divisor(y, dc) && DigitCount(y, dc)
  {
    var w, d := Weight(dc - 1), y / Weight(dc - 1);
    WeightStep(dc - 1);
    FloorBounds(y, w);
    DigitSplit(y, dc - 1);
    DigitBeyond(y, dc, dc);
    assert d == Digit(y, dc - 1);
    hide Weight, Digit;
    HalfBase(y, d, w);
  }

  lemma HalfBase(y: int, d: int, w: int)
    requires w > 0 && y < (d + 1) * w && BASE * w <= 2 * y
    ensures 2 * d >= BASE
  {
    assert (2 * (d + 1)) * w == 2 * ((d + 1) * w);
    if 2 * (d + 1) <= BASE { MulMono(2 * (d + 1), BASE, w); }
  }

  /** x / y and x % y of the scaled operands. */
  lemma Unscale(x: nat, y: nat, z: nat)
    requires y > 0
    ensures y * Pow2(z) > 0
    ensures (x * Pow2(z)) / (y * Pow2(z)) == x / y
    ensures ((x * Pow2(z)) % (y * Pow2(z))) / Pow2(z) == x % y
  {
    var p := Pow2(z);
    hide Pow2;
    MulMono(1, y, p);
    var q, r := (x * p) / (y * p), (x * p) % (y * p);
    assert x * p == q * (y * p) + r;
    ScaledRemainder(y, x, p, q, r);
  }

  /** The hard case of the division: y has at least two words. */
  method LongDivide(x: BigUInt, y: BigUInt) returns (quotient: BigUInt)
    requires x.Valid() && y.Valid() && x != y && y.Count() >= 2 && x.Value() >= y.Value() > 0
    modifies x, y
    ensures x.Valid() && fresh(quotient) && quotient.Valid()
    ensures quotient.Value() == old(x.Value()) / old(y.Value())
    ensures x.Value() == old(x.Value()) % old(y.Value())
  {
    hide BigUInt.Valid, BigUInt.Value, BigUInt.Words, BigUInt.Count, Weight, Pow2, LeadingZeroBitCount, Normalized;
    var z := LeadingZeroBitCount(y);
    ghost var xv, yv := x.Value(), y.Value();
    NormalizedDivisor(yv * Pow2(z), y.Count());
    Unscale(xv, yv, z);
    ghost var dc := y.Count();
    ShiftLeft(y, z);
    CountUnique(y.Value(), y.Count(), dc);
    MulMono(yv, xv, Pow2(z));
    ShiftLeft(x, z);
    quotient := DivideNormalized(x, y);
    ShiftRight(x, z);
  }

  method DivideNormalized(x: BigUInt, y: BigUInt) returns (quotient: BigUInt)
    requires x.Valid() && y.Valid() && x != y && x.Value() >= y.Value() > 0
    requires Divisor(y.Value(), y.Count())
    modifies x
    ensures x.Valid() && fresh(quotient) && quotient.Valid()
    ensures quotient.Value() == old(x.Value()) / y.Value()
    ensures x.Value() == old(x.Value()) % y.Value()
  {
    hide BigUInt.Valid, BigUInt.Value, BigUInt.Words, BigUInt.Count, Weight, Digit, At, Put, Divided, Reduced, Left, Normalized;
    quotient := new BigUInt();
    var dc := y.Count();
    var d1, d0 := y.Get(dc - 1), y.Get(dc - 2);
    var product := new BigUInt();
    var j := x.Count() + 1;
    ghost var x0, yv := x.Value(), y.Value();
    CountMonotone(yv, dc, x0, x.Count());
    DividedInit(x0, x.Count(), yv, dc);
    hide DigitCount, Divisor;
    while j > dc
      invariant j >= dc && x.Valid() && quotient.Valid() && product.Valid() && fresh(quotient) && fresh(product)
      invariant quotient != product && y.Valid() && y.Value() == yv && dc == y.Count()
      invariant Divided(quotient.Value(), x.Value(), x0, yv, j - dc)
    {
      j := j - 1;
      DividedLeft(quotient.Value(), x.Value(), x0, yv, j - dc);
      ghost var v := x.Value();
      var q := DivideStep(x, y, product, d1, d0, j - dc);
      DividedStep(quotient.Value(), v, x.Value(), x0, yv, j - dc, q);
      quotient.Set(j - dc, q);
    }
    DividedFinish(quotient.Value(), x.Value(), x0, yv);
  }

  lemma DividedLeft(q: nat, v: nat, x0: nat, y: nat, k: nat)
    requires Divided(q, v, x0, y, k + 1)
    ensures Left(v, y, k + 1)
  {
  }

  lemma CountMonotone(a: nat, ca: nat, b: nat, cb: nat)
    requires DigitCount(a, ca) && DigitCount(b, cb) && a <= b
    ensures ca <= cb
  {
    hide Weight;
    if cb < ca { WeightMono(cb, ca - 1); }
  }

  /** x, y := x / y, x % y for integers of any length. */
  method Divide(x: BigUInt, y: BigUInt)
    requires x.Valid() && y.Valid() && x != y && y.Value() != 0
    modifies x, y
    ensures x.Valid() && y.Valid()
    ensures x.Value() == old(x.Value()) / old(y.Value())
    ensures y.Value() == old(x.Value()) % old(y.Value())
  {
    hide BigUInt.Valid, BigUInt.Value, BigUInt.Words, BigUInt.Count, Weight, Digit, At;
    ghost var xv, yv := x.Value(), y.Value();
    SmallCounts(yv, y.Count());
    var small := Less(x, y);
    if small {
      DivModUnique(xv, 0, xv, yv);
      y.Assign(x);
      var zero := new BigUInt();
      x.Assign(zero);
      return;
    }
    if y.Count() == 1 {
      var mod := DivideByWord(x, y.Get(0));
      var r := new BigUInt.FromWord(mod);
      y.Assign(r);
      return;
    }
    var quotient := LongDivide(x, y);
    y.Assign(x);
    x.Assign(quotient);
  }

  /** x / y as a new integer. */
  method Quotient(x: BigUInt, y: BigUInt) returns (q: BigUInt)
    requires x.Valid() && y.Valid() && y.Value() != 0
    ensures fresh(q) && q.Valid() && q.Value() == x.Value() / y.Value()
  {
    hide BigUInt.Valid, BigUInt.Value, BigUInt.Words;
    q := new BigUInt.Copy(x);
    var r := new BigUInt.Copy(y);
    Divide(q, r);
  }

  /** x := x mod (y >> shift), where y is a divisor shifted up by its leading zeros. */
  method FormRemainder(x: BigUInt, y: BigUInt, shift: nat)
    requires x.Valid() && y.Valid() && x != y && y.Value() != 0 && shift < WIDTH
    requires LeadingZeroBitCount(y) == 0 && y.Value() % Pow2(shift) == 0
    modifies x
    ensures y.Value() / Pow2(shift) > 0
    ensures x.Valid() && x.Value() == old(x.Value()) % (y.Value() / Pow2(shift))
  {
    hide BigUInt.Valid, BigUInt.Value, BigUInt.Words, BigUInt.Count, Weight, Digit, At, Pow2, LeadingZeroBitCount, Normalized;
    ghost var xv, yv := x.Value(), y.Value() / Pow2(shift);
    ShiftedDivisor(y.Value(), shift);
    SmallCounts(y.Value(), y.Count());
    if y.Count() == 1 {
      var remainder := DivideByWord(x, WordShiftRight(y.Get(0), shift));
      var r := new BigUInt.FromWord(remainder);
      x.Load(r);
      return;
    }
    NormalizedTop(y);
    Unscale(xv, yv, shift);
    ShiftLeft(x, shift);
    var less := Less(x, y);
    if !less {
      RemainderLoop(x, y);
    } else {
      DivModUnique(x.Value(), 0, x.Value(), y.Value());
    }
    ShiftRight(x, shift);
  }

  lemma ShiftedDivisor(y: nat, shift: nat)
    requires y > 0 && y % Pow2(shift) == 0
    ensures y == (y / Pow2(shift)) * Pow2(shift) && y / Pow2(shift) > 0
  {
    var q := y / Pow2(shift);
    assert y == q * Pow2(shift);
    if q <= 0 { MulMono(q, 0, Pow2(shift)); }
  }

  lemma NormalizedTop(y: BigUInt)
    requires y.Valid() && LeadingZeroBitCount(y) == 0 && y.Count() >= 2
    ensures Divisor(y.Value(), y.Count())
  {
    hide LeadingZeroBitCount, Weight;
    var z := LeadingZeroBitCount(y);
    assert Pow2(0) == 1;
    NormalizedDivisor(y.Value(), y.Count());
  }

  /** What is left is congruent to the dividend. */
  ghost predicate Remaining(v: nat, x0: nat, y: nat, k: nat)
  {
    y > 0 && v % y == x0 % y && Left(v, y, k)
  }

  lemma RemainingInit(x0: nat, c: nat, y: nat, dc: nat)
    requires x0 < Weight(c) && 1 <= dc <= c && Weight(dc - 1) <= y
    ensures Remaining(x0, x0, y, c + 1 - dc)
  {
    DividedInit(x0, c, y, dc);
  }

  lemma RemainingStep(v: nat, v': nat, x0: nat, y: nat, k: nat, d: Word)
    requires Remaining(v, x0, y, k + 1) && Reduced(v', v, y, d, k)
    ensures Remaining(v', x0, y, k)
  {
    hide Weight, Left;
    assert d * y * Weight(k) == (d * Weight(k)) * y;
    CongIntro(v, v', d * Weight(k), y);
  }

  lemma RemainingLeft(v: nat, x0: nat, y: nat, k: nat)
    requires Remaining(v, x0, y, k)
    ensures Left(v, y, k)
  {
  }

  lemma RemainingFinish(v: nat, x0: nat, y: nat)
    requires Remaining(v, x0, y, 0)
    ensures v == x0 % y
  {
    assert Weight(0) == 1;
    DivModUnique(v, 0, v, y);
  }

  method RemainderLoop(x: BigUInt, y: BigUInt)
    requires x.Valid() && y.Valid() && x != y && x.Value() >= y.Value() > 0
    requires Divisor(y.Value(), y.Count())
    modifies x
    ensures x.Valid() && x.Value() == old(x.Value()) % y.Value()
  {
    hide BigUInt.Valid, BigUInt.Value, BigUInt.Words, BigUInt.Count, Weight, Digit, At, Remaining, Reduced, Left, Normalized;
    var dc := y.Count();
    var d1, d0 := y.Get(dc - 1), y.Get(dc - 2);
    var product := new BigUInt();
    var j := x.Count() + 1;
    ghost var x0, yv := x.Value(), y.Value();
    CountMonotone(yv, dc, x0, x.Count());
    RemainingInit(x0, x.Count(), yv, dc);
    hide DigitCount, Divisor;
    while j > dc
      invariant j >= dc && x.Valid() && product.Valid() && fresh(product)
      invariant y.Valid() && y.Value() == yv && dc == y.Count()
      invariant Remaining(x.Value(), x0, yv, j - dc)
    {
      j := j - 1;
      RemainingLeft(x.Value(), x0, yv, j - dc + 1);
      ghost var v := x.Value();
      var q := DivideStep(x, y, product, d1, d0, j - dc);
      RemainingStep(v, x.Value(), x0, yv, j - dc, q);
    }
    RemainingFinish(x.Value(), x0, yv);
  }

  /** x % y as a new integer. */
  method Remainder(x: BigUInt, y: BigUInt) returns (r: BigUInt)
    requires x.Valid() && y.Valid() && y.Value() != 0
    ensures fresh(r) && r.Valid() && r.Value() == x.Value() % y.Value()
  {
    hide BigUInt.Valid, BigUInt.Value, BigUInt.Words, BigUInt.Count, Weight, Pow2;
    var normalized, shift := NormalizedForm(y);
    r := new BigUInt.Copy(x);
    FormRemainder(r, normalized, shift);
  }

  /** `y << y.leadingZeroBitCount`, as `formRemainder` wants it. */
  method NormalizedForm(y: BigUInt) returns (r: BigUInt, shift: nat)
    requires y.Valid() && y.Value() != 0
    ensures fresh(r) && r.Valid() && shift < WIDTH && r.Value() != 0
    ensures LeadingZeroBitCount(r) == 0
    ensures r.Value() % Pow2(shift) == 0 && r.Value() / Pow2(shift) == y.Value()
  {
    hide BigUInt.Valid, BigUInt.Value, BigUInt.Words, BigUInt.Count, Pow2, LeadingZeroBitCount;
    SmallCounts(y.Value(), y.Count());
    shift := LeadingZeroBitCount(y);
    r := ShiftedLeft(y, shift);
    DivModUnique(r.Value(), y.Value(), 0, Pow2(shift));
    NoLeadingZeros(y, r);
  }

  lemma NoLeadingZeros(y: BigUInt, r: BigUInt)
    requires y.Valid() && y.Value() != 0 && r.Valid() && r.Value() == y.Value() * Pow2(LeadingZeroBitCount(y))
    ensures r.Value() != 0 && LeadingZeroBitCount(r) == 0
  {
    var c, z, z' := y.Count(), LeadingZeroBitCount(y), LeadingZeroBitCount(r);
    SmallCounts(y.Value(), c);
    hide LeadingZeroBitCount, BigUInt.Words, BigUInt.Valid, BigUInt.Value;
    MulMono(1, y.Value(), Pow2(z));
    SameCount(r.Value(), c);
    CountUnique(r.Value(), r.Count(), c);
    NoRoom(r.Value(), Weight(c), z');
  }

  lemma SameCount(v: nat, c: nat)
    requires v < Weight(c) && c > 0 && Weight(c) <= 2 * v
    ensures DigitCount(v, c)
  {
    WeightStep(c - 1);
  }

  lemma NoRoom(v: nat, w: nat, z: nat)
    requires v * Pow2(z) < w <= 2 * v
    ensures z == 0
  {
    if z > 0 {
      Pow2Mono(1, z);
      assert Pow2(1) == 2;
      MulMono(2, Pow2(z), v);
    }
  }
}
