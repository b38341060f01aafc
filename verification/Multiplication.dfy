/** Multiplication: by a word, fused multiply-add, long multiplication and Karatsuba. */
module Multiplication {
  import opened Arith
  import opened Digits
  import opened BigUInts
  import opened WordOps
  import opened Addition
  import opened Subtraction
  import opened Comparison

  /** x *= y. */
  method MultiplyByWord(x: BigUInt, y: Word)
    requires x.Valid()
    modifies x
    ensures x.Valid() && x.Value() == old(x.Value()) * y
  {
    hide BigUInt.Valid, BigUInt.Value, BigUInt.Words, Weight, Digit, At, Put, Carried;
    if y == 0 {
      var zero := new BigUInt();
      x.Assign(zero);
      return;
    }
    if y == 1 { return; }
    var carry: Word := 0;
    var c := x.Count();
    ghost var v0 := x.Value();
    CarriedStart(v0, v0, y - 1, 0);
    for i := 0 to c
      invariant x.Valid() && Carried(x.Value(), v0, v0, y - 1, 0, i, carry)
      invariant x.Value() / Weight(i) == v0 / Weight(i)
    {
      var (h, l) := MultipliedFullWidth(x.Get(i), y);
      var (low, o) := AddingReportingOverflow(l, carry);
      ghost var v := x.Value();
      ScaleDigit(v, v0, y, i, carry, h, l, low, o);
      PutKeeps(v, i, low);
      x.Set(i, low);
      carry := if o then h + 1 else h;
    }
    ghost var v := x.Value();
    ScaleEnd(v, v0, y, c, carry);
    assert v0 + (y - 1) * v0 == v0 * y;
    PutKeeps(v, c, carry);
    x.Set(c, carry);
  }

  lemma ScaleDigit(v: nat, v0: nat, y: Word, i: nat, carry: Word, h: Word, l: Word, low: Word, o: bool)
    requires Carried(v, v0, v0, y - 1, 0, i, carry) && v / Weight(i) == v0 / Weight(i)
    requires Digit(v, i) * y == h * BASE + l && h < BASE - 1
    requires l + carry == low + (if o then BASE else 0)
    ensures Put(v, i, low) >= 0
    ensures Carried(Put(v, i, low), v0, v0, y - 1, 0, i + 1, if o then h + 1 else h)
    ensures Put(v, i, low) / Weight(i + 1) == v0 / Weight(i + 1)
  {
    hide Weight, Carried, Put;
    assert Digit(v, i) == Digit(v0, i);
    hide Digit;
    PutKeeps(v, i, low);
    DigitSplit(v, i);
    DigitSplit(v0, i);
    var c' := if o then h + 1 else h;
    assert (y - 1) * Digit(v0, i) == Digit(v, i) * y - Digit(v, i);
    CarriedNext(v, v0, v0, y - 1, 0, i, carry, c', low);
  }

  lemma ScaleEnd(v: nat, v0: nat, y: Word, c: nat, carry: Word)
    requires Carried(v, v0, v0, y - 1, 0, c, carry) && v / Weight(c) == v0 / Weight(c) && v0 < Weight(c)
    ensures Put(v, c, carry) == v0 + (y - 1) * v0
  {
    CarriedEnd(v, v0, v0, y - 1, 0, c, c, carry);
    assert Weight(0) == 1;
    DigitBeyond(v0, c, c);
    assert Digit(v, c) == 0;
  }

  /** r += x * y * BASE^shift, with one carry for the product and one for the sum. */
  method MultiplyAndAdd(r: BigUInt, x: BigUInt, y: Word, shift: nat)
    requires r.Valid() && x.Valid() && r != x
    modifies r
    ensures r.Valid() && r.Value() == old(r.Value()) + x.Value() * y * Weight(shift)
  {
    hide BigUInt.Valid, BigUInt.Value, BigUInt.Words, Weight, Digit, DigitCount, At, Put, Carried;
    ghost var v0, vx, m := r.Value(), x.Value(), r.Count();
    CountBelow(vx, x.Count());
    CountBelow(v0, m);
    if y == 0 || x.Count() == 0 {
      ZeroProduct(vx, y, x.Count(), Weight(shift));
      return;
    }
    if y == 1 {
      Add(r, x, shift);
      return;
    }
    var mulCarry: Word := 0;
    var addCarry := false;
    var xc := x.Count();
    var xi := 0;
    CarriedStart(v0, vx, y, shift);
    while xi < xc || addCarry || mulCarry > 0
      invariant r.Valid() && Carried(r.Value(), v0, vx, y, shift, xi, mulCarry + Unit(addCarry))
      decreases xc + m + shift + 3 - xi
    {
      if xi >= xc {
        CarryReach(r.Value(), v0, vx, y, shift, xi, xc, m, mulCarry + Unit(addCarry));
      }
      var (h, l) := MultipliedFullWidth(x.Get(xi), y);
      var (low, o) := AddingReportingOverflow(l, mulCarry);
      ghost var carry := mulCarry + Unit(addCarry);
      mulCarry := if o then h + 1 else h;
      var ai := shift + xi;
      ghost var v := r.Value();
      var (sum1, so1) := AddingReportingOverflow(r.Get(ai), low);
      if addCarry {
        var (sum2, so2) := AddingReportingOverflow(sum1, 1);
        PutKeeps(v, ai, sum2);
        FusedNext(v, v0, vx, y, shift, xi, carry, mulCarry + Unit(so1 || so2), sum2);
        r.Set(ai, sum2);
        addCarry := so1 || so2;
      } else {
        PutKeeps(v, ai, sum1);
        FusedNext(v, v0, vx, y, shift, xi, carry, mulCarry + Unit(so1), sum1);
        r.Set(ai, sum1);
        addCarry := so1;
      }
      xi := xi + 1;
    }
    CarriedEnd(r.Value(), v0, vx, y, shift, xi, xc, 0);
    assert vx * y == y * vx;
  }

  lemma FusedNext(v: nat, v0: int, x: nat, y: int, shift: nat, i: nat, c: int, c': int, d: Word)
    requires Carried(v, v0, x, y, shift, i, c)
    requires d == Digit(v, shift + i) + Digit(x, i) * y + c - c' * BASE
    ensures Put(v, shift + i, d) >= 0 && Carried(Put(v, shift + i, d), v0, x, y, shift, i + 1, c')
  {
    hide Weight, Digit, Carried, Put;
    PutKeeps(v, shift + i, d);
    assert Digit(x, i) * y == y * Digit(x, i);
    CarriedNext(v, v0, x, y, shift, i, c, c', d);
  }

  lemma ZeroProduct(vx: nat, y: Word, c: nat, p: nat)
    requires y == 0 || c == 0
    requires vx < Weight(c)
    ensures vx * y * p == 0
  {
    assert c == 0 ==> vx == 0;
  }

  /** x * y as a new integer, for every limit at which the code turns to the recursive forms. */
  method Multiply(x: BigUInt, y: BigUInt, directMultiplicationLimit: int) returns (r: BigUInt)
    requires x.Valid() && y.Valid()
    ensures fresh(r) && r.Valid() && r.Value() == x.Value() * y.Value()
    decreases x.Count() + y.Count(), 1
  {
    hide BigUInt.Valid, BigUInt.Value, BigUInt.Words, Weight, Digit, At;
    var xc, yc := x.Count(), y.Count();
    SmallCounts(x.Value(), xc);
    SmallCounts(y.Value(), yc);
    if xc == 0 || yc == 0 {
      r := new BigUInt();
    } else if yc == 1 {
      r := new BigUInt.Copy(x);
      MultiplyByWord(r, y.Get(0));
    } else if xc == 1 {
      r := new BigUInt.Copy(y);
      MultiplyByWord(r, x.Get(0));
    } else if Min(xc, yc) <= directMultiplicationLimit {
      r := LongMultiply(if xc < yc then y else x, if xc < yc then x else y);
    } else if yc < xc {
      r := MultiplyBySplitting(x, y, directMultiplicationLimit);
    } else if xc < yc {
      r := MultiplyBySplitting(y, x, directMultiplicationLimit);
    } else {
      r := Karatsuba(x, y, directMultiplicationLimit);
    }
  }

  lemma SmallCounts(v: nat, c: nat)
    requires DigitCount(v, c)
    ensures c == 0 ==> v == 0
    ensures c == 1 ==> v == Digit(v, 0)
  {
    assert Weight(0) == 1 && Weight(1) == BASE;
  }

  method LongMultiply(left: BigUInt, right: BigUInt) returns (r: BigUInt)
    requires left.Valid() && right.Valid()
    ensures fresh(r) && r.Valid() && r.Value() == left.Value() * right.Value()
  {
    hide BigUInt.Valid, BigUInt.Value, BigUInt.Words, Weight, Digit, At, LongPart;
    r := new BigUInt();
    var i := right.Count();
    LongStart(left.Value(), right.Value(), i);
    while i > 0
      invariant r.Valid() && fresh(r) && LongPart(r.Value(), left.Value(), right.Value(), i)
    {
      i := i - 1;
      LongNext(r.Value(), left.Value(), right.Value(), i);
      MultiplyAndAdd(r, left, right.Get(i), i);
    }
    LongEnd(r.Value(), left.Value(), right.Value());
  }

  /** The digits of y from i on have been multiplied in. */
  ghost predicate LongPart(v: nat, x: nat, y: nat, i: nat)
  {
    v == x * ((y / Weight(i)) * Weight(i))
  }

  lemma LongStart(x: nat, y: nat, c: nat)
    requires y < Weight(c)
    ensures LongPart(0, x, y, c)
  {
    DigitBeyond(y, c, c);
  }

  lemma LongNext(v: nat, x: nat, y: nat, i: nat)
    requires LongPart(v, x, y, i + 1)
    ensures v + x * Digit(y, i) * Weight(i) >= 0
    ensures LongPart(v + x * Digit(y, i) * Weight(i), x, y, i)
  {
    DigitSplit(y, i);
    var h, d, p := y / Weight(i + 1), Digit(y, i), Weight(i);
    assert y / Weight(i) == h * BASE + d && Weight(i + 1) == BASE * p;
    hide Weight, Digit;
    LongAlgebra(x, h, d, p);
    MulNat(x, d);
    MulNat(x * d, p);
  }

  lemma LongAlgebra(x: int, h: int, d: int, p: int)
    ensures x * (h * (BASE * p)) + x * d * p == x * ((h * BASE + d) * p)
  {
    assert (h * BASE + d) * p == h * (BASE * p) + d * p;
    assert x * (h * (BASE * p) + d * p) == x * (h * (BASE * p)) + x * (d * p);
    assert x * (d * p) == x * d * p;
  }

  lemma LongEnd(v: nat, x: nat, y: nat)
    requires LongPart(v, x, y, 0)
    ensures v == x * y
  {
    assert Weight(0) == 1;
  }

  /** x is the longer operand: (xl + xh * P) * y from the two products. */
  method MultiplyBySplitting(x: BigUInt, y: BigUInt, limit: int) returns (r: BigUInt)
    requires x.Valid() && y.Valid() && 1 < x.Count()
    ensures fresh(r) && r.Valid() && r.Value() == x.Value() * y.Value()
    decreases x.Count() + y.Count(), 0
  {
    hide BigUInt.Valid, BigUInt.Value, BigUInt.Words, Weight, DigitCount;
    var xh, xl := x.Split();
    r := Multiply(xl, y, limit);
    var t := Multiply(xh, y, limit);
    Add(r, t, x.MiddleIndex());
    SplitProduct(xl.Value(), xh.Value(), y.Value(), Weight(x.MiddleIndex()));
  }

  lemma SplitProduct(l: int, h: int, y: int, p: int)
    ensures l * y + h * y * p == (l + h * p) * y
  {
  }

  /** |a - b|, as `a >= b ? a - b : b - a` computes it. */
  method Distance(a: BigUInt, b: BigUInt) returns (ordered: bool, d: BigUInt)
    requires a.Valid() && b.Valid()
    ensures ordered <==> a.Value() >= b.Value()
    ensures fresh(d) && d.Valid() && d.Value() == Abs(a.Value() - b.Value())
    ensures d.Count() <= a.Count() || d.Count() <= b.Count()
  {
    hide BigUInt.Valid, BigUInt.Value, BigUInt.Words, Weight;
    var less := Less(a, b);
    ordered := !less;
    if ordered {
      d := Difference(a, b);
    } else {
      d := Difference(b, a);
    }
    CountMono(d.Value(), d.Count(), a.Value(), a.Count(), b.Value(), b.Count());
  }

  lemma CountMono(v: nat, c: nat, a: nat, ca: nat, b: nat, cb: nat)
    requires DigitCount(v, c) && DigitCount(a, ca) && DigitCount(b, cb)
    requires v <= a || v <= b
    ensures c <= ca || c <= cb
  {
    hide Weight;
    if c > ca && c > cb {
      WeightMono(ca, c - 1);
      WeightMono(cb, c - 1);
    }
  }

  /** Three half-size products, recombined. */
  method Karatsuba(x: BigUInt, y: BigUInt, limit: int) returns (r: BigUInt)
    requires x.Valid() && y.Valid() && 1 < x.Count() == y.Count()
    ensures fresh(r) && r.Valid() && r.Value() == x.Value() * y.Value()
    decreases x.Count() + y.Count(), 0
  {
    hide BigUInt.Valid, BigUInt.Value, BigUInt.Words, BigUInt.Count, BigUInt.MiddleIndex, Weight, DigitCount, Abs, Recombined;
    var shift := x.MiddleIndex();
    var a, b := x.Split();
    var c, d := y.Split();
    var high := Multiply(a, c, limit);
    var low := Multiply(b, d, limit);
    var xp, xm := Distance(a, b);
    var yp, ym := Distance(c, d);
    var m := Multiply(xm, ym, limit);
    KaratsubaSum(a.Value(), b.Value(), c.Value(), d.Value(), Weight(shift), m.Value());
    r := Recombine(high, low, m, shift, xp == yp, high.Value(), low.Value(), m.Value(), Weight(shift));
  }

  /** low + (low + high -+ m) * P + high * P^2. */
  ghost function Recombined(high: int, low: int, m: int, p: int, same: bool): int
  {
    low + high * (p * p) + low * p + high * p + (if same then -(m * p) else m * p)
  }

  /** The final `subtract` is legal whenever the recombined number is not negative. */
  method Recombine(high: BigUInt, low: BigUInt, m: BigUInt, shift: nat, same: bool,
                   ghost h: nat, ghost l: nat, ghost d: nat, ghost p: nat) returns (r: BigUInt)
    requires high.Valid() && low.Valid() && m.Valid()
    requires h == high.Value() && l == low.Value() && d == m.Value() && p == Weight(shift)
    requires Recombined(h, l, d, p, same) >= 0
    ensures fresh(r) && r.Valid() && r.Value() == Recombined(h, l, d, p, same)
  {
    hide BigUInt.Valid, BigUInt.Value, BigUInt.Words, Weight;
    WeightAdd(shift, shift);
    r := new BigUInt.Copy(low);
    Add(r, high, 2 * shift);
    Add(r, low, shift);
    Add(r, high, shift);
    if same {
      Subtract(r, m, shift);
    } else {
      Add(r, m, shift);
    }
  }

  lemma KaratsubaSum(a: nat, b: nat, c: nat, d: nat, p: nat, m: int)
    requires m == Abs(a - b) * Abs(c - d)
    ensures Recombined(a * c, b * d, m, p, a >= b <==> c >= d) == (b + a * p) * (d + c * p)
    ensures (b + a * p) * (d + c * p) >= 0
  {
    DistanceProduct(a, b, c, d);
    hide Abs;
    MulNat(a, p);
    MulNat(c, p);
    MulNat(b + a * p, d + c * p);
    DifferenceProduct(a, b, c, d);
    KaratsubaAlgebra(a * c, a * d, b * c, b * d, p);
    ProductExpansion(a, b, c, d, p);
    var s := a * c - a * d - b * c + b * d;
    NegateProduct(s, p);
  }

  lemma DifferenceProduct(a: int, b: int, c: int, d: int)
    ensures (a - b) * (c - d) == a * c - a * d - b * c + b * d
  {
  }

  lemma DistanceProduct(a: nat, b: nat, c: nat, d: nat)
    ensures Abs(a - b) * Abs(c - d) == (if a >= b <==> c >= d then (a - b) * (c - d) else -((a - b) * (c - d)))
  {
    NegateProduct(a - b, c - d);
  }

  lemma NegateProduct(x: int, y: int)
    ensures (-x) * y == -(x * y) && x * (-y) == -(x * y) && (-x) * (-y) == x * y
  {
  }

  lemma KaratsubaAlgebra(ac: int, ad: int, bc: int, bd: int, p: int)
    ensures bd * p + ac * p - (ac - ad - bc + bd) * p == (ad + bc) * p
  {
  }

  lemma ProductExpansion(a: int, b: int, c: int, d: int, p: int)
    ensures (b + a * p) * (d + c * p) == b * d + (a * d + b * c) * p + a * c * (p * p)
  {
    assert (b + a * p) * (d + c * p) == b * d + b * (c * p) + (a * p) * d + (a * p) * (c * p);
    assert b * (c * p) == (b * c) * p;
    assert (a * p) * d == (a * d) * p;
    assert (a * p) * (c * p) == a * c * (p * p);
  }
}
