/** Subtraction in place, with the borrow reported. */
module Subtraction {
  import opened Arith
  import opened Digits
  import opened BigUInts
  import opened WordOps

  function Borrow(carry: bool): int { if carry then -1 else 0 }

  /** x -= b * BASE^shift. The flag tells exactly whether the true difference is negative, and
      x then holds its two's complement over the digits the loop has visited. */
  method SubtractReportingOverflow(x: BigUInt, b: BigUInt, shift: nat) returns (overflow: bool)
    requires x.Valid() && b.Valid() && x != b
    modifies x
    ensures x.Valid()
    ensures overflow <==> old(x.Value()) < b.Value() * Weight(shift)
    ensures x.Value() == old(x.Value()) - b.Value() * Weight(shift)
                         + (if overflow then Weight(Max(old(x.Count()), shift + b.Count())) else 0)
  {
    hide BigUInt.Valid, BigUInt.Value, BigUInt.Words, Weight, Digit, At, Put, Carried, Untouched;
    var carry := false;
    var bi := 0;
    var bc := b.Count();
    var count := x.Count();
    ghost var v0, vb := x.Value(), b.Value();
    CarriedStart(v0, vb, -1, shift);
    UntouchedStart(v0, shift);
    while bi < bc || (shift + bi < count && carry)
      invariant x.Valid() && Carried(x.Value(), v0, vb, -1, shift, bi, Borrow(carry))
      invariant Untouched(x.Value(), v0, shift + bi)
      invariant bi <= bc || shift + bi <= count
      decreases bc + count - bi
    {
      var ai := shift + bi;
      ghost var v := x.Value();
      var (d, c) := SubtractingReportingOverflow(x.Get(ai), b.Get(bi));
      if carry {
        var (d2, c2) := SubtractingReportingOverflow(d, 1);
        PutKeeps(v, ai, d2);
        UntouchedNext(v, v0, ai, d2);
        CarriedNext(v, v0, vb, -1, shift, bi, -1, Borrow(c || c2), d2);
        x.Set(ai, d2);
        carry := c || c2;
      } else {
        PutKeeps(v, ai, d);
        UntouchedNext(v, v0, ai, d);
        CarriedNext(v, v0, vb, -1, shift, bi, 0, Borrow(c), d);
        x.Set(ai, d);
        carry := c;
      }
      bi := bi + 1;
      assert shift + bi == ai + 1;
    }
    overflow := carry;
    SubtractionEnd(x.Value(), v0, vb, shift, bi, bc, count, carry);
  }

  lemma SubtractionEnd(v: nat, v0: nat, b: nat, shift: nat, bi: nat, bc: nat, count: nat, carry: bool)
    requires Carried(v, v0, b, -1, shift, bi, Borrow(carry)) && Untouched(v, v0, shift + bi)
    requires b < Weight(bc) && v0 < Weight(count)
    requires bi >= bc && (bi <= bc || shift + bi <= count) && (carry ==> shift + bi >= count)
    ensures carry <==> v0 < b * Weight(shift)
    ensures v == v0 - b * Weight(shift) + (if carry then Weight(Max(count, shift + bc)) else 0)
  {
    hide Weight;
    CarriedEnd(v, v0, b, -1, shift, bi, bc, Borrow(carry));
    hide Carried;
    MulNat(b, Weight(shift));
    NegateFactor(b, Weight(shift));
    BorrowSign(v, v0, b * Weight(shift), shift + bi, count, carry);
  }

  lemma NegateFactor(b: int, w: int)
    ensures -1 * b * w == 0 - b * w
  {
  }

  lemma BorrowSign(v: nat, v0: nat, s: nat, i: nat, count: nat, carry: bool)
    requires v == v0 - s - Borrow(carry) * Weight(i)
    requires v / Weight(i) == v0 / Weight(i)
    requires v0 < Weight(count) && (carry ==> count <= i)
    ensures carry <==> v0 < s
  {
    if carry {
      hide Weight;
      WeightMono(count, i);
      DivModUnique(v0, 0, v0, Weight(i));
      DivModUnique(v, v / Weight(i), v % Weight(i), Weight(i));
    }
  }

  /** x -= b * BASE^shift; the source traps on a negative difference. */
  method Subtract(x: BigUInt, b: BigUInt, shift: nat)
    requires x.Valid() && b.Valid() && x != b
    requires x.Value() >= b.Value() * Weight(shift)
    modifies x
    ensures x.Valid() && x.Value() == old(x.Value()) - b.Value() * Weight(shift)
  {
    var overflow := SubtractReportingOverflow(x, b, shift);
  }

  /** a - b as a new integer. */
  method Difference(a: BigUInt, b: BigUInt) returns (r: BigUInt)
    requires a.Valid() && b.Valid() && a.Value() >= b.Value()
    ensures fresh(r) && r.Valid() && r.Value() == a.Value() - b.Value()
  {
    r := new BigUInt.Copy(a);
    assert Weight(0) == 1;
    Subtract(r, b, 0);
  }
}
