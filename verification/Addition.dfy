/** Addition in place. A second operand is a value in the source; here it is a distinct object. */
module Addition {
  import opened Digits
  import opened BigUInts
  import opened WordOps

  /** x += word * BASE^shift. */
  method AddWord(x: BigUInt, word: Word, shift: nat)
    requires x.Valid()
    modifies x
    ensures x.Valid() && x.Value() == old(x.Value()) + word * Weight(shift)
  {
    hide BigUInt.Valid, BigUInt.Value, BigUInt.Words, Weight, Digit, At, Put, Carried;
    var carry: Word := word;
    var i := 0;
    ghost var v0, m := x.Value(), x.Count();
    ghost var sum := v0 + word * Weight(shift);
    CarriedStartWord(v0, word, shift);
    WordSumBound(v0, word, shift, m);
    while carry > 0
      invariant x.Valid() && Carried(x.Value(), sum, 0, 0, shift, i, carry)
      decreases m + shift + 3 - i
    {
      CarryReach(x.Value(), sum, 0, 0, shift, i, 0, m + shift + 2, carry);
      var (d, c) := AddingReportingOverflow(x.Get(shift + i), carry);
      ghost var v := x.Value();
      PutKeeps(v, shift + i, d);
      CarriedNext(v, sum, 0, 0, shift, i, carry, if c then 1 else 0, d);
      x.Set(shift + i, d);
      carry := if c then 1 else 0;
      i := i + 1;
    }
    assert 0 < Weight(0);
    CarriedEnd(x.Value(), sum, 0, 0, shift, i, 0, 0);
  }

  lemma WordSumBound(v: nat, word: Word, shift: nat, m: nat)
    requires v < Weight(m)
    ensures 0 <= v + word * Weight(shift) < Weight(m + shift + 2)
  {
    hide Weight;
    WeightMono(m, m + shift + 1);
    WeightMono(shift + 1, m + shift + 1);
    WeightStep(shift);
    WeightStep(m + shift + 1);
    NextDigitBound(0, word, Weight(shift));
  }

  /** x += b * BASE^shift. */
  method Add(x: BigUInt, b: BigUInt, shift: nat)
    requires x.Valid() && b.Valid() && x != b
    modifies x
    ensures x.Valid() && x.Value() == old(x.Value()) + b.Value() * Weight(shift)
  {
    hide BigUInt.Valid, BigUInt.Value, BigUInt.Words, Weight, Digit, At, Put, Carried;
    var carry := false;
    var bi := 0;
    var bc := b.Count();
    ghost var v0, vb, m := x.Value(), b.Value(), x.Count();
    CarriedStart(v0, vb, 1, shift);
    while bi < bc || carry
      invariant x.Valid() && Carried(x.Value(), v0, vb, 1, shift, bi, Unit(carry))
      invariant carry && bi >= bc ==> shift + bi <= bc + shift + 1 || shift + bi <= m
      decreases bc + m + shift + 2 - bi
    {
      var ai := shift + bi;
      ghost var v := x.Value();
      var (d, c) := AddingReportingOverflow(x.Get(ai), b.Get(bi));
      ghost var carry0 := carry;
      if carry {
        var (d2, c2) := AddingReportingOverflow(d, 1);
        PutKeeps(v, ai, d2);
        CarriedNext(v, v0, vb, 1, shift, bi, 1, Unit(c || c2), d2);
        x.Set(ai, d2);
        carry := c || c2;
      } else {
        PutKeeps(v, ai, d);
        CarriedNext(v, v0, vb, 1, shift, bi, 0, Unit(c), d);
        x.Set(ai, d);
        carry := c;
      }
      bi := bi + 1;
      if carry && bi >= bc {
        CarryReach(x.Value(), v0, vb, 1, shift, bi, bc, m, 1);
      }
    }
    CarriedEnd(x.Value(), v0, vb, 1, shift, bi, bc, 0);
  }

  function Unit(carry: bool): int { if carry then 1 else 0 }

  /** a + b as a new integer. */
  method Sum(a: BigUInt, b: BigUInt) returns (r: BigUInt)
    requires a.Valid() && b.Valid()
    ensures fresh(r) && r.Valid() && r.Value() == a.Value() + b.Value()
  {
    r := new BigUInt.Copy(a);
    Add(r, b, 0);
    assert Weight(0) == 1;
  }
}
