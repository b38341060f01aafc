/** Comparison by digit count, then from the top digit down. */
module Comparison {
  import opened Arith
  import opened Digits
  import opened BigUInts

  datatype Ordering = Ascending | Same | Descending

  function OrderOf(a: int, b: int): Ordering
  {
    if a < b then Ascending else if a == b then Same else Descending
  }

  method Compare(a: BigUInt, b: BigUInt) returns (r: Ordering)
    requires a.Valid() && b.Valid()
    ensures r == OrderOf(a.Value(), b.Value())
    ensures (r == Ascending <==> a.Value() < b.Value()) && (r == Descending <==> a.Value() > b.Value())
  {
    hide BigUInt.Valid, BigUInt.Value, BigUInt.Words, Weight, Digit, At;
    ghost var va, vb := a.Value(), b.Value();
    if a.Count() != b.Count() {
      CountOrder(va, a.Count(), vb, b.Count());
      return if a.Count() > b.Count() then Descending else Ascending;
    }
    var i := a.Count();
    DigitBeyond(va, i, i);
    DigitBeyond(vb, i, i);
    while i > 0
      invariant va / Weight(i) == vb / Weight(i)
    {
      i := i - 1;
      var ad, bd := a.Get(i), b.Get(i);
      DigitSplit(va, i);
      DigitSplit(vb, i);
      if ad != bd {
        QuotientOrder(va, vb, Weight(i));
        return if ad > bd then Descending else Ascending;
      }
    }
    assert Weight(0) == 1 by { WeightZero(); }
    return Same;
  }

  lemma WeightZero()
    ensures Weight(0) == 1
  {
  }

  lemma QuotientOrder(a: int, b: int, m: int)
    requires m > 0
    ensures a / m < b / m ==> a < b
    ensures a / m > b / m ==> a > b
  {
    var x, y := a / m, b / m;
    assert a == x * m + a % m && b == y * m + b % m;
    if x < y { MulMono(x + 1, y, m); }
    if x > y { MulMono(y + 1, x, m); }
  }

  /** More digits, larger number. */
  lemma CountOrder(a: nat, ca: nat, b: nat, cb: nat)
    requires DigitCount(a, ca) && DigitCount(b, cb)
    ensures ca < cb ==> a < b
    ensures ca > cb ==> a > b
  {
    hide Weight;
    if ca < cb { WeightMono(ca, cb - 1); }
    if cb < ca { WeightMono(cb, ca - 1); }
  }

  method Less(a: BigUInt, b: BigUInt) returns (r: bool)
    requires a.Valid() && b.Valid()
    ensures r <==> a.Value() < b.Value()
  {
    var c := Compare(a, b);
    r := c == Ascending;
  }

  method Equal(a: BigUInt, b: BigUInt) returns (r: bool)
    requires a.Valid() && b.Valid()
    ensures r <==> a.Value() == b.Value()
  {
    var c := Compare(a, b);
    r := c == Same;
  }
}
