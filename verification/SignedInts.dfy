/** Signed integers: a sign and a magnitude. */
module SignedInts {
  import opened Arith
  import opened Digits
  import opened BigUInts
  import opened Comparison
  import opened Subtraction
  import opened Multiplication
  import opened Division
  import opened Exponentiation
  import opened Addition

  datatype Sign = Plus | Minus

  /** Zero is never negative. */
  datatype BigInt = BigInt(sign: Sign, magnitude: BigUInt) {
    ghost predicate Valid()
      reads magnitude
    {
      magnitude.Valid() && (sign == Minus ==> magnitude.Value() > 0)
    }

    ghost function Value(): int
      requires Valid()
      reads magnitude
    {
      if sign == Minus then 0 - magnitude.Value() else magnitude.Value()
    }
  }

  /** The number with this sign and magnitude. */
  function Make(sign: Sign, magnitude: BigUInt): (r: BigInt)
    requires magnitude.Valid()
    reads magnitude
    ensures r.Valid() && r.magnitude == magnitude
    ensures r.Value() == (if sign == Minus then 0 - magnitude.Value() else magnitude.Value())
  {
    BigInt(if magnitude.IsZero() then Plus else sign, magnitude)
  }

  method FromInt(value: int) returns (r: BigInt)
    requires -BASE < value < BASE
    ensures fresh(r.magnitude) && r.Valid() && r.Value() == value
  {
    var m := new BigUInt.FromWord(Abs(value));
    r := Make(if value < 0 then Minus else Plus, m);
  }

  /** a + b by the signs, always subtracting the smaller magnitude. */
  method SignedSum(a: BigInt, b: BigInt) returns (r: BigInt)
    requires a.Valid() && b.Valid()
    ensures fresh(r.magnitude) && r.Valid() && r.Value() == a.Value() + b.Value()
  {
    hide BigUInt.Valid, BigUInt.Value, BigUInt.Words;
    if a.sign == b.sign {
      var m := Addition.Sum(a.magnitude, b.magnitude);
      r := Make(a.sign, m);
    } else {
      var less := Less(a.magnitude, b.magnitude);
      var more := Less(b.magnitude, a.magnitude);
      if (a.sign == Plus && !less) || (a.sign == Minus && more) {
        var m := Difference(a.magnitude, b.magnitude);
        r := Make(a.sign, m);
      } else {
        var m := Difference(b.magnitude, a.magnitude);
        r := Make(b.sign, m);
      }
    }
  }

  method Negated(a: BigInt) returns (r: BigInt)
    requires a.Valid()
    ensures r.Valid() && r.magnitude == a.magnitude && r.Value() == -a.Value()
  {
    r := if a.magnitude.IsZero() then a else BigInt(if a.sign == Plus then Minus else Plus, a.magnitude);
  }

  method SignedDifference(a: BigInt, b: BigInt) returns (r: BigInt)
    requires a.Valid() && b.Valid()
    ensures fresh(r.magnitude) && r.Valid() && r.Value() == a.Value() - b.Value()
  {
    var n := Negated(b);
    r := SignedSum(a, n);
  }

  method SignedProduct(a: BigInt, b: BigInt) returns (r: BigInt)
    requires a.Valid() && b.Valid()
    ensures fresh(r.magnitude) && r.Valid() && r.Value() == a.Value() * b.Value()
  {
    hide BigUInt.Valid, BigUInt.Value, BigUInt.Words;
    var m := MultiplyBy(a.magnitude, b.magnitude);
    NegateProduct(a.magnitude.Value(), b.magnitude.Value());
    r := Make(if a.sign == b.sign then Plus else Minus, m);
  }

  /** Truncated division: the remainder has the sign of the dividend. */
  method SignedQuotientAndRemainder(x: BigInt, y: BigInt) returns (q: BigInt, r: BigInt)
    requires x.Valid() && y.Valid() && y.Value() != 0
    ensures q.Valid() && r.Valid() && fresh(q.magnitude) && fresh(r.magnitude)
    ensures x.Value() == q.Value() * y.Value() + r.Value()
    ensures Abs(r.Value()) < Abs(y.Value())
    ensures r.Value() == 0 || (r.Value() < 0 <==> x.Value() < 0)
  {
    hide BigUInt.Valid, BigUInt.Value, BigUInt.Words;
    var a := new BigUInt.Copy(x.magnitude);
    var b := new BigUInt.Copy(y.magnitude);
    ghost var xm, ym := x.magnitude.Value(), y.magnitude.Value();
    Divide(a, b);
    q := Make(if x.sign == y.sign then Plus else Minus, a);
    r := Make(x.sign, b);
    Truncated(xm, ym, a.Value(), b.Value());
  }

  /** The division equation for all four patterns of signs. */
  lemma Truncated(x: nat, y: nat, q: nat, r: nat)
    requires y > 0 && q == x / y && r == x % y
    ensures x == q * y + r && x == (0 - q) * (0 - y) + r
    ensures 0 - x == (0 - q) * y - r && 0 - x == q * (0 - y) - r
  {
    NegateProduct(q, y);
  }

  /** The representative of x modulo |m| that is not negative. */
  method Modulus(x: BigInt, m: BigInt) returns (r: BigInt)
    requires x.Valid() && m.Valid() && m.Value() != 0
    ensures r.Valid() && fresh(r.magnitude) && r.Value() == x.Value() % Abs(m.Value())
  {
    hide BigUInt.Valid, BigUInt.Value, BigUInt.Words;
    var remainder := Remainder(x.magnitude, m.magnitude);
    NegatedModulus(x.magnitude.Value(), m.magnitude.Value());
    if x.sign == Minus && !remainder.IsZero() {
      var d := Difference(m.magnitude, remainder);
      r := BigInt(Plus, d);
    } else {
      r := BigInt(Plus, remainder);
    }
  }

  lemma NegatedModulus(x: nat, m: nat)
    requires m > 0
    ensures (0 - x) % m == (if x % m == 0 then 0 else m - x % m)
  {
    var q, s := x / m, x % m;
    assert x == q * m + s;
    if s == 0 {
      DivModUnique(0 - x, 0 - q, 0, m);
    } else {
      assert (0 - q - 1) * m == 0 - q * m - m;
      DivModUnique(0 - x, 0 - q - 1, m - s, m);
    }
  }
}
