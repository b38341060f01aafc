/** Integer square root by Newton's method. */
module SquareRoot {
  import opened Arith
  import opened BigUInts
  import opened Shifts
  import opened WordDivision
  import opened Comparison
  import opened Addition
  import opened Subtraction
  import opened Division

  /** The floor of the square root. */
  ghost predicate IsRoot(s: nat, n: nat)
  {
    s * s <= n < (s + 1) * (s + 1)
  }

  /** One Newton step from x. */
  function Newton(n: nat, x: nat): nat
    requires x > 0
  {
    FloorBounds(n, x);
    (n / x + x) / 2
  }

  lemma {:induction false} RootExists(n: nat) returns (s: nat)
    ensures IsRoot(s, n)
  {
    if n == 0 {
      s := 0;
    } else {
      s := RootExists(n - 1);
      if (s + 1) * (s + 1) <= n { s := s + 1; }
    }
  }

  lemma SquareMono(a: int, b: int)
    requires 0 <= a <= b
    ensures a * a <= b * b
  {
    MulMono(a, b, a);
    MulMono(a, b, b);
  }

  /** A step from anywhere at or above the root stays there. */
  lemma NewtonAbove(n: nat, x: nat, s: nat)
    requires x >= s && IsRoot(s, n) && x > 0
    ensures Newton(n, x) >= s
  {
    var q := n / x;
    FloorBounds(n, x);
    var y := Newton(n, x);
    if y < s {
      assert q + x <= 2 * s - 1;
      SquareGap(s, x);
      MulMono(q + 1, 2 * s - x, x);
      assert false;
    }
  }

  lemma SquareGap(s: int, x: int)
    ensures (2 * s - x) * x <= s * s
  {
    var d := s - x;
    assert d * d >= 0;
    assert (2 * s - x) * x == s * s - d * d;
  }

  /** The loop stops at the root: a step that does not go down can only go up by one. */
  lemma NewtonStops(n: nat, x: nat, s: nat)
    requires x >= s && IsRoot(s, n) && x > 0
    ensures Newton(n, x) >= x ==> x == s && (Newton(n, x) == x || Newton(n, x) == x + 1)
    ensures n > 0 ==> Newton(n, x) >= 1
  {
    var q := n / x;
    FloorBounds(n, x);
    if Newton(n, x) >= x {
      assert q >= x;
      MulMono(x, q, x);
      if x > s { SquareMono(s + 1, x); }
      assert x == s;
      assert (s + 1) * (s + 1) == s * s + 2 * s + 1 && (s + 3) * s == s * s + 3 * s;
      if q >= s + 3 { MulMono(s + 3, q, s); }
    }
    if n > 0 && x == 1 { assert q == n; }
  }

  lemma RootBelow(n: nat, s: nat, w: nat)
    requires IsRoot(s, n) && n < Pow2(w)
    ensures s <= Pow2((w + 1) / 2)
  {
    var k := (w + 1) / 2;
    Pow2Add(k, k);
    Pow2Mono(w, k + k);
    if s > Pow2(k) { SquareMono(Pow2(k), s); }
  }

  method Root(n: BigUInt) returns (x: BigUInt)
    requires n.Valid()
    ensures fresh(x) && x.Valid() && IsRoot(x.Value(), n.Value())
    ensures x.Value() * x.Value() <= n.Value() < (x.Value() + 1) * (x.Value() + 1)
  {
    x := RootByNewton(n);
    RootMeans(x.Value(), n.Value());
  }

  lemma RootMeans(s: nat, n: nat)
    requires IsRoot(s, n)
    ensures s * s <= n < (s + 1) * (s + 1)
  {
  }

  method RootByNewton(n: BigUInt) returns (x: BigUInt)
    requires n.Valid()
    ensures fresh(x) && x.Valid() && IsRoot(x.Value(), n.Value())
  {
    hide BigUInt.Valid, BigUInt.Value, BigUInt.Words, BigUInt.Count, IsRoot, Newton, BitLength, BitWidth, Pow2;
    ghost var nv := n.Value();
    ghost var s := RootExists(nv);
    if n.IsZero() {
      RootOfZero();
      x := new BigUInt();
      return;
    }
    RootBelow(nv, s, BitWidth(n));
    var one := new BigUInt.FromWord(1);
    x := ShiftedLeft(one, (BitWidth(n) + 1) / 2);
    var y := new BigUInt();
    while true
      invariant x.Valid() && y.Valid() && fresh(x) && fresh(y) && x != y && one.Valid() && one.Value() == 1
      invariant n.Valid() && n.Value() == nv && x.Value() >= s && x.Value() > 0
      decreases x.Value()
    {
      y := NewtonStep(n, x);
      NewtonAbove(nv, x.Value(), s);
      NewtonStops(nv, x.Value(), s);
      var same := Equal(x, y);
      if same { break; }
      var less := Difference(y, one);
      same := Equal(x, less);
      if same { break; }
      x := new BigUInt.Copy(y);
    }
  }

  lemma RootOfZero()
    ensures IsRoot(0, 0)
  {
  }

  method NewtonStep(n: BigUInt, x: BigUInt) returns (y: BigUInt)
    requires n.Valid() && x.Valid() && x.Value() > 0
    ensures fresh(y) && y.Valid() && y.Value() == Newton(n.Value(), x.Value())
  {
    hide BigUInt.Valid, BigUInt.Value, BigUInt.Words;
    y := Quotient(n, x);
    WeightZero();
    Add(y, x, 0);
    assert Pow2(1) == 2;
    ShiftRight(y, 1);
  }
}
