/** Constant-time multiplication: odd digits only, table lookups that touch every entry. */
module EcmultConst {
  import opened Arith
  import opened MachineInts
  import opened Groups
  import opened Scalars
  import opened SplitLambda
  import opened Wnaf
  import opened Ecmult

  /** The odd multiple that a digit selects, by a pass over the whole table. */
  method ConstTableGet<T(!new)>(c: Curve<T>, pre: seq<T>, n: int, w: nat, ghost p: T) returns (r: T)
    requires Abelian(c.group) && w >= 2 && OddMultiples(c.group, pre, p, w)
    requires n % 2 == 1 && Abs(n) < Pow2(w - 1)
    ensures r == Times(c.group, n, p)
  {
    hide Abelian, Pow2, Times;
    HalfDigit(n, w);
    var absN := Abs(n);
    var idx := absN / 2;
    OddHalf(absN);
    r := pre[0];
    for m := 1 to TableSize(w)
      invariant r == if idx < m then pre[idx] else pre[0]
    {
      if m == idx { r := pre[m]; }
    }
    if n != absN {
      TimesNext(c.group, 0 - n, p);
      r := c.group.neg(r);
    }
  }

  lemma OddHalf(n: nat)
    ensures n % 2 == 1 ==> n / 2 == (n - 1) / 2
  {
  }

  /** The digits of one half, over a table of the point p. */
  ghost predicate Half<T(!new)>(g: Group<T>, d: seq<int>, table: seq<T>, p: T)
  {
    OddDigits(d, Pow2(WINDOW_A - 1)) && OddMultiples(g, table, p, WINDOW_A)
  }

  lemma HalfDigitAt<T(!new)>(g: Group<T>, d: seq<int>, table: seq<T>, p: T, i: nat)
    requires Half(g, d, table, p) && i < |d|
    ensures d[i] % 2 == 1 && Abs(d[i]) < Pow2(WINDOW_A - 1) && OddMultiples(g, table, p, WINDOW_A)
    ensures Weighted(d, i, Pow2(WINDOW_A - 1)) == d[i] + Pow2(WINDOW_A - 1) * Weighted(d, i + 1, Pow2(WINDOW_A - 1))
  {
  }

  /** What the accumulator holds for the digits from i on. */
  function Upper<T>(g: Group<T>, d1: seq<int>, d2: seq<int>, i: nat, p: T, q: T): T
  {
    g.add(Times(g, Weighted(d1, i, Pow2(WINDOW_A - 1)), p), Times(g, Weighted(d2, i, Pow2(WINDOW_A - 1)), q))
  }

  lemma UpperIs<T>(g: Group<T>, d1: seq<int>, d2: seq<int>, i: nat, p: T, q: T)
    ensures Upper(g, d1, d2, i, p, q) == g.add(Times(g, Weighted(d1, i, 16), p), Times(g, Weighted(d2, i, 16), q))
  {
    hide Times, Weighted;
    assert Pow2(1) == 2 && Pow2(2) == 4 && Pow2(3) == 8 && Pow2(4) == 16;
  }

  lemma UpperStep<T(!new)>(g: Group<T>, d1: seq<int>, d2: seq<int>, i: nat, p: T, q: T, x: int, y: int)
    requires Abelian(g)
    requires Weighted(d1, i, Pow2(WINDOW_A - 1)) == x + Pow2(WINDOW_A - 1) * Weighted(d1, i + 1, Pow2(WINDOW_A - 1))
    requires Weighted(d2, i, Pow2(WINDOW_A - 1)) == y + Pow2(WINDOW_A - 1) * Weighted(d2, i + 1, Pow2(WINDOW_A - 1))
    ensures g.add(g.add(Times(g, Pow2(WINDOW_A - 1), Upper(g, d1, d2, i + 1, p, q)), Times(g, x, p)), Times(g, y, q))
         == Upper(g, d1, d2, i, p, q)
  {
    hide Abelian, Times, Weighted, Pow2;
    var b := Pow2(WINDOW_A - 1);
    var u, v := Weighted(d1, i + 1, b), Weighted(d2, i + 1, b);
    var up, vq := Times(g, u, p), Times(g, v, q);
    TimesPoints(g, b, up, vq);
    TimesProduct(g, b, u, p);
    TimesProduct(g, b, v, q);
    var bu, bv := Times(g, b * u, p), Times(g, b * v, q);
    var xp, yq := Times(g, x, p), Times(g, y, q);
    Assoc(g, g.add(bu, bv), xp, yq);
    Swap4(g, bu, bv, xp, yq);
    TimesSum(g, b * u, x, p);
    TimesSum(g, b * v, y, q);
  }

  /** No digits for the second half. */
  lemma UpperEmpty<T(!new)>(g: Group<T>, d: seq<int>, i: nat, p: T, q: T)
    requires Abelian(g)
    ensures Weighted([], i, Pow2(WINDOW_A - 1)) == 0 && Times(g, 0, q) == g.zero
    ensures Upper(g, d, [], i, p, q) == Times(g, Weighted(d, i, Pow2(WINDOW_A - 1)), p)
    ensures forall x: T :: g.add(x, g.zero) == x
  {
    hide Abelian, Weighted;
    assert Weighted([], i, Pow2(WINDOW_A - 1)) == 0 by { WeightedZeros([], i, Pow2(WINDOW_A - 1)); }
    forall x: T ensures g.add(x, g.zero) == x { Zero(g, x); }
  }

  /** The digits from the top down: four doublings, then one addition for each half. The second
      half is missing when the scalar is known to be short. */
  method SumDigits<T(!new)>(c: Curve<T>, d1: seq<int>, t1: seq<T>, d2: seq<int>, t2: seq<T>, split: bool, ghost p: T, ghost q: T)
    returns (r: T)
    requires Abelian(c.group) && |d1| > 0 && Half(c.group, d1, t1, p)
    requires if split then |d2| == |d1| && Half(c.group, d2, t2, q) else d2 == []
    ensures r == Upper(c.group, d1, d2, 0, p, q)
  {
    hide Abelian, Times, Weighted, Pow2, OddMultiples, OddDigits, Half;
    ghost var g := c.group;
    var i := |d1| - 1;
    r := TopDigits(c, d1, t1, d2, t2, split, p, q);
    while i > 0
      invariant 0 <= i < |d1| && r == Upper(g, d1, d2, i, p, q)
    {
      i := i - 1;
      HalfDigitAt(g, d1, t1, p, i);
      r := DoubleTimes(c.group, r, WINDOW_A - 1);
      var tmpa := ConstTableGet(c, t1, d1[i], WINDOW_A, p);
      r := c.group.add(r, tmpa);
      if split {
        HalfDigitAt(g, d2, t2, q, i);
        tmpa := ConstTableGet(c, t2, d2[i], WINDOW_A, q);
        r := c.group.add(r, tmpa);
        UpperStep(g, d1, d2, i, p, q, d1[i], d2[i]);
      } else {
        UpperEmpty(g, d1, i, p, q);
        UpperEmpty(g, d1, i + 1, p, q);
        UpperStep(g, d1, d2, i, p, q, d1[i], 0);
      }
    }
  }

  method TopDigits<T(!new)>(c: Curve<T>, d1: seq<int>, t1: seq<T>, d2: seq<int>, t2: seq<T>, split: bool, ghost p: T, ghost q: T)
    returns (r: T)
    requires Abelian(c.group) && |d1| > 0 && Half(c.group, d1, t1, p)
    requires if split then |d2| == |d1| && Half(c.group, d2, t2, q) else d2 == []
    ensures r == Upper(c.group, d1, d2, |d1| - 1, p, q)
  {
    hide Abelian, Times, Weighted, Pow2, OddMultiples, OddDigits, Half;
    ghost var g := c.group;
    var i := |d1| - 1;
    HalfDigitAt(g, d1, t1, p, i);
    NoDigits(d1, i + 1);
    r := ConstTableGet(c, t1, d1[i], WINDOW_A, p);
    if split {
      HalfDigitAt(g, d2, t2, q, i);
      NoDigits(d2, i + 1);
      var tmpa := ConstTableGet(c, t2, d2[i], WINDOW_A, q);
      r := c.group.add(r, tmpa);
    } else {
      UpperEmpty(g, d1, i, p, q);
    }
  }

  lemma NoDigits(d: seq<int>, i: nat)
    requires i >= |d|
    ensures Pow2(WINDOW_A - 1) * Weighted(d, i, Pow2(WINDOW_A - 1)) == 0
  {
  }

  /** Take the skew back: subtract the point when the recoded number was one too large. */
  method FixSkew<T(!new)>(c: Curve<T>, r0: T, p: T, skew: int, ghost k: int, ghost rest: T) returns (r: T)
    requires Abelian(c.group) && (skew == 0 || skew == 1) && r0 == c.group.add(Times(c.group, k, p), rest)
    ensures r == c.group.add(Times(c.group, k - skew, p), rest)
  {
    hide Abelian, Times;
    ghost var g := c.group;
    var tmpa := c.group.neg(p);
    var tmpj := c.group.add(r0, tmpa);
    r := if skew == 1 then tmpj else r0;
    ghost var kp := Times(g, k, p);
    Assoc(g, kp, rest, tmpa);
    Comm(g, rest, tmpa);
    Assoc(g, kp, tmpa, rest);
    TimesNeg(g, 1, p);
    TimesSum(g, k, -1, p);
  }

  /** Short halves recode within 128 bits. */
  lemma HalvesFit(r: nat, bound: nat)
    requires ShortModulo(r, bound) && r < N && bound <= TWO128
    ensures HalfMagnitude(r) < Pow2(128) && (HalfMagnitude(r) < TWO128)
  {
    Pow2Of128();
  }

  lemma Pow2Of128()
    ensures Pow2(128) == TWO128
  {
    PowersOfTwo();
    Pow2Add(64, 64);
  }

  lemma CenteredMod(r: nat)
    requires r < N
    ensures Centered(r) % N == r
  {
    if r > N / 2 { DivModUnique(r - N, -1, r, N); } else { DivModUnique(r, 0, r, N); }
  }

  /** The recoding of one half, with a table of its point. */
  method Recode<T(!new)>(c: Curve<T>, s: Scalar, size: nat, table: seq<T>, ghost p: T) returns (d: seq<int>, skew: int)
    requires s.Reduced() && size > 0 && HalfMagnitude(s.Val()) < Pow2(size) && OddMultiples(c.group, table, p, WINDOW_A)
    ensures Half(c.group, d, table, p) && |d| == WnafSizeBits(size, WINDOW_A - 1) + 1
    ensures (skew == 0 || skew == 1) && Weighted(d, 0, Pow2(WINDOW_A - 1)) - skew == Centered(s.Val())
  {
    hide OddMultiples, OddDigits, Weighted, Scalar.Val, Pow2;
    var wnaf := new int[WnafSizeBits(size, WINDOW_A - 1) + 1](_ => 0);
    skew := WnafConst(wnaf, s, WINDOW_A - 1, size);
    d := wnaf[..];
  }

  /** secp256k1_ecmult_const. For `size` up to 128 the scalar must be that short, up to sign. */
  method EcmultConst<T(!new)>(c: Curve<T>, a: T, scalar: Scalar, size: nat) returns (r: T)
    requires ValidCurve(c) && scalar.Reduced() && size > 0
    requires size <= 128 ==> HalfMagnitude(scalar.Val()) < Pow2(size)
    ensures r == Times(c.group, scalar.Val(), a)
  {
    hide ValidCurve, Abelian, Times, OddMultiples, Half, Weighted, Scalar.Val, Pow2, Upper, ShortModulo, HalfMagnitude;
    CurveGroup(c);
    var pre := OddMultiplesTable(c, WINDOW_A, a);
    if size > 128 {
      r := SplitProduct(c, a, scalar, pre);
    } else {
      r := ShortProduct(c, a, scalar, size, pre);
    }
  }

  method SplitProduct<T(!new)>(c: Curve<T>, a: T, scalar: Scalar, pre: seq<T>) returns (r: T)
    requires ValidCurve(c) && scalar.Reduced() && OddMultiples(c.group, pre, a, WINDOW_A)
    ensures r == Times(c.group, scalar.Val(), a)
  {
    hide ValidCurve, Abelian, Times, OddMultiples, Half, Weighted, Scalar.Val, Pow2, ShortModulo, HalfMagnitude, Centered;
    hide WnafSizeBits;
    CurveGroup(c);
    ghost var g, la := c.group, c.lambda(a);
    var q1, qLam := Split(scalar);
    HalvesFit(q1.Val(), K1_BOUND);
    HalvesFit(qLam.Val(), K2_BOUND);
    var d1, skew1 := Recode(c, q1, 128, pre, a);
    var preLam := LambdaTable(c, pre, WINDOW_A, a);
    var dLam, skewLam := Recode(c, qLam, 128, preLam, la);
    r := SumDigits(c, d1, pre, dLam, preLam, true, a, la);
    ghost var b := Pow2(WINDOW_A - 1);
    ghost var w1, wLam := Weighted(d1, 0, b), Weighted(dLam, 0, b);
    FirstMultiple(g, pre, a);
    FirstMultiple(g, preLam, la);
    r := FixSkew(c, r, pre[0], skew1, w1, Times(g, wLam, la));
    Comm(g, Times(g, w1 - skew1, a), Times(g, wLam, la));
    r := FixSkew(c, r, preLam[0], skewLam, wLam, Times(g, w1 - skew1, a));
    Comm(g, Times(g, wLam - skewLam, la), Times(g, w1 - skew1, a));
    CenteredMultiple(c, w1 - skew1, q1.Val(), a);
    CenteredMultiple(c, wLam - skewLam, qLam.Val(), la);
    SplitMultiple(c, scalar.Val(), q1.Val(), qLam.Val(), a);
  }

  /** The centred representative gives the same multiple. */
  lemma CenteredMultiple<T(!new)>(c: Curve<T>, k: int, r: nat, p: T)
    requires ValidCurve(c) && r < N && k == Centered(r)
    ensures Times(c.group, k, p) == Times(c.group, r, p)
  {
    hide ValidCurve, Times;
    CenteredMod(r);
    DivModUnique(r, 0, r, N);
    TimesMod(c, k, r, p);
  }

  method ShortProduct<T(!new)>(c: Curve<T>, a: T, scalar: Scalar, size: nat, pre: seq<T>) returns (r: T)
    requires ValidCurve(c) && scalar.Reduced() && 0 < size && HalfMagnitude(scalar.Val()) < Pow2(size)
    requires OddMultiples(c.group, pre, a, WINDOW_A)
    ensures r == Times(c.group, scalar.Val(), a)
  {
    hide ValidCurve, Abelian, Times, OddMultiples, Half, Weighted, Scalar.Val, Pow2, HalfMagnitude, Centered;
    hide WnafSizeBits;
    CurveGroup(c);
    ghost var g := c.group;
    var d1, skew1 := Recode(c, scalar, size, pre, a);
    r := SumDigits(c, d1, pre, [], [], false, a, a);
    FirstMultiple(g, pre, a);
    UpperEmpty(g, d1, 0, a, a);
    ghost var w1 := Weighted(d1, 0, Pow2(WINDOW_A - 1));
    Zero(g, Times(g, w1, a));
    Zero(g, Times(g, w1 - skew1, a));
    r := FixSkew(c, r, pre[0], skew1, w1, g.zero);
    CenteredMod(scalar.Val());
    ReducedMod(scalar);
    TimesMod(c, w1 - skew1, scalar.Val(), a);
  }

  lemma ReducedMod(s: Scalar)
    requires s.Reduced()
    ensures s.Val() % N == s.Val()
  {
    hide Scalar.Val;
    DivModUnique(s.Val(), 0, s.Val(), N);
  }

  lemma FirstMultiple<T(!new)>(g: Group<T>, pre: seq<T>, p: T)
    requires Abelian(g) && OddMultiples(g, pre, p, WINDOW_A)
    ensures |pre| > 0 && pre[0] == p
  {
    hide Abelian, Times;
    TimesNeg(g, 1, p);
    assert pre[0] == Times(g, 2 * 0 + 1, p);
  }
}
