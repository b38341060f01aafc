/** Commutative groups and linear combinations in them. */
module Groups {
  import opened Arith

  datatype Group<!T> = Group(zero: T, add: (T, T) -> T, neg: T -> T)

  predicate CommutesAt<T(==)>(g: Group<T>, a: T, b: T) { g.add(a, b) == g.add(b, a) }

  predicate AssociatesAt<T(==)>(g: Group<T>, a: T, b: T, c: T) { g.add(g.add(a, b), c) == g.add(a, g.add(b, c)) }

  predicate UnitAt<T(==)>(g: Group<T>, a: T) { g.add(a, g.zero) == a && g.add(a, g.neg(a)) == g.zero }

  ghost predicate Abelian<T(!new)>(g: Group<T>)
  {
    && (forall a, b :: CommutesAt(g, a, b))
    && (forall a, b, c :: AssociatesAt(g, a, b, c))
    && (forall a :: UnitAt(g, a))
  }

  /** k times p, for any integer k. */
  function Times<T>(g: Group<T>, k: int, p: T): T
    decreases if k < 0 then 1 - k else k
  {
    if k == 0 then g.zero
    else if k > 0 then g.add(Times(g, k - 1, p), p)
    else g.neg(Times(g, 0 - k, p))
  }

  lemma Comm<T(!new)>(g: Group<T>, a: T, b: T)
    requires Abelian(g)
    ensures g.add(a, b) == g.add(b, a)
  {
    assert CommutesAt(g, a, b);
  }

  lemma Assoc<T(!new)>(g: Group<T>, a: T, b: T, c: T)
    requires Abelian(g)
    ensures g.add(g.add(a, b), c) == g.add(a, g.add(b, c))
  {
    assert AssociatesAt(g, a, b, c);
  }

  lemma Zero<T(!new)>(g: Group<T>, a: T)
    requires Abelian(g)
    ensures g.add(a, g.zero) == a && g.add(g.zero, a) == a
    ensures g.add(a, g.neg(a)) == g.zero && g.add(g.neg(a), a) == g.zero
  {
    assert UnitAt(g, a) && CommutesAt(g, a, g.zero) && CommutesAt(g, a, g.neg(a));
  }

  lemma Swap4<T(!new)>(g: Group<T>, a: T, b: T, c: T, d: T)
    requires Abelian(g)
    ensures g.add(g.add(a, b), g.add(c, d)) == g.add(g.add(a, c), g.add(b, d))
  {
    hide Abelian;
    calc {
      g.add(g.add(a, b), g.add(c, d));
      { Assoc(g, a, b, g.add(c, d)); }
      g.add(a, g.add(b, g.add(c, d)));
      { Assoc(g, b, c, d); Comm(g, b, c); Assoc(g, c, b, d); }
      g.add(a, g.add(c, g.add(b, d)));
      { Assoc(g, a, c, g.add(b, d)); }
      g.add(g.add(a, c), g.add(b, d));
    }
  }

  /** The inverse is determined by its equation. */
  lemma NegUnique<T(!new)>(g: Group<T>, a: T, b: T)
    requires Abelian(g) && g.add(a, b) == g.zero
    ensures b == g.neg(a)
  {
    hide Abelian;
    calc {
      b;
      { Zero(g, b); Zero(g, a); }
      g.add(g.add(g.neg(a), a), b);
      { Assoc(g, g.neg(a), a, b); Zero(g, g.neg(a)); }
      g.neg(a);
    }
  }

  lemma NegSum<T(!new)>(g: Group<T>, a: T, b: T)
    requires Abelian(g)
    ensures g.neg(g.add(a, b)) == g.add(g.neg(a), g.neg(b))
    ensures g.neg(g.neg(a)) == a && g.neg(g.zero) == g.zero
  {
    hide Abelian;
    Swap4(g, a, b, g.neg(a), g.neg(b));
    Zero(g, a);
    Zero(g, b);
    Zero(g, g.zero);
    NegUnique(g, g.add(a, b), g.add(g.neg(a), g.neg(b)));
    NegUnique(g, g.neg(a), a);
    NegUnique(g, g.zero, g.zero);
  }

  /** One more. */
  lemma TimesNext<T(!new)>(g: Group<T>, k: int, p: T)
    requires Abelian(g)
    ensures Times(g, k + 1, p) == g.add(Times(g, k, p), p)
    ensures Times(g, 0 - k, p) == g.neg(Times(g, k, p))
  {
    hide Abelian;
    NegSum(g, Times(g, 0 - k, p), p);
    NegSum(g, Times(g, k, p), p);
    if k < 0 {
      var m := 0 - k;
      var x := Times(g, m - 1, p);
      assert Times(g, m, p) == g.add(x, p);
      NegSum(g, x, p);
      Assoc(g, g.neg(x), g.neg(p), p);
      Zero(g, p);
      Zero(g, g.neg(x));
      if m == 1 { NegSum(g, g.zero, p); }
    }
  }

  lemma {:induction false} TimesSum<T(!new)>(g: Group<T>, i: int, j: int, p: T)
    requires Abelian(g)
    ensures Times(g, i + j, p) == g.add(Times(g, i, p), Times(g, j, p))
    decreases Abs(j)
  {
    hide Abelian;
    var x := Times(g, i, p);
    if j == 0 {
      Zero(g, x);
    } else if j > 0 {
      TimesSum(g, i, j - 1, p);
      TimesNext(g, i + j - 1, p);
      Assoc(g, x, Times(g, j - 1, p), p);
    } else {
      TimesSum(g, i, j + 1, p);
      TimesNext(g, i + j, p);
      TimesNext(g, j, p);
      // add(T(i+j), p) == add(x, add(T(j), p)): cancel p
      Assoc(g, x, Times(g, j, p), p);
      Cancel(g, Times(g, i + j, p), g.add(x, Times(g, j, p)), p);
    }
  }

  lemma Cancel<T(!new)>(g: Group<T>, a: T, b: T, c: T)
    requires Abelian(g) && g.add(a, c) == g.add(b, c)
    ensures a == b
  {
    hide Abelian;
    Assoc(g, a, c, g.neg(c));
    Assoc(g, b, c, g.neg(c));
    Zero(g, c);
    Zero(g, a);
    Zero(g, b);
  }

  lemma {:induction false} TimesProduct<T(!new)>(g: Group<T>, i: int, j: int, p: T)
    requires Abelian(g)
    ensures Times(g, i * j, p) == Times(g, i, Times(g, j, p))
    decreases Abs(i)
  {
    hide Abelian;
    MulNeighbours(i, j);
    if i > 0 {
      TimesProduct(g, i - 1, j, p);
      TimesSum(g, (i - 1) * j, j, p);
    } else if i < 0 {
      TimesProduct(g, i + 1, j, p);
      TimesSum(g, i * j, j, p);
      TimesNext(g, i, Times(g, j, p));
      Cancel(g, Times(g, i * j, p), Times(g, i, Times(g, j, p)), Times(g, j, p));
    } else {
      assert i * j == 0;
    }
  }

  lemma {:induction false} TimesPoints<T(!new)>(g: Group<T>, k: int, p: T, q: T)
    requires Abelian(g)
    ensures Times(g, k, g.add(p, q)) == g.add(Times(g, k, p), Times(g, k, q))
    decreases if k < 0 then 1 - k else k
  {
    hide Abelian;
    if k == 0 {
      Zero(g, g.zero);
    } else if k > 0 {
      TimesPoints(g, k - 1, p, q);
      Swap4(g, Times(g, k - 1, p), Times(g, k - 1, q), p, q);
    } else {
      TimesPoints(g, 0 - k, p, q);
      NegSum(g, Times(g, 0 - k, p), Times(g, 0 - k, q));
    }
  }

  lemma TimesNeg<T(!new)>(g: Group<T>, k: int, p: T)
    requires Abelian(g)
    ensures Times(g, k, g.neg(p)) == Times(g, 0 - k, p)
    ensures Times(g, 1, p) == p && Times(g, -1, p) == g.neg(p)
  {
    hide Abelian;
    Zero(g, p);
    assert Times(g, 1, p) == p;
    assert Times(g, -1, p) == g.neg(p);
    TimesProduct(g, k, -1, p);
    assert k * -1 == 0 - k;
  }

  lemma {:induction false} TimesZero<T(!new)>(g: Group<T>, k: int)
    requires Abelian(g)
    ensures Times(g, k, g.zero) == g.zero
    decreases if k < 0 then 1 - k else k
  {
    hide Abelian;
    Zero(g, g.zero);
    NegSum(g, g.zero, g.zero);
    if k > 0 { TimesZero(g, k - 1); }
    if k < 0 { TimesZero(g, 0 - k); }
  }

  /** Twice, as a point doubling. */
  lemma Double<T(!new)>(g: Group<T>, p: T)
    requires Abelian(g)
    ensures Times(g, 2, p) == g.add(p, p)
  {
    hide Abelian;
    TimesNeg(g, 1, p);
    TimesNext(g, 1, p);
  }

  lemma DoubledPower<T(!new)>(g: Group<T>, w: nat, p: T)
    requires Abelian(g)
    ensures Times(g, 2, Times(g, Pow2(w), p)) == Times(g, Pow2(w + 1), p)
    ensures Times(g, Pow2(0), p) == p
  {
    hide Abelian, Times;
    TimesProduct(g, 2, Pow2(w), p);
    TimesNeg(g, 1, p);
  }

  /** n doublings. */
  method DoubleTimes<T(!new)>(g: Group<T>, p: T, n: nat) returns (r: T)
    requires Abelian(g)
    ensures r == Times(g, Pow2(n), p)
  {
    hide Abelian, Times, Pow2;
    r := p;
    DoubledPower(g, 0, p);
    for j := 0 to n
      invariant r == Times(g, Pow2(j), p)
    {
      Double(g, r);
      DoubledPower(g, j, p);
      r := g.add(r, r);
    }
  }

  // ----- linear combinations -----

  /** Sum of ks[i] * ps[i] for i >= j. */
  function LinComb<T>(g: Group<T>, ks: seq<int>, ps: seq<T>, j: nat): T
    requires |ks| == |ps|
    decreases |ps| - j
  {
    if j >= |ps| then g.zero else g.add(Times(g, ks[j], ps[j]), LinComb(g, ks, ps, j + 1))
  }

  /** Linear in the coefficients. */
  lemma {:induction false} LinCombScale<T(!new)>(g: Group<T>, ks: seq<int>, xs: seq<int>, ys: seq<int>, m: int, ps: seq<T>, j: nat)
    requires Abelian(g) && |ks| == |xs| == |ys| == |ps|
    requires forall i :: 0 <= i < |ps| ==> ks[i] == xs[i] + m * ys[i]
    ensures LinComb(g, ks, ps, j) == g.add(LinComb(g, xs, ps, j), Times(g, m, LinComb(g, ys, ps, j)))
    decreases |ps| - j
  {
    hide Abelian;
    if j >= |ps| {
      TimesZero(g, m);
      Zero(g, g.zero);
    } else {
      LinCombScale(g, ks, xs, ys, m, ps, j + 1);
      TimesSum(g, xs[j], m * ys[j], ps[j]);
      TimesProduct(g, m, ys[j], ps[j]);
      TimesPoints(g, m, Times(g, ys[j], ps[j]), LinComb(g, ys, ps, j + 1));
      Swap4(g, Times(g, xs[j], ps[j]), Times(g, m * ys[j], ps[j]),
            LinComb(g, xs, ps, j + 1), Times(g, m, LinComb(g, ys, ps, j + 1)));
    }
  }

  lemma {:induction false} LinCombAppend<T(!new)>(g: Group<T>, ks: seq<int>, ps: seq<T>, k: int, p: T, j: nat)
    requires Abelian(g) && |ks| == |ps| && j <= |ps|
    ensures LinComb(g, ks + [k], ps + [p], j) == g.add(LinComb(g, ks, ps, j), Times(g, k, p))
    decreases |ps| - j
  {
    hide Abelian;
    if j == |ps| {
      assert LinComb(g, ks + [k], ps + [p], j + 1) == g.zero;
      Zero(g, Times(g, k, p));
    } else {
      LinCombAppend(g, ks, ps, k, p, j + 1);
      assert (ks + [k])[j] == ks[j] && (ps + [p])[j] == ps[j];
      Assoc(g, Times(g, ks[j], ps[j]), LinComb(g, ks, ps, j + 1), Times(g, k, p));
    }
  }

  /** Adding q to one of the points adds its coefficient times q. */
  lemma {:induction false} LinCombAddPoint<T(!new)>(g: Group<T>, ks: seq<int>, ps: seq<T>, i: nat, q: T, j: nat)
    requires Abelian(g) && |ks| == |ps| && j <= i < |ps|
    ensures LinComb(g, ks, ps[i := g.add(ps[i], q)], j) == g.add(LinComb(g, ks, ps, j), Times(g, ks[i], q))
    decreases |ps| - j
  {
    hide Abelian;
    var ps' := ps[i := g.add(ps[i], q)];
    if i == j {
      LinCombSame(g, ks, ps, ps', j + 1);
      TimesPoints(g, ks[i], ps[i], q);
      var a, b, c := Times(g, ks[i], ps[i]), Times(g, ks[i], q), LinComb(g, ks, ps, j + 1);
      Assoc(g, a, b, c);
      Comm(g, b, c);
      Assoc(g, a, c, b);
    } else {
      LinCombAddPoint(g, ks, ps, i, q, j + 1);
      Assoc(g, Times(g, ks[j], ps[j]), LinComb(g, ks, ps, j + 1), Times(g, ks[i], q));
    }
  }

  lemma {:induction false} LinCombSame<T>(g: Group<T>, ks: seq<int>, ps: seq<T>, ps': seq<T>, j: nat)
    requires |ks| == |ps| == |ps'| && forall i :: j <= i < |ps| ==> ps[i] == ps'[i]
    ensures LinComb(g, ks, ps, j) == LinComb(g, ks, ps', j)
    decreases |ps| - j
  {
    if j < |ps| { LinCombSame(g, ks, ps, ps', j + 1); }
  }

  lemma {:induction false} LinCombZero<T(!new)>(g: Group<T>, ks: seq<int>, ps: seq<T>, j: nat)
    requires Abelian(g) && |ks| == |ps|
    requires forall i :: j <= i < |ps| ==> ks[i] == 0 || ps[i] == g.zero
    ensures LinComb(g, ks, ps, j) == g.zero
    decreases |ps| - j
  {
    hide Abelian;
    if j < |ps| {
      LinCombZero(g, ks, ps, j + 1);
      TimesZero(g, ks[j]);
      Zero(g, g.zero);
    }
  }
}
