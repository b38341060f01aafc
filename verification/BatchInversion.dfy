/** Jacobian to affine coordinates, for any number of points with a single inversion. */
module BatchInversion {
  import opened Arith
  import opened NumberTheory
  import opened ModInvTheory
  import opened Field52
  import opened Inversion
  import opened Jacobians

  /** The affine coordinates of the point that j represents: x = X / Z^2 and y = Y / Z^3 modulo p. */
  ghost predicate AffineOf(r: Affine, j: Jacobian)
  {
    && r.infinity == j.infinity
    && (!j.infinity ==>
         && r.x.Magnitude(1) && r.y.Magnitude(1)
         && Congruent(r.x.Val() * Pow(j.z.Val(), 2), j.x.Val())
         && Congruent(r.y.Val() * Pow(j.z.Val(), 3), j.y.Val()))
  }

  /** The affine coordinates are x / z^2 and y / z^3 modulo p. */
  lemma AffineMeans(r: Affine, j: Jacobian)
    ensures AffineOf(r, j) <==>
              if j.infinity then r.infinity
              else !r.infinity && r.x.Magnitude(1) && r.y.Magnitude(1)
                   && (r.x.Val() * Pow(j.z.Val(), 2)) % P == j.x.Val() % P && (r.y.Val() * Pow(j.z.Val(), 3)) % P == j.y.Val() % P
  {
    hide Fe.Val, Fe.Magnitude, Pow;
  }

  /** What the routine needs of a point. */
  ghost predicate Convertible(j: Jacobian)
  {
    !j.infinity ==> j.x.Magnitude(8) && j.y.Magnitude(8) && j.z.Magnitude(8) && Unit(j.z.Val())
  }

  ghost predicate AllConvertible(a: seq<Jacobian>)
  {
    forall i :: 0 <= i < |a| ==> Convertible(a[i])
  }

  // ----- products of z coordinates -----

  /** The product of the z coordinates of the finite points among the first n. */
  function ZProduct(a: seq<Jacobian>, n: nat): nat
    requires n <= |a|
  {
    if n == 0 then 1
    else if a[n - 1].infinity then ZProduct(a, n - 1) else MulNat(ZProduct(a, n - 1), a[n - 1].z.Val()); ZProduct(a, n - 1) * a[n - 1].z.Val()
  }

  lemma ZProductNext(a: seq<Jacobian>, n: nat)
    requires n < |a|
    ensures ZProduct(a, n + 1) == (if a[n].infinity then ZProduct(a, n) else ZProduct(a, n) * a[n].z.Val())
    ensures ZProduct(a, 0) == 1
  {
    hide Fe.Val;
  }

  /** Points at infinity do not matter. */
  lemma {:induction false} ZProductSkip(a: seq<Jacobian>, m: nat, n: nat)
    requires m <= n <= |a| && forall j :: m <= j < n ==> a[j].infinity
    ensures ZProduct(a, n) == ZProduct(a, m)
  {
    if m < n { ZProductSkip(a, m, n - 1); }
  }

  lemma {:induction false} ZProductUnit(a: seq<Jacobian>, n: nat, m: nat)
    requires n <= |a| && m > 1 && forall j :: 0 <= j < n && !a[j].infinity ==> Gcd(a[j].z.Val() % m, m) == 1
    ensures Gcd(ZProduct(a, n) % m, m) == 1
  {
    hide Fe.Val, Gcd;
    if n == 0 {
      DivModUnique(1, 0, 1, m);
      InverseShows(1, 1, m);
    } else {
      ZProductUnit(a, n - 1, m);
      if !a[n - 1].infinity { UnitProduct(ZProduct(a, n - 1), a[n - 1].z.Val(), m); }
    }
  }

  lemma UnitProduct(x: nat, y: nat, m: nat)
    requires m > 1 && Gcd(x % m, m) == 1 && Gcd(y % m, m) == 1
    ensures x * y >= 0 && Gcd(x * y % m, m) == 1
  {
    hide Gcd;
    MulNat(x, y);
    var i := InverseModulo(x, m);
    var j := InverseModulo(y, m);
    ProductOfInverses(x, y, i, j, m);
    InverseShows(x * y, i * j, m);
  }

  lemma ProductOfInverses(x: int, y: int, i: int, j: int, m: nat)
    requires m > 1 && (x * i) % m == 1 && (y * j) % m == 1
    ensures (x * y * (i * j)) % m == 1
  {
    DivModUnique(1, 0, 1, m);
    CongMul(x * i, 1, y * j, 1, m);
    assert (x * i) * (y * j) == (x * y) * (i * j);
  }

  /** Invertible numbers are coprime to the modulus, and not zero. */
  lemma UnitCoprime(x: nat, m: nat)
    requires m > 1 && Gcd(x, m) == 1
    ensures Coprime(x, m) && x != 0
  {
    GcdIsGcd(x, m);
    forall k: int | k > 0 && Divides(k, x) && Divides(k, m) ensures k == 1 { DividesAtMost(k, 1); }
  }

  // ----- the three loops -----

  /** After the forward pass: the x fields of finite points hold the products so far. */
  ghost predicate Forward(rs: seq<Affine>, a: seq<Jacobian>, n: nat)
  {
    && n <= |a| == |rs|
    && (forall j :: 0 <= j < n && a[j].infinity ==> rs[j].infinity)
    && (forall j :: 0 <= j < n && !a[j].infinity ==>
          rs[j].x.Magnitude(8) && Congruent(rs[j].x.Val(), ZProduct(a, j + 1)))
  }

  /** `last` is the last finite point before n, or -1. */
  ghost predicate LastFinite(a: seq<Jacobian>, n: nat, last: int)
  {
    && n <= |a| && -1 <= last < n && (last >= 0 ==> !a[last].infinity)
    && forall j :: last < j < n ==> a[j].infinity
  }

  ghost predicate InfinitySet(rs: seq<Affine>, a: seq<Jacobian>)
  {
    |rs| == |a| && forall j :: 0 <= j < |a| && a[j].infinity ==> rs[j].infinity
  }

  /** During the backward pass: the points above `last` have the inverses of their z in x. */
  ghost predicate Backward(rs: seq<Affine>, a: seq<Jacobian>, i: nat, last: nat, u: int)
  {
    && i <= last < |a| == |rs| && !a[last].infinity
    && (forall j :: i <= j < last ==> a[j].infinity)
    && Forward(rs, a, last)
    && InfinitySet(rs, a)
    && Congruent(u * ZProduct(a, last + 1), 1)
    && Inverted(rs, a, last + 1)
  }

  /** From n on, the x fields hold the inverses. */
  ghost predicate Inverted(rs: seq<Affine>, a: seq<Jacobian>, n: nat)
  {
    && |rs| == |a|
    && forall j :: n <= j < |a| && !a[j].infinity ==> InverseAt(rs[j], a[j])
  }

  ghost predicate InverseAt(r: Affine, j: Jacobian)
  {
    r.x.Magnitude(8) && Congruent(r.x.Val() * j.z.Val(), 1)
  }

  /** One step down, to the finite point i: both products are split off. */
  lemma BackwardStep(rs: seq<Affine>, a: seq<Jacobian>, i: nat, last: nat, x: Fe, u: int, u': int, z: nat, p: nat, xv: nat)
    requires Backward(rs, a, i + 1, last, u) && !a[i].infinity && x.Magnitude(1)
    requires z == a[last].z.Val() && p == rs[i].x.Val() && xv == x.Val()
    requires Congruent(xv, p * u) && Congruent(u', u * z)
    ensures Backward(rs[last := rs[last].(x := x)], a, i, i, u')
  {
    hide Fe.Val, Fe.Magnitude;
    ZProductSkip(a, i + 1, last);
    var before := ZProduct(a, i + 1);
    assert ZProduct(a, last + 1) == before * z;
    SplitInverse(before, z, u, p, xv, u', P);
    MagnitudeUp(x);
  }

  lemma MagnitudeUp(x: Fe)
    requires x.Magnitude(1)
    ensures x.Magnitude(8)
  {
  }

  lemma SplitInverse(before: int, z: int, u: int, p: int, x: int, u': int, m: nat)
    requires m > 1 && (u * (before * z)) % m == 1 % m && p % m == before % m
    requires x % m == (p * u) % m && u' % m == (u * z) % m
    ensures (x * z) % m == 1 % m && (u' * before) % m == 1 % m
  {
    CongMul(p, before, u, u, m);
    CongMul(x, before * u, z, z, m);
    assert before * u * z == u * (before * z);
    CongMul(u', u * z, before, before, m);
    assert u * z * before == u * (before * z);
  }

  lemma ForwardStep(rs: seq<Affine>, a: seq<Jacobian>, n: nat, last: int, r: Affine)
    requires Forward(rs, a, n) && n < |a| && LastFinite(a, n, last)
    requires a[n].infinity ==> r.infinity
    requires !a[n].infinity && last == -1 ==> r.x == a[n].z && a[n].z.Magnitude(8)
    requires !a[n].infinity && last >= 0 ==> r.x.Magnitude(8) && Congruent(r.x.Val(), rs[last].x.Val() * a[n].z.Val())
    ensures Forward(rs[n := r], a, n + 1)
    ensures LastFinite(a, n + 1, if a[n].infinity then last else n)
  {
    hide Fe.Val, Fe.Magnitude;
    if !a[n].infinity {
      ZProductSkip(a, last + 1, n);
      if last >= 0 {
        CongMul(rs[last].x.Val(), ZProduct(a, last + 1), a[n].z.Val(), a[n].z.Val(), P);
      } else {
        assert ZProduct(a, n + 1) == 1 * a[n].z.Val();
      }
    }
  }

  /** secp256k1_ge_set_gej_zinv: scale by a known inverse of z. */
  method SetGejZinv(a: Jacobian, zi: Fe) returns (r: Affine)
    requires !a.infinity && Convertible(a) && zi.Magnitude(8) && Congruent(zi.Val() * a.z.Val(), 1)
    ensures AffineOf(r, a)
  {
    hide Fe.Val, Fe.Magnitude;
    var zi2 := Sqr(zi);
    MagnitudeUp(zi2);
    var zi3 := Mul(zi2, zi);
    MagnitudeUp(zi3);
    var x := Mul(a.x, zi2);
    var y := Mul(a.y, zi3);
    r := Affine(x, y, false);
    Scaled(a.x.Val(), a.y.Val(), a.z.Val(), zi.Val(), zi2.Val(), zi3.Val(), x.Val(), y.Val(), P);
  }

  lemma Scaled(ax: nat, ay: nat, z: nat, zi: nat, zi2: nat, zi3: nat, x: nat, y: nat, m: nat)
    requires m > 1 && (zi * z) % m == 1 % m && zi2 % m == (zi * zi) % m && zi3 % m == (zi2 * zi) % m
    requires x % m == (ax * zi2) % m && y % m == (ay * zi3) % m
    ensures (x * Pow(z, 2)) % m == ax % m && (y * Pow(z, 3)) % m == ay % m
  {
    hide Pow;
    PowerOne(z);
    InversePower(z, zi, 0, 1, zi, m);
    InversePower(z, zi, 1, zi, zi2, m);
    InversePower(z, zi, 2, zi2, zi3, m);
    ScaledBy(ax, zi2, Pow(z, 2), x, m);
    ScaledBy(ay, zi3, Pow(z, 3), y, m);
  }

  lemma PowerOne(z: nat)
    ensures Pow(z, 1) == z && 1 * Pow(z, 0) == 1
  {
    assert Pow(z, 1) == z * Pow(z, 0);
  }

  /** The next power of the inverse inverts the next power. */
  lemma InversePower(z: nat, zi: nat, n: nat, p: nat, q: nat, m: nat)
    requires m > 1 && (zi * z) % m == 1 % m && (p * Pow(z, n)) % m == 1 % m && q % m == (p * zi) % m
    ensures (q * Pow(z, n + 1)) % m == 1 % m
  {
    var w := Pow(z, n);
    CongMul(q, p * zi, z * w, z * w, m);
    CongMul(p * w, 1, zi * z, 1, m);
    assert p * zi * (z * w) == (p * w) * (zi * z);
  }

  lemma ScaledBy(a: int, i: int, z: int, x: int, m: nat)
    requires m > 1 && (i * z) % m == 1 % m && x % m == (a * i) % m
    ensures (x * z) % m == a % m
  {
    CongMul(x, a * i, z, z, m);
    assert a * i * z == a * (i * z);
    CongMul(a, a, i * z, 1, m);
  }

  /** The forward pass. */
  method Products(r: array<Affine>, a: seq<Jacobian>) returns (last: int)
    requires r.Length == |a| && AllConvertible(a)
    modifies r
    ensures Forward(r[..], a, |a|) && LastFinite(a, |a|, last) && -1 <= last < |a|
  {
    hide Fe.Val, Fe.Magnitude, Congruent, Forward, LastFinite, Unit;
    last := -1;
    Nothing(r[..], a);
    for i := 0 to |a|
      invariant Forward(r[..], a, i) && LastFinite(a, i, last) && -1 <= last < i
    {
      ghost var rs := r[..];
      assert Convertible(a[i]);
      if a[i].infinity {
        r[i] := Affine(Fe(0, 0, 0, 0, 0), Fe(0, 0, 0, 0, 0), true);
        ForwardStep(rs, a, i, last, r[i]);
      } else {
        if last == -1 {
          r[i] := r[i].(x := a[i].z);
        } else {
          ProductAt(rs, a, i, last);
          var x := Mul(r[last].x, a[i].z);
          MagnitudeUp(x);
          r[i] := r[i].(x := x);
        }
        ForwardStep(rs, a, i, last, r[i]);
        last := i;
      }
      assert r[..] == rs[i := r[i]];
    }
  }

  lemma Nothing(rs: seq<Affine>, a: seq<Jacobian>)
    requires |rs| == |a|
    ensures Forward(rs, a, 0) && LastFinite(a, 0, -1)
  {
  }

  lemma ProductAt(rs: seq<Affine>, a: seq<Jacobian>, n: nat, last: int)
    requires Forward(rs, a, n) && LastFinite(a, n, last) && last >= 0
    ensures rs[last].x.Magnitude(8) && Congruent(rs[last].x.Val(), ZProduct(a, last + 1))
  {
  }

  /** The backward pass: u is the inverse of the product up to the point in hand. */
  method Inverses(r: array<Affine>, a: seq<Jacobian>, last0: nat, u0: Fe)
    requires r.Length == |a| && AllConvertible(a) && u0.Magnitude(8) && Backward(r[..], a, last0, last0, u0.Val())
    modifies r
    ensures Inverted(r[..], a, 0) && InfinitySet(r[..], a)
  {
    hide Fe.Val, Fe.Magnitude, Congruent, Backward, Inverted, Forward, Unit, InfinitySet;
    var last, u, i := last0, u0, last0;
    BackwardRange(r[..], a, i, last, u.Val());
    while i > 0
      invariant 0 <= i <= last < |a| && u.Magnitude(8) && Backward(r[..], a, i, last, u.Val())
    {
      i := i - 1;
      ghost var rs := r[..];
      if !a[i].infinity {
        BackwardParts(rs, a, i, last, u.Val());
        assert Convertible(a[last]);
        var x := Mul(r[i].x, u);
        var u' := Mul(u, a[last].z);
        BackwardStep(rs, a, i, last, x, u.Val(), u'.Val(), a[last].z.Val(), r[i].x.Val(), x.Val());
        r[last] := r[last].(x := x);
        assert r[..] == rs[last := rs[last].(x := x)];
        MagnitudeUp(u');
        u := u';
        last := i;
      } else {
        BackwardSkip(rs, a, i, last, u.Val());
      }
    }
    ghost var rs := r[..];
    BackwardEnd(rs, a, last, u, u.Val());
    r[last] := r[last].(x := u);
    assert r[..] == rs[last := rs[last].(x := u)];
  }

  lemma BackwardRange(rs: seq<Affine>, a: seq<Jacobian>, i: nat, last: nat, u: int)
    requires Backward(rs, a, i, last, u)
    ensures i <= last < |a| == |rs|
  {
  }

  lemma BackwardParts(rs: seq<Affine>, a: seq<Jacobian>, i: nat, last: nat, u: int)
    requires Backward(rs, a, i + 1, last, u) && !a[i].infinity
    ensures rs[i].x.Magnitude(8) && !a[last].infinity
  {
  }

  lemma BackwardSkip(rs: seq<Affine>, a: seq<Jacobian>, i: nat, last: nat, u: int)
    requires Backward(rs, a, i + 1, last, u) && a[i].infinity
    ensures Backward(rs, a, i, last, u)
  {
  }

  lemma BackwardEnd(rs: seq<Affine>, a: seq<Jacobian>, last: nat, x: Fe, u: int)
    requires Backward(rs, a, 0, last, u) && u == x.Val() && x.Magnitude(8)
    ensures last < |rs| && Inverted(rs[last := rs[last].(x := x)], a, 0) && InfinitySet(rs[last := rs[last].(x := x)], a)
  {
    hide Fe.Val, Fe.Magnitude, Congruent;
    ZProductSkip(a, 0, last);
    assert ZProduct(a, last + 1) == 1 * a[last].z.Val();
  }

  /** secp256k1_ge_set_all_gej_var. */
  method SetAllGejVar(r: array<Affine>, a: seq<Jacobian>, rounds: nat) returns (done: bool)
    requires r.Length == |a| && AllConvertible(a) && rounds < 0x100_0000
    modifies r
    ensures done <==> (forall i :: 0 <= i < |a| ==> a[i].infinity)
                      || (rounds > 0 && Finishes(1, 62 * rounds, P, ZProduct(a, |a|) % P))
    ensures done ==> forall i :: 0 <= i < |a| ==> AffineOf(r[i], a[i])
  {
    hide Fe.Val, Fe.Magnitude, Congruent, Backward, Forward, LastFinite, Inverted, InfinitySet, Unit, IsInverse, Coprime, Fe.Normalized, Finishes;
    var last := Products(r, a);
    if last == -1 {
      NoneFinite(r[..], a);
      return true;
    }
    ProductAt(r[..], a, |a|, last);
    WholeProduct(a, last, r[last].x.Val());
    UnitZ(a);
    ZProductUnit(a, last + 1, P);
    SameResidue(r[last].x.Val(), ZProduct(a, last + 1));
    UnitCoprime(r[last].x.Val() % P, P);
    MagnitudeMost(r[last].x);
    var u;
    done, u := FeInvVar(r[last].x, rounds);
    if !done { return; }
    NormalizedSmall(u);
    InverseOfProduct(u.Val(), r[last].x.Val(), ZProduct(a, last + 1), P);
    OneResidue(u.Val() * ZProduct(a, last + 1));
    BackwardStart(r[..], a, last, u.Val());
    Inverses(r, a, last, u);
    Finish(r, a);
  }

  lemma NoneFinite(rs: seq<Affine>, a: seq<Jacobian>)
    requires Forward(rs, a, |a|) && LastFinite(a, |a|, -1)
    ensures forall i :: 0 <= i < |a| ==> AffineOf(rs[i], a[i]) && a[i].infinity
  {
  }

  /** The last finite point has the product over all. */
  lemma WholeProduct(a: seq<Jacobian>, last: int, x: int)
    requires LastFinite(a, |a|, last) && last >= 0 && Congruent(x, ZProduct(a, last + 1))
    ensures x % P == ZProduct(a, |a|) % P && !a[last].infinity && last < |a|
  {
    ZProductSkip(a, last + 1, |a|);
  }

  lemma UnitZ(a: seq<Jacobian>)
    requires AllConvertible(a)
    ensures forall j :: 0 <= j < |a| && !a[j].infinity ==> Gcd(a[j].z.Val() % P, P) == 1
  {
    hide Fe.Val, Fe.Magnitude, Gcd;
    forall j | 0 <= j < |a| && !a[j].infinity ensures Gcd(a[j].z.Val() % P, P) == 1 { assert Convertible(a[j]); }
  }

  lemma SameResidue(x: nat, y: nat)
    requires Congruent(x, y)
    ensures x % P == y % P
  {
  }

  lemma OneResidue(x: int)
    requires x % P == 1
    ensures Congruent(x, 1)
  {
  }

  lemma MagnitudeMost(x: Fe)
    requires x.Magnitude(8)
    ensures x.Magnitude(2047)
  {
  }

  lemma NormalizedSmall(u: Fe)
    requires u.Normalized()
    ensures u.Magnitude(8)
  {
  }

  lemma InverseOfProduct(u: nat, x: nat, z: int, m: nat)
    requires m > 1 && IsInverse(u, x % m, m) && x % m != 0 && x % m == z % m
    ensures (u * z) % m == 1
  {
    ModTwice(x, m);
    CongMul(u, u, x % m, z, m);
    assert (x % m) * u == u * (x % m);
    DivModUnique(1, 0, 1, m);
  }

  lemma BackwardStart(rs: seq<Affine>, a: seq<Jacobian>, last: int, u: int)
    requires Forward(rs, a, |a|) && LastFinite(a, |a|, last) && last >= 0
    requires Congruent(u * ZProduct(a, last + 1), 1)
    ensures Backward(rs, a, last, last, u)
  {
  }

  /** The last loop. */
  method Finish(r: array<Affine>, a: seq<Jacobian>)
    requires r.Length == |a| && AllConvertible(a) && Inverted(r[..], a, 0) && InfinitySet(r[..], a)
    modifies r
    ensures forall i :: 0 <= i < |a| ==> AffineOf(r[i], a[i])
  {
    hide AffineOf, Convertible, Fe.Val, Fe.Magnitude, Congruent;
    for i := 0 to |a|
      invariant forall j :: 0 <= j < i ==> AffineOf(r[j], a[j])
      invariant Inverted(r[..], a, i)
      invariant forall j :: i <= j < |a| && a[j].infinity ==> r[..][j].infinity
    {
      if !a[i].infinity {
        assert InverseAt(r[..][i], a[i]);
        r[i] := SetGejZinv(a[i], r[i].x);
      } else {
        InfinityIs(r[i], a[i]);
      }
    }
  }

  lemma InfinityIs(r: Affine, j: Jacobian)
    requires r.infinity && j.infinity
    ensures AffineOf(r, j)
  {
  }
}
