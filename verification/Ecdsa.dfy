/** ECDSA: signing, and verification without an inversion in the field. */
module Ecdsa {
  import opened Arith
  import opened Wrappers
  import opened NumberTheory
  import opened Groups
  import opened Scalars
  import opened Ecmult
  import opened EcmultGen
  import opened Inversion
  import opened ModInvTheory
  import F = Field52
  import FieldBytes
  import opened Jacobians
  import ScalarBytes
  import ScalarMul

  /** The curve with coordinates of its points: affine x, parity of affine y, and some Jacobian form. */
  datatype Points<!T> = Points(curve: Curve<T>, x: T -> F.Fe, oddY: T -> bool, jacobian: T -> Jacobian)

  /** z is invertible and the affine coordinate is x / z^2 modulo p. */
  ghost predicate HasX(j: Jacobian, x: nat)
  {
    && !j.infinity && j.z.Magnitude(8) && j.x.Magnitude(2047)
    && Unit(j.z.Val())
    && F.Congruent(j.x.Val(), x * Pow(j.z.Val(), 2))
  }

  /** Opposite points have the same x and y of opposite parity. */
  ghost predicate PointAt<T>(c: Points<T>, p: T)
  {
    && c.x(p).Normalized() && HasX(c.jacobian(p), c.x(p).Val())
    && c.x(c.curve.group.neg(p)) == c.x(p) && c.oddY(c.curve.group.neg(p)) == !c.oddY(p)
  }

  ghost predicate ValidPoints<T(!new)>(c: Points<T>)
  {
    && ValidCurve(c.curve) && Prime(N) && c.curve.base != c.curve.group.zero
    && (forall p :: p != c.curve.group.zero ==> PointAt(c, p))
    && c.jacobian(c.curve.group.zero).infinity
  }

  lemma PointParts<T(!new)>(c: Points<T>, p: T)
    requires ValidPoints(c)
    ensures ValidCurve(c.curve) && Prime(N) && Abelian(c.curve.group)
    ensures p != c.curve.group.zero ==> PointAt(c, p)
    ensures c.jacobian(p).infinity <==> p == c.curve.group.zero
  {
    if p != c.curve.group.zero { assert PointAt(c, p); }
  }

  // ----- comparing x coordinates -----

  /** secp256k1_gej_eq_x_var: x * z^2 against the Jacobian x. */
  method EqXVar(x: F.Fe, a: Jacobian, ghost px: nat) returns (equal: bool)
    requires x.Magnitude(8) && HasX(a, px)
    ensures equal <==> x.Val() % F.P == px % F.P
  {
    hide F.Congruent, F.Fe.Val, F.Fe.Magnitude;
    ghost var z := a.z.Val();
    ghost var i := InverseModulo(z, F.P);
    var r := F.Sqr(a.z);
    ghost var z2 := r.Val();
    MagnitudeOneEight(r);
    r := F.Mul(r, x);
    F.RoomBelow(a.x);
    var r2 := F.NormalizeWeak(a.x);
    equal := F.EqualVar(r, r2);
    SameX(x.Val(), px, z, i, z2, r.Val(), a.x.Val(), r2.Val());
  }

  lemma MagnitudeOneEight(r: F.Fe)
    requires r.Magnitude(1)
    ensures r.Magnitude(8)
  {
  }

  lemma SameX(x: nat, px: nat, z: nat, i: int, z2: nat, r: nat, ax: nat, r2: nat)
    requires (z * i) % F.P == 1 && F.Congruent(z2, z * z) && F.Congruent(r, z2 * x)
    requires F.Congruent(ax, px * Pow(z, 2)) && r2 % F.P == ax % F.P
    ensures F.Congruent(r, r2) <==> x % F.P == px % F.P
  {
    Square(z);
    CrossMultiplied(x, px, z, i, z2, r, r2, F.P);
  }

  lemma Square(z: nat)
    ensures Pow(z, 2) == z * z
  {
    assert Pow(z, 1) == z * Pow(z, 0);
  }

  lemma CrossMultiplied(x: int, px: int, z: int, i: int, z2: int, r: int, r2: int, m: nat)
    requires m > 1 && (z * i) % m == 1 && z2 % m == (z * z) % m
    requires r % m == (z2 * x) % m && r2 % m == (px * (z * z)) % m
    ensures r % m == r2 % m <==> x % m == px % m
  {
    CongMul(z2, z * z, x, x, m);
    assert z * z * x == x * (z * z);
    if x % m == px % m {
      CongMul(x, px, z * z, z * z, m);
    }
    if r % m == r2 % m {
      CancelSquare(x, z, i, m);
      CancelSquare(px, z, i, m);
      CongMul(x * (z * z), px * (z * z), i * i, i * i, m);
    }
  }

  lemma CancelSquare(x: int, z: int, i: int, m: nat)
    requires m > 1 && (z * i) % m == 1
    ensures (x * (z * z) * (i * i)) % m == x % m
  {
    DivModUnique(1, 0, 1, m);
    CongMul(z * i, 1, z * i, 1, m);
    CongMul(x, x, (z * i) * (z * i), 1, m);
    assert x * (z * z) * (i * i) == x * ((z * i) * (z * i));
  }

  const ORDER_AS_FE := F.Fe(0x25E8CD0364141, 0xE6AF48A03BBFD, 0xFFFFFFEBAAEDC, 0xFFFFFFFFFFFFF, 0xFFFFFFFFFFFF)
  const P_MINUS_ORDER := F.Fe(0xDA1722FC9BAEE, 0x1950B75FC4402, 0x1455123, 0, 0)

  lemma OrderElements()
    ensures ORDER_AS_FE.Val() == N && ORDER_AS_FE.Magnitude(1)
    ensures P_MINUS_ORDER.Val() == F.P - N && P_MINUS_ORDER.Normalized()
  {
  }

  /** The two-case test: whether x(p) modulo the order is r, without leaving Jacobian coordinates. */
  method XMatches(sigr: Scalar, a: Jacobian, ghost px: nat) returns (equal: bool)
    requires sigr.Reduced() && px < F.P && HasX(a, px)
    ensures equal <==> px % N == sigr.Val()
  {
    hide F.Fe.Val, F.Fe.Magnitude, F.Fe.Normalized, HasX, Scalar.Val;
    OrderElements();
    var c := ScalarBytes.GetB32(sigr);
    var xr, below := FieldBytes.SetB32(c);
    OrderBelowP();
    MagnitudeOneEight(xr);
    ResidueCases(sigr.Val(), px);
    equal := EqXVar(xr, a, px);
    if equal { return; }
    var cmp := F.CmpVar(xr, P_MINUS_ORDER);
    if cmp >= 0 { return false; }
    xr := F.Add(xr, ORDER_AS_FE, 1, 1);
    MagnitudeTwoEight(xr);
    equal := EqXVar(xr, a, px);
  }

  lemma OrderBelowP()
    ensures N < F.P < 2 * N
  {
  }

  lemma MagnitudeTwoEight(r: F.Fe)
    requires r.Magnitude(2)
    ensures r.Magnitude(8)
  {
  }

  /** Since N < p < 2N there are at most two coordinates with a given remainder. */
  lemma ResidueCases(r: nat, px: nat)
    requires r < N && px < F.P
    ensures px % N == r <==> px == r || (r < F.P - N && px == r + N)
    ensures r % F.P == px % F.P <==> r == px
    ensures r < F.P - N ==> ((r + N) % F.P == px % F.P <==> r + N == px)
  {
    if px >= N { DivModUnique(px, 1, px - N, N); } else { DivModUnique(px, 0, px, N); }
    DivModUnique(px, 0, px, F.P);
    DivModUnique(r, 0, r, F.P);
    if r < F.P - N { DivModUnique(r + N, 0, r + N, F.P); }
  }

  // ----- verification -----

  /** The point that verification recomputes, from an inverse w of s. */
  function Recomputed<T>(c: Points<T>, w: int, r: int, q: T, m: int): T
  {
    c.curve.group.add(Times(c.curve.group, w * r, q), Times(c.curve.group, w * m, c.curve.base))
  }

  /** (r, s) is a signature of m for the public key q, and p is the point that shows it. */
  ghost predicate Shows<T>(c: Points<T>, r: nat, s: nat, q: T, m: int, p: T)
  {
    && 0 < r < N && 0 < s < N
    && (exists w: int :: (w * s) % N == 1 && p == Recomputed(c, w, r, q, m))
    && p != c.curve.group.zero && c.x(p).Val() % N == r
  }

  /** In full, for any inverse w of s: p is (w*r)*Q + (w*m)*G, finite, with r for its x modulo the order. */
  lemma ShowsIff<T(!new)>(c: Points<T>, w: int, r: nat, s: nat, q: T, m: int, p: T)
    requires ValidPoints(c)
    ensures Shows(c, r, s, q, m, p) ==> 0 < r < N && 0 < s < N
    ensures 0 < r < N && 0 < s < N && (w * s) % N == 1 ==>
              (Shows(c, r, s, q, m, p) <==>
                p == c.curve.group.add(Times(c.curve.group, w * r, q), Times(c.curve.group, w * m, c.curve.base))
                && p != c.curve.group.zero && c.x(p).Val() % N == r)
  {
    hide ValidPoints, Times, F.Fe.Val;
    if 0 < r < N && 0 < s < N && (w * s) % N == 1 {
      if Shows(c, r, s, q, m, p) {
        var v: int :| (v * s) % N == 1 && p == Recomputed(c, v, r, q, m);
        RecomputedUnique(c, w, v, s, r, q, m);
      } else {
        assert p == Recomputed(c, w, r, q, m) && p != c.curve.group.zero ==> c.x(p).Val() % N != r;
      }
    }
  }

  /** Any two inverses of s give the same point. */
  lemma RecomputedUnique<T(!new)>(c: Points<T>, w: int, v: int, s: int, r: int, q: T, m: int)
    requires ValidPoints(c) && (w * s) % N == 1 && (v * s) % N == 1
    ensures Recomputed(c, w, r, q, m) == Recomputed(c, v, r, q, m)
  {
    hide ValidPoints, ValidCurve, Times;
    PointParts(c, q);
    InverseUnique(w, v, s, N);
    CongMul(w, v, r, r, N);
    CongMul(w, v, m, m, N);
    TimesMod(c.curve, w * r, v * r, q);
    TimesMod(c.curve, w * m, v * m, c.curve.base);
  }

  lemma InverseUnique(w: int, v: int, s: int, m: nat)
    requires m > 1 && (w * s) % m == 1 && (v * s) % m == 1
    ensures w % m == v % m
  {
    DivModUnique(1, 0, 1, m);
    CongMul(w, w, v * s, 1, m);
    CongMul(v, v, w * s, 1, m);
    assert w * (v * s) == v * (w * s);
  }

  /** secp256k1_ecdsa_sig_verify. */
  method SigVerify<T(!new, ==)>(c: Points<T>, sigr: Scalar, sigs: Scalar, pubkey: T, message: Scalar, rounds: nat)
    returns (done: bool, ok: bool)
    requires ValidPoints(c) && sigr.Reduced() && sigs.Reduced() && message.Reduced() && rounds < 0x100_0000
    ensures done <==> sigr.Val() == 0 || sigs.Val() == 0 || (rounds > 0 && Finishes(1, 62 * rounds, N, sigs.Val()))
    ensures done ==> (ok <==> exists p :: Shows(c, sigr.Val(), sigs.Val(), pubkey, message.Val(), p))
  {
    hide ValidPoints, ValidCurve, Abelian, Times, LinComb, Scalar.Val, Recomputed, PointAt, HasX, Prime, Coprime, Finishes;
    PointParts(c, pubkey);
    if IsZero(sigr) || IsZero(sigs) { return true, false; }
    InvertibleScalar(sigs.Val());
    var sn;
    done, sn := ScalarInverseVar(sigs, rounds);
    if !done { return false, false; }
    InverseProduct(sn.Val(), sigs.Val());
    var u1 := ScalarMul.Mul(sn, message);
    var u2 := ScalarMul.Mul(sn, sigr);
    var pr := StraussWnaf(c.curve, [pubkey], [u2], Some(u1));
    RecomputedBy(c, sn.Val(), sigr.Val(), pubkey, message.Val(), u1, u2, pr);
    PointParts(c, pr);
    ShownBy(c, sn.Val(), sigr.Val(), sigs.Val(), pubkey, message.Val(), pr);
    var j := c.jacobian(pr);
    if j.infinity { return true, false; }
    PointX(c, pr);
    ok := XMatches(sigr, j, c.x(pr).Val());
  }

  lemma PointX<T>(c: Points<T>, p: T)
    requires PointAt(c, p)
    ensures HasX(c.jacobian(p), c.x(p).Val()) && c.x(p).Val() < F.P && c.x(p).Normalized()
    ensures c.x(c.curve.group.neg(p)) == c.x(p) && c.oddY(c.curve.group.neg(p)) == !c.oddY(p)
  {
  }

  lemma InvertibleScalar(s: nat)
    requires Prime(N) && s < N
    ensures s == 0 || Coprime(s, N)
  {
    if s > 0 { PrimeCoprime(N, s); }
  }

  lemma InverseProduct(r: nat, x: nat)
    requires IsInverse(r, x, N) && x != 0
    ensures (r * x) % N == 1
  {
    assert r * x == x * r;
  }

  lemma RecomputedBy<T(!new)>(c: Points<T>, w: int, r: int, q: T, m: int, u1: Scalar, u2: Scalar, pr: T)
    requires ValidPoints(c) && u1.Val() == (w * m) % N && u2.Val() == (w * r) % N
    requires pr == c.curve.group.add(LinComb(c.curve.group, Values([u2]), [q], 0),
                                     Times(c.curve.group, ValueOf(Some(u1)), c.curve.base))
    ensures pr == Recomputed(c, w, r, q, m)
  {
    hide ValidPoints, ValidCurve, Abelian, Times, Scalar.Val;
    PointParts(c, q);
    Zero(c.curve.group, Times(c.curve.group, u2.Val(), q));
    ModTwice(w * m, N);
    ModTwice(w * r, N);
    TimesMod(c.curve, u2.Val(), w * r, q);
    TimesMod(c.curve, u1.Val(), w * m, c.curve.base);
    assert Values([u2])[0] == u2.Val();
    assert LinComb(c.curve.group, Values([u2]), [q], 1) == c.curve.group.zero;
  }

  /** One inverse decides. */
  lemma ShownBy<T(!new)>(c: Points<T>, w: int, r: nat, s: nat, q: T, m: int, pr: T)
    requires ValidPoints(c) && 0 < r < N && 0 < s < N && (w * s) % N == 1 && pr == Recomputed(c, w, r, q, m)
    ensures (exists p :: Shows(c, r, s, q, m, p)) <==> (pr != c.curve.group.zero && c.x(pr).Val() % N == r)
  {
    hide ValidPoints, Recomputed;
    if pr != c.curve.group.zero && c.x(pr).Val() % N == r {
      assert Shows(c, r, s, q, m, pr);
    }
    forall p | Shows(c, r, s, q, m, p) ensures p == pr {
      var v: int :| (v * s) % N == 1 && p == Recomputed(c, v, r, q, m);
      RecomputedUnique(c, w, v, s, r, q, m);
    }
  }

  // ----- signing -----

  /** The recovery number of a point: bit 1 for an x coordinate above the order, bit 0 for odd y. */
  function RecoveryId<T>(c: Points<T>, p: T): (id: nat)
    ensures id < 4 && (id % 2 == 1 <==> c.oddY(p)) && (id >= 2 <==> c.x(p).Val() >= N)
  {
    (if c.x(p).Val() >= N then 2 else 0) + (if c.oddY(p) then 1 else 0)
  }

  /** Modulo the prime order every nonzero number has an inverse. */
  lemma InverseExists(s: nat, o: nat) returns (w: int)
    requires Prime(o) && 0 < s < o
    ensures o > 1 && (w * s) % o == 1
  {
    PrimeCoprime(o, s);
    GcdIsGcd(s, o);
    DividesAtMost(Gcd(s, o), s);
    InverseIffCoprime(s, o);
    w :| (w * s) % o == 1;
  }

  lemma NonceFinite<T(!new)>(c: Points<T>, k: nat)
    requires ValidPoints(c) && 0 < k < N
    ensures Times(c.curve.group, k, c.curve.base) != c.curve.group.zero
  {
    hide ValidCurve, Abelian, Times, PointAt, Prime;
    var g, b := c.curve.group, c.curve.base;
    PointParts(c, b);
    var w := InverseExists(k, N);
    TimesProduct(g, w, k, b);
    TimesZero(g, w);
    DivModUnique(1, 0, 1, N);
    TimesMod(c.curve, w * k, 1, b);
    TimesNeg(g, 1, b);
  }

  /** The scalars of a signature: the sign of s carries over to the nonce. */
  lemma NonceRecovered(w: int, s: int, k: int, ki: int, e: int, sg: int, m: nat)
    requires m > 1 && (w * s) % m == 1 && (k * ki) % m == 1 && (sg == 1 || sg == -1)
    requires s % m == (sg * (ki * e)) % m
    ensures (w * e) % m == (sg * k) % m
  {
    DivModUnique(1, 0, 1, m);
    CongMul(w * e, w * e, k * ki, 1, m);
    CongMul(sg, sg, s, sg * (ki * e), m);
    assert sg * (sg * (ki * e)) == ki * e;
    CongMul(w * k, w * k, sg * s, ki * e, m);
    assert w * k * (ki * e) == w * e * (k * ki);
    CongMul(sg * k, sg * k, w * s, 1, m);
    assert w * k * (sg * s) == sg * k * (w * s);
  }

  function Sign(negative: bool): int { if negative then -1 else 1 }

  /** How s comes about: the inverse ki of the nonce, the sum n, the product s0, and its sign. */
  ghost predicate SFrom(r: nat, d: nat, m: nat, k: nat, ki: nat, n: nat, s0: nat, s: nat, high: bool, o: nat)
    requires o > 0
  {
    && IsInverse(ki, k, o) && n == ((r * d) % o + m) % o && s0 == (ki * n) % o
    && s == (if high && s0 != 0 then o - s0 else s0)
  }

  lemma ComputedS(ki: int, r: nat, d: nat, m: nat, n: int, s0: nat, s: nat, high: bool, o: nat)
    requires o > 1 && n == ((r * d) % o + m) % o && s0 == (ki * n) % o && s == (if high && s0 != 0 then o - s0 else s0)
    ensures s % o == (Sign(high) * (ki * (r * d + m))) % o
  {
    ModTwice(r * d, o);
    CongAdd((r * d) % o, r * d, m, m, o);
    ModTwice((r * d) % o + m, o);
    CongMul(ki, ki, n, r * d + m, o);
    ModTwice(ki * n, o);
    if high {
      CongAdd(0, 0, s0, ki * (r * d + m), o);
      CongIntro(s, 0 - s0, if s0 != 0 then 1 else 0, o);
      assert -1 * (ki * (r * d + m)) == 0 - ki * (r * d + m);
    }
  }

  /** Up to its sign s times the nonce is r*d + m: the signing equation. */
  ghost predicate Solves(s: int, k: int, r: int, d: int, m: int, o: nat)
    requires o > 0
  {
    (s * k) % o == (r * d + m) % o || (s * k) % o == (0 - (r * d + m)) % o
  }

  lemma SolvesMeans(s: int, k: int, r: int, d: int, m: int, o: nat)
    requires o > 0
    ensures Solves(s, k, r, d, m, o) <==>
              (s * k) % o == (r * d + m) % o || (s * k) % o == (0 - (r * d + m)) % o
  {
  }

  lemma SignedEquation(r: nat, d: nat, m: nat, k: nat, ki: nat, n: nat, s0: nat, s: nat, high: bool, o: nat)
    requires o > 1 && k > 0 && SFrom(r, d, m, k, ki, n, s0, s, high, o)
    ensures Solves(s, k, r, d, m, o)
  {
    ComputedS(ki, r, d, m, n, s0, s, high, o);
    NonceCancels(s, k, ki, r * d + m, Sign(high), o);
    hide SFrom;
    SolvesMeans(s, k, r, d, m, o);
    assert Sign(high) == 1 || Sign(high) == -1;
  }

  lemma NonceCancels(s: int, k: int, ki: int, e: int, sg: int, o: nat)
    requires o > 1 && (k * ki) % o == 1 && s % o == (sg * (ki * e)) % o && (sg == 1 || sg == -1)
    ensures (s * k) % o == (if sg == 1 then e else 0 - e) % o
  {
    DivModUnique(1, 0, 1, o);
    CongMul(s, sg * (ki * e), k, k, o);
    CongMul(sg * e, sg * e, k * ki, 1, o);
    Regroup(sg, ki, e, k);
  }

  lemma Regroup(sg: int, ki: int, e: int, k: int)
    ensures sg * (ki * e) * k == sg * e * (k * ki)
  {
  }

  /** Verification's point for the key d*G, as a multiple of G. */
  lemma RecomputedMultiple<T(!new)>(c: Points<T>, w: int, r: int, d: int, m: int)
    requires ValidPoints(c)
    ensures Recomputed(c, w, r, Times(c.curve.group, d, c.curve.base), m)
         == Times(c.curve.group, w * (r * d + m), c.curve.base)
  {
    hide ValidPoints, ValidCurve, Abelian, Times;
    var g, b := c.curve.group, c.curve.base;
    PointParts(c, b);
    TimesProduct(g, w * r, d, b);
    TimesSum(g, w * r * d, w * m, b);
    assert w * r * d + w * m == w * (r * d + m) by { assert w * r * d == w * (r * d); }
  }

  /** The recovery number with its low bit flipped, when s was negated. */
  function FlipLow(id: nat, high: bool): nat
  {
    if high then (if id % 2 == 1 then id - 1 else id + 1) else id
  }

  lemma Complete<T(!new)>(c: Points<T>, r: nat, s: nat, d: nat, m: nat, k: nat, ki: nat, n: nat, s0: nat, high: bool, rp: T, recid: nat)
    requires ValidPoints(c) && 0 < r < N && 0 < s < N && 0 < k < N && SFrom(r, d, m, k, ki, n, s0, s, high, N)
    requires rp == Times(c.curve.group, k, c.curve.base) && rp != c.curve.group.zero && PointAt(c, rp)
    requires r == c.x(rp).Val() % N && recid == FlipLow(RecoveryId(c, rp), high)
    ensures exists p :: Shows(c, r, s, Times(c.curve.group, d, c.curve.base), m, p) && recid == RecoveryId(c, p)
  {
    hide *;
    PrimeOrder(c);
    var w := SignInverse(r, s, d, m, k, ki, n, s0, high, N);
    ShowPoint(c, w, w * (r * d + m), r, s, d, m, k, high, rp, recid);
  }

  lemma PrimeOrder<T(!new)>(c: Points<T>)
    requires ValidPoints(c)
    ensures Prime(N)
  {
  }

  /** An inverse of s, and what verification will multiply the generator by. */
  lemma SignInverse(r: nat, s: nat, d: nat, m: nat, k: nat, ki: nat, n: nat, s0: nat, high: bool, o: nat) returns (w: int)
    requires Prime(o) && 0 < s < o && 0 < k < o && SFrom(r, d, m, k, ki, n, s0, s, high, o)
    ensures (w * s) % o == 1 && (w * (r * d + m)) % o == (if high then 0 - k else k) % o
  {
    hide Prime;
    w := InverseExists(s, o);
    ComputedS(ki, r, d, m, n, s0, s, high, o);
    NonceRecovered(w, s, k, ki, r * d + m, Sign(high), o);
    assert Sign(high) * k == (if high then 0 - k else k);
  }

  lemma ShowPoint<T(!new)>(c: Points<T>, w: int, u: int, r: nat, s: nat, d: nat, m: nat, k: nat, high: bool, rp: T, recid: nat)
    requires ValidPoints(c) && 0 < r < N && 0 < s < N
    requires (w * s) % N == 1 && u == w * (r * d + m) && u % N == (if high then 0 - k else k) % N
    requires rp == Times(c.curve.group, k, c.curve.base) && rp != c.curve.group.zero && PointAt(c, rp)
    requires r == c.x(rp).Val() % N && recid == FlipLow(RecoveryId(c, rp), high)
    ensures exists p :: Shows(c, r, s, Times(c.curve.group, d, c.curve.base), m, p) && recid == RecoveryId(c, p)
  {
    hide ValidPoints, ValidCurve, Abelian, Times, Recomputed, HasX, Prime, F.Fe.Val, F.Fe.Normalized;
    var p := SignedPoint(c, w, u, r, d, m, k, high, rp);
    assert Shows(c, r, s, Times(c.curve.group, d, c.curve.base), m, p);
  }

  lemma SignedPoint<T(!new)>(c: Points<T>, w: int, u: int, r: nat, d: nat, m: nat, k: nat, high: bool, rp: T) returns (p: T)
    requires ValidPoints(c) && u == w * (r * d + m) && u % N == (if high then 0 - k else k) % N
    requires rp == Times(c.curve.group, k, c.curve.base) && rp != c.curve.group.zero
    ensures p == (if high then c.curve.group.neg(rp) else rp) && p != c.curve.group.zero
    ensures p == Recomputed(c, w, r, Times(c.curve.group, d, c.curve.base), m)
  {
    hide ValidPoints, ValidCurve, Abelian, Times, Recomputed, PointAt, Prime;
    var g, b := c.curve.group, c.curve.base;
    PointParts(c, rp);
    TimesMod(c.curve, u, if high then 0 - k else k, b);
    RecomputedMultiple(c, w, r, d, m);
    TimesNext(g, k, b);
    NegFinite(g, rp);
    p := if high then g.neg(rp) else rp;
  }

  lemma NegFinite<T(!new)>(g: Group<T>, p: T)
    requires Abelian(g) && p != g.zero
    ensures g.neg(p) != g.zero
  {
    hide Abelian;
    NegSum(g, p, p);
    NegSum(g, g.zero, g.zero);
  }

  /** The affine x coordinate as a scalar, and whether that reduced it. */
  method XScalar<T>(c: Points<T>, p: T) returns (r: Scalar, overflow: bool)
    requires PointAt(c, p)
    ensures r.Reduced() && r.Val() == c.x(p).Val() % N && (overflow <==> c.x(p).Val() >= N)
  {
    hide Scalar.Val, PointAt, F.Fe.Val, F.Fe.Normalized;
    PointX(c, p);
    FieldBytes.GetB32Val(c.x(p));
    r, overflow := ScalarBytes.SetB32(FieldBytes.GetB32(c.x(p)));
  }

  /** The second half of a signature, brought into the lower half of the range. */
  method SScalar(sigr: Scalar, seckey: Scalar, message: Scalar, nonce: Scalar)
    returns (done: bool, sigs: Scalar, high: bool, ghost ki: nat, ghost n: nat, ghost s0: nat)
    requires sigr.Reduced() && seckey.Reduced() && message.Reduced() && nonce.Reduced()
    requires nonce.Val() != 0 && Prime(N)
    ensures done <==> Finishes(2, 590, N, nonce.Val())
    ensures done ==> SFrom(sigr.Val(), seckey.Val(), message.Val(), nonce.Val(), ki, n, s0, sigs.Val(), high, N)
    ensures done ==> sigs.Reduced() && sigs.Val() <= N / 2
    ensures done ==> Solves(sigs.Val(), nonce.Val(), sigr.Val(), seckey.Val(), message.Val(), N)
  {
    hide Scalar.Val, Prime, Coprime, IsInverse, Finishes, Solves;
    var t := ScalarMul.Mul(sigr, seckey);
    var carry;
    t, carry := Add(t, message);
    n := t.Val();
    InvertibleScalar(nonce.Val());
    done, sigs := ScalarInverse(nonce);
    high, ki, s0 := false, sigs.Val(), 0;
    if !done { return; }
    sigs := ScalarMul.Mul(sigs, t);
    s0 := sigs.Val();
    high := IsHigh(sigs);
    var sign;
    sigs, sign := CondNegate(sigs, high);
    SignedEquation(sigr.Val(), seckey.Val(), message.Val(), nonce.Val(), ki, n, s0, sigs.Val(), high, N);
  }

  /** secp256k1_ecdsa_sig_sign. What it returns with 1 is low, is a signature for the public key
      of seckey, and recid identifies the point that shows it. */
  method SigSign<T(!new, ==)>(c: Points<T>, ctx: GenContext<T>, seckey: Scalar, message: Scalar, nonce: Scalar)
    returns (done: bool, ok: bool, sigr: Scalar, sigs: Scalar, recid: nat)
    requires ValidPoints(c) && ctx.Valid() && ctx.curve == c.curve
    requires seckey.Reduced() && message.Reduced() && nonce.Reduced() && nonce.Val() != 0
    ensures done <==> Finishes(2, 590, N, nonce.Val())
    ensures done ==> sigr.Val() == c.x(Times(c.curve.group, nonce.Val(), c.curve.base)).Val() % N
    ensures done ==> sigr.Reduced() && sigs.Reduced() && sigs.Val() <= N / 2 && (ok <==> sigr.Val() != 0 && sigs.Val() != 0)
    ensures done && ok ==> exists p ::
              Shows(c, sigr.Val(), sigs.Val(), Times(c.curve.group, seckey.Val(), c.curve.base), message.Val(), p)
              && recid < 4 && (recid % 2 == 1 <==> c.oddY(p)) && (recid >= 2 <==> c.x(p).Val() >= N)
    ensures done ==> Solves(sigs.Val(), nonce.Val(), sigr.Val(), seckey.Val(), message.Val(), N)
  {
    hide ValidPoints, ValidCurve, Abelian, Times, Scalar.Val, Recomputed, PointAt, HasX, Prime, Coprime, Finishes;
    hide Shows, SFrom, Solves, F.Fe.Val, F.Fe.Normalized, GenContext.Valid;
    var rp := ctx.Gen(nonce);
    NonceFinite(c, nonce.Val());
    PointParts(c, rp);
    var overflow, high;
    sigr, overflow := XScalar(c, rp);
    recid := (if overflow then 2 else 0) + (if c.oddY(rp) then 1 else 0);
    ghost var ki, n, s0;
    done, sigs, high, ki, n, s0 := SScalar(sigr, seckey, message, nonce);
    if !done { return false, false, sigr, ZERO, 0; }
    recid := FlipLow(recid, high);
    ok := !IsZero(sigr) && !IsZero(sigs);
    if ok {
      Complete(c, sigr.Val(), sigs.Val(), seckey.Val(), message.Val(), nonce.Val(), ki, n, s0, high, rp, recid);
    }
  }

  /** Signatures that signing hands out are accepted for the public key of the signer. */
  method SignThenVerify<T(!new, ==)>(c: Points<T>, ctx: GenContext<T>, seckey: Scalar, message: Scalar, nonce: Scalar, rounds: nat)
    returns (done: bool, ok: bool, sigr: Scalar, sigs: Scalar, accepted: bool)
    requires ValidPoints(c) && ctx.Valid() && ctx.curve == c.curve
    requires seckey.Reduced() && message.Reduced() && nonce.Reduced() && nonce.Val() != 0 && rounds < 0x100_0000
    ensures done <==> Finishes(2, 590, N, nonce.Val()) && (ok ==> rounds > 0 && Finishes(1, 62 * rounds, N, sigs.Val()))
    ensures Finishes(2, 590, N, nonce.Val()) ==> (ok <==> sigr.Val() != 0 && sigs.Val() != 0)
    ensures done && ok ==> accepted
  {
    hide ValidPoints, ValidCurve, Abelian, Times, Scalar.Val, Shows, Solves, RecoveryId, GenContext.Valid, Finishes;
    accepted := false;
    var pubkey := ctx.Gen(seckey);
    var recid;
    done, ok, sigr, sigs, recid := SigSign(c, ctx, seckey, message, nonce);
    if !done || !ok { return; }
    done, accepted := SigVerify(c, sigr, sigs, pubkey, message, rounds);
  }
}
