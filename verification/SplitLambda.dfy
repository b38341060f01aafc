/** Splitting a scalar for the endomorphism: k = r1 + lambda * r2 with both parts short. */
module SplitLambda {
  import opened Arith
  import opened MachineInts
  import opened Scalars
  import opened ScalarMul
  import opened ScalarBits
  import Shifts

  const LAMBDA: nat := 0x5363AD4CC05C30E0A5261C028812645A122E22EA20816678DF02967C1B23BD72

  /** The reduced basis (a1, b1), (a2, b2) of the lattice of (a, b) with a + b * lambda = 0 (mod N). */
  const A1: nat := 0x3086D221A7D46BCDE86C90E49284EB15
  const MINUS_B1: nat := 0xE4437ED6010E88286F547FA90ABFE4C3
  const A2: nat := 0x114CA50F7A8E2F3F657C1108D9D44CFD8
  const B2: nat := 0x3086D221A7D46BCDE86C90E49284EB15

  const G1: nat := 0x3086D221A7D46BCDE86C90E49284EB153DAA8A1471E8CA7FE893209A45DBB031
  const G2: nat := 0xE4437ED6010E88286F547FA90ABFE4C4221208AC9DF506C61571B4AE8AC47F71

  /** (a1 + a2 + 1) / 2 and (-b1 + b2) / 2 + 1. */
  const K1_BOUND: nat := 0xA2A8918CA85BAFE22016D0B917E4DD77
  const K2_BOUND: nat := 0x8A65287BD47179FB2BE08846CEA267ED

  /** The multiples of the order that the basis vectors give. */
  const KAPPA1: nat := 0x4A5AC2BF7B5F37F9F1DB10D7A2A9C981
  const KAPPA2: nat := 0xFCE9B1DD4EB7DD2718A2906787061B2

  const TWO383 := TWO384 / 2

  const LAMBDA_SCALAR := Scalar(0xDF02967C1B23BD72, 0x122E22EA20816678, 0xA5261C028812645A, 0x5363AD4CC05C30E0)
  const MINUS_B1_SCALAR := Scalar(0x6F547FA90ABFE4C3, 0xE4437ED6010E8828, 0, 0)
  const MINUS_B2_SCALAR := Scalar(0xD765CDA83DB1562C, 0x8A280AC50774346D, 0xFFFFFFFFFFFFFFFE, 0xFFFFFFFFFFFFFFFF)
  const G1_SCALAR := Scalar(0xE893209A45DBB031, 0x3DAA8A1471E8CA7F, 0xE86C90E49284EB15, 0x3086D221A7D46BCD)
  const G2_SCALAR := Scalar(0x1571B4AE8AC47F71, 0x221208AC9DF506C6, 0x6F547FA90ABFE4C4, 0xE4437ED6010E8828)

  lemma SplitConstants()
    ensures LAMBDA_SCALAR.Val() == LAMBDA && LAMBDA_SCALAR.Reduced()
    ensures MINUS_B1_SCALAR.Val() == MINUS_B1 && MINUS_B1_SCALAR.Reduced()
    ensures MINUS_B2_SCALAR.Val() == N - B2 && MINUS_B2_SCALAR.Reduced()
    ensures G1_SCALAR.Val() == G1 && G1_SCALAR.Reduced()
    ensures G2_SCALAR.Val() == G2 && G2_SCALAR.Reduced()
  {
  }

  /** The basis vectors are in the lattice, and their determinant is the order. */
  lemma LatticeBasis()
    ensures A1 - MINUS_B1 * LAMBDA == 0 - KAPPA1 * N
    ensures A2 + B2 * LAMBDA == KAPPA2 * N
    ensures A1 * B2 + MINUS_B1 * A2 == N
    ensures 2 * K1_BOUND == A1 + A2 + 1 && 2 * K2_BOUND == MINUS_B1 + B2 + 2
  {
  }

  /** c is x / 2^384 rounded to the nearest integer. */
  ghost predicate Rounded(c: int, x: int)
  {
    -TWO383 < TWO384 * c - x <= TWO383
  }

  /** The exact decomposition that r1 and r2 are residues of. */
  function K1(k: int, c1: int, c2: int): int { k - c1 * A1 - c2 * A2 }

  function K2(c1: int, c2: int): int { c1 * MINUS_B1 - c2 * B2 }

  /** The bounds: rounding moves k1 and k2 by at most half a basis vector each way. */
  lemma ShortParts(k: int, c1: int, c2: int)
    requires 0 <= k < N && Rounded(c1, k * G1) && Rounded(c2, k * G2)
    ensures 0 - K1_BOUND < K1(k, c1, c2) < K1_BOUND
    ensures 0 - K2_BOUND < K2(c1, c2) < K2_BOUND
  {
    var e1, e2 := TWO384 * c1 - k * G1, TWO384 * c2 - k * G2;
    assert TWO384 * K1(k, c1, c2) == k * (TWO384 - A1 * G1 - A2 * G2) - A1 * e1 - A2 * e2;
    assert TWO384 * K2(c1, c2) == k * (MINUS_B1 * G1 - B2 * G2) + MINUS_B1 * e1 - B2 * e2;
  }

  lemma RoundedIs(c: nat, x: nat)
    requires c == (x + Pow2(383)) / Pow2(384)
    ensures Rounded(c, x)
  {
    Shifts.WeightIsPow2(6);
    WideWeights();
    var h := Pow2(383);
    assert Pow2(384) == 2 * h;
    hide Pow2;
    Nearest(c, x, h);
  }

  lemma Nearest(c: int, x: int, h: int)
    requires h > 0 && c == (x + h) / (2 * h)
    ensures -h < (2 * h) * c - x <= h
  {
    var m := 2 * h;
    assert x + h == c * m + (x + h) % m;
  }

  /** k1 + lambda * k2 = k (mod N). */
  lemma PartsCongruent(k: int, c1: int, c2: int)
    ensures (k - K2(c1, c2) * LAMBDA) % N == K1(k, c1, c2) % N
  {
    LatticeBasis();
    var q := KAPPA2 * c2 - KAPPA1 * c1;
    assert k - K2(c1, c2) * LAMBDA == K1(k, c1, c2) + q * N;
    CongIntro(k - K2(c1, c2) * LAMBDA, K1(k, c1, c2), q, N);
  }

  /** r, or its negation modulo N, is below the bound. */
  predicate ShortModulo(r: int, bound: int) { 0 <= r < bound || N - bound < r < N }

  lemma ShortModuloMeans(r: int, bound: int)
    requires 0 <= r < N && 0 < bound < N
    ensures ShortModulo(r, bound) <==> r < bound || N - r < bound
  {
  }

  lemma ShortResidue(r: int, k: int, bound: int)
    requires 0 <= r < N && r % N == k % N && 0 - bound < k < bound <= N
    ensures ShortModulo(r, bound)
  {
    if k >= 0 {
      DivModUnique(k, 0, k, N);
    } else {
      DivModUnique(k, -1, k + N, N);
    }
    DivModUnique(r, 0, r, N);
  }

  /** k = r1 + lambda * r2 (mod N), with r1 and r2 (or their negations) shorter than 128 bits. */
  method Split(k: Scalar) returns (r1: Scalar, r2: Scalar)
    requires k.Reduced()
    ensures r1.Reduced() && r2.Reduced()
    ensures (r1.Val() + LAMBDA * r2.Val()) % N == k.Val()
    ensures ShortModulo(r1.Val(), K1_BOUND) && ShortModulo(r2.Val(), K2_BOUND)
  {
    hide Scalar.Val, Pow2, Rounded, K2, ShortModulo;
    SplitConstants();
    var c1 := Round(k, G1_SCALAR, G1);
    var c2 := Round(k, G2_SCALAR, G2);
    r2 := Second(c1, c2);
    r1 := First(k, r2);
    SplitResult(k.Val(), c1.Val(), c2.Val(), r1.Val(), r2.Val());
  }

  /** k * g / 2^384, to the nearest integer. */
  method Round(k: Scalar, g: Scalar, ghost gv: nat) returns (c: Scalar)
    requires k.Reduced() && g.Reduced() && g.Val() == gv
    ensures c.Reduced() && Rounded(c.Val(), k.Val() * gv)
  {
    hide Scalar.Val, Pow2, Rounded;
    c := MulShiftVar(k, g, 384);
    MulNat(k.Val(), gv);
    RoundedIs(c.Val(), k.Val() * gv);
  }

  /** The part that belongs to lambda. */
  method Second(c1: Scalar, c2: Scalar) returns (r2: Scalar)
    requires c1.Reduced() && c2.Reduced()
    ensures r2.Reduced() && r2.Val() % N == K2(c1.Val(), c2.Val()) % N
  {
    hide Scalar.Val, K2;
    SplitConstants();
    var y1 := Mul(c1, MINUS_B1_SCALAR);
    var y2 := Mul(c2, MINUS_B2_SCALAR);
    var o;
    r2, o := Add(y1, y2);
    SecondPart(c1.Val(), c2.Val(), y1.Val(), y2.Val(), r2.Val());
  }

  /** What is left of k. */
  method First(k: Scalar, r2: Scalar) returns (r1: Scalar)
    requires k.Reduced() && r2.Reduced()
    ensures r1.Reduced() && r1.Val() % N == (k.Val() - r2.Val() * LAMBDA) % N
  {
    hide Scalar.Val;
    SplitConstants();
    var m := Mul(r2, LAMBDA_SCALAR);
    var neg := Negate(m);
    var o;
    r1, o := Add(neg, k);
    FirstPart(k.Val(), r2.Val(), m.Val(), neg.Val(), r1.Val());
  }

  lemma SecondPart(x1: nat, x2: nat, y1: int, y2: int, r2: int)
    requires y1 == (x1 * MINUS_B1) % N && y2 == (x2 * (N - B2)) % N && r2 == (y1 + y2) % N
    ensures r2 % N == K2(x1, x2) % N
  {
    CongIntro(x2 * (N - B2), 0 - x2 * B2, x2, N);
    ModTwice(x1 * MINUS_B1, N);
    ModTwice(x2 * (N - B2), N);
    CongAdd(y1, x1 * MINUS_B1, y2, 0 - x2 * B2, N);
    ModTwice(y1 + y2, N);
  }

  lemma FirstPart(k: int, r2: int, m: int, neg: int, r1: int)
    requires m == (r2 * LAMBDA) % N && neg == (if m == 0 then 0 else N - m) && r1 == (neg + k) % N
    ensures r1 % N == (k - r2 * LAMBDA) % N
  {
    ModTwice(r2 * LAMBDA, N);
    CongIntro(neg + k, k - m, if m == 0 then 0 else 1, N);
    CongAdd(k, k, m, r2 * LAMBDA, N);
    ModTwice(neg + k, N);
  }

  lemma SplitResult(k: int, x1: nat, x2: nat, r1: int, r2: int)
    requires 0 <= k < N && Rounded(x1, k * G1) && Rounded(x2, k * G2) && 0 <= r1 < N && 0 <= r2 < N
    requires r2 % N == K2(x1, x2) % N && r1 % N == (k - r2 * LAMBDA) % N
    ensures (r1 + LAMBDA * r2) % N == k
    ensures ShortModulo(r1, K1_BOUND) && ShortModulo(r2, K2_BOUND)
  {
    hide K1, K2, Rounded;
    ShortParts(k, x1, x2);
    ShortResidue(r2, K2(x1, x2), K2_BOUND);
    CongMul(r2, K2(x1, x2), LAMBDA, LAMBDA, N);
    CongAdd(k, k, r2 * LAMBDA, K2(x1, x2) * LAMBDA, N);
    PartsCongruent(k, x1, x2);
    ShortResidue(r1, K1(k, x1, x2), K1_BOUND);
    CongAdd(r1, k - r2 * LAMBDA, r2 * LAMBDA, r2 * LAMBDA, N);
    DivModUnique(k, 0, k, N);
  }
}
