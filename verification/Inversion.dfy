/** Inverses of scalars and of field elements: the conversions to 62-bit limbs, the two moduli,
    and the calls of the division-step inversion. */
module Inversion {
  import opened Arith
  import opened MachineInts
  import opened NumberTheory
  import opened Limbs62
  import opened ModInvTheory
  import opened ModInv64
  import opened Scalars
  import F = Field52

  // ----- cutting words -----

  function LowPart(x: nat, m: nat): (l: nat)
    requires m > 0
    ensures l < m
  {
    x % m
  }

  function HighPart(x: nat, m: nat): (h: nat)
    requires m > 0
    ensures x == LowPart(x, m) + h * m
  {
    x / m
  }

  const TWO2: nat := 0x4
  const TWO4: nat := 0x10
  const TWO6: nat := 0x40
  const TWO8: nat := 0x100
  const TWO10: nat := 0x400
  const TWO20: nat := 0x10_0000
  const TWO22: nat := 0x40_0000
  const TWO30: nat := 0x4000_0000
  const TWO40: nat := 0x100_0000_0000
  const TWO42: nat := 0x400_0000_0000
  const TWO52: nat := 0x10_0000_0000_0000
  const TWO56: nat := 0x100_0000_0000_0000
  const TWO58: nat := 0x400_0000_0000_0000
  const TWO60: nat := 0x1000_0000_0000_0000

  lemma ValFive(v: seq<int>)
    requires |v| == 5
    ensures Val(v) == v[0] + v[1] * TWO62 + v[2] * (TWO62 * TWO62) + v[3] * (TWO62 * TWO62 * TWO62)
                      + v[4] * (TWO62 * TWO62 * TWO62 * TWO62)
  {
    ValOfFive(v);
    hide Val;
  }

  lemma FiveLow(v: seq<int>)
    requires |v| == 5 && LowLimbs(v)
    ensures 0 <= v[0] < TWO62 && 0 <= v[1] < TWO62 && 0 <= v[2] < TWO62 && 0 <= v[3] < TWO62 && 0 <= v[4] < TWO62
  {
    assert Limbs62.Low(v[0]) && Limbs62.Low(v[1]) && Limbs62.Low(v[2]) && Limbs62.Low(v[3]) && Limbs62.Low(v[4]);
  }

  // ----- scalars -----

  /** Four 64-bit limbs recut into 62-bit limbs. */
  function ScalarToSigned62(a: Scalar): (v: seq<int>)
    ensures |v| == 5
  {
    [ LowPart(a.d0, TWO62),
      HighPart(a.d0, TWO62) + LowPart(a.d1, TWO60) * TWO2,
      HighPart(a.d1, TWO60) + LowPart(a.d2, TWO58) * TWO4,
      HighPart(a.d2, TWO58) + LowPart(a.d3, TWO56) * TWO6,
      HighPart(a.d3, TWO56) ]
  }

  lemma ScalarToSigned62Val(a: Scalar)
    ensures LowLimbs(ScalarToSigned62(a)) && Val(ScalarToSigned62(a)) == a.Val()
  {
    hide LowPart, HighPart, Val;
    ValFive(ScalarToSigned62(a));
  }

  /** And back. */
  function ScalarFromSigned62(v: seq<int>): (r: Scalar)
    requires |v| == 5 && LowLimbs(v) && v[4] < TWO8
  {
    FiveLow(v);
    Scalar(v[0] + LowPart(v[1], TWO2) * TWO62,
           HighPart(v[1], TWO2) + LowPart(v[2], TWO4) * TWO60,
           HighPart(v[2], TWO4) + LowPart(v[3], TWO6) * TWO58,
           HighPart(v[3], TWO6) + v[4] * TWO56)
  }

  lemma ScalarFromSigned62Val(v: seq<int>)
    requires |v| == 5 && LowLimbs(v) && v[4] < TWO8
    ensures ScalarFromSigned62(v).Val() == Val(v)
  {
    hide LowPart, HighPart, Val;
    ValFive(v);
  }

  lemma TopBelow256(v: seq<int>, m: nat)
    requires |v| == 5 && LowLimbs(v) && Val(v) < m <= TWO256
    ensures v[4] < TWO8
  {
    hide Val;
    ValFive(v);
    FiveLow(v);
  }

  const SCALAR_INFO := ModInfo([0x3FD25E8CD0364141, 0x2ABB739ABD2280EE, -0x15, 0, 256], 0x34F20099AA774EC1)

  lemma ScalarInfo()
    ensures ValidInfo(SCALAR_INFO) && Val(SCALAR_INFO.modulus) == N
  {
    hide Val, Pow2;
    ValFive(SCALAR_INFO.modulus);
    Pow256();
    assert (0x34F20099AA774EC1 * 0xFFFFFFFFFFFFFFFFFFFFFFFFFFFFFFFEBAAEDCE6AF48A03BBFD25E8CD0364141) % TWO62 == 1;
  }

  /** Modulo a prime, everything but zero is invertible. */
  lemma PrimeCoprime(p: nat, x: nat)
    requires Prime(p) && 0 < x < p
    ensures Coprime(x, p)
  {
    forall k: int | k > 0 && Divides(k, x) && Divides(k, p) ensures k == 1 { DividesAtMost(k, x); }
  }

  /** From reduced limbs to a scalar, and why that is possible. */
  method ScalarResult(s: seq<int>, ghost x: nat) returns (r: Scalar)
    requires |s| == 5 && LowLimbs(s) && IsInverse(Val(s), x, N)
    ensures r.Reduced() && IsInverse(r.Val(), x, N)
  {
    hide Val, LowLimbs, ValidInfo, Scalar.Val, ScalarFromSigned62;
    TopBelow256(s, N);
    ScalarFromSigned62Val(s);
    r := ScalarFromSigned62(s);
  }

  /** secp256k1_scalar_inverse_var, for as many rounds as the caller allows. */
  method ScalarInverseVar(x: Scalar, rounds: nat) returns (done: bool, r: Scalar)
    requires x.Reduced() && (x.Val() == 0 || Coprime(x.Val(), N)) && rounds < 0x100_0000
    ensures done <==> rounds > 0 && Finishes(1, 62 * rounds, N, x.Val())
    ensures done ==> r.Reduced() && IsInverse(r.Val(), x.Val(), N)
  {
    hide Val, LowLimbs, IsInverse, ValidInfo, Finishes, Scalar.Val, ScalarToSigned62, Coprime;
    var v := ScalarToSigned62(x);
    ScalarToSigned62Val(x);
    ScalarInfo();
    var s := Limbs(v);
    done := ModInv64Var(s, SCALAR_INFO, rounds);
    r := ZERO;
    if done { r := ScalarResult(s[..], x.Val()); }
  }

  /** secp256k1_scalar_inverse: `zero` tells that the fixed ten rounds were enough. */
  method ScalarInverse(x: Scalar) returns (zero: bool, r: Scalar)
    requires x.Reduced() && (x.Val() == 0 || Coprime(x.Val(), N))
    ensures zero <==> Finishes(2, 590, N, x.Val())
    ensures zero ==> r.Reduced() && IsInverse(r.Val(), x.Val(), N)
  {
    hide Val, LowLimbs, IsInverse, ValidInfo, Finishes, Scalar.Val, ScalarToSigned62, Coprime;
    var v := ScalarToSigned62(x);
    ScalarToSigned62Val(x);
    ScalarInfo();
    var s := Limbs(v);
    zero := ModInv64.ModInv64(s, SCALAR_INFO);
    r := ZERO;
    if zero { r := ScalarResult(s[..], x.Val()); }
  }

  method Limbs(v: seq<int>) returns (s: array<int>)
    requires |v| == 5
    ensures fresh(s) && s[..] == v && s.Length == 5
  {
    s := new int[5](i requires 0 <= i < 5 => v[i]);
  }

  // ----- field elements -----

  /** Five 52-bit limbs recut into 62-bit limbs. */
  function FeToSigned62(a: F.Fe): (v: seq<int>)
    ensures |v| == 5
  {
    [ LowPart(a.n0 + LowPart(a.n1, TWO10) * TWO52, TWO62),
      HighPart(a.n1, TWO10) + LowPart(a.n2, TWO20) * TWO42,
      HighPart(a.n2, TWO20) + LowPart(a.n3, TWO30) * TWO32,
      HighPart(a.n3, TWO30) + LowPart(a.n4, TWO40) * TWO22,
      HighPart(a.n4, TWO40) ]
  }

  lemma LowPartSmall(x: nat, m: nat)
    requires x < m
    ensures LowPart(x, m) == x
  {
  }

  lemma FeToSigned62Val(a: F.Fe)
    requires a.Normalized()
    ensures LowLimbs(FeToSigned62(a)) && Val(FeToSigned62(a)) == a.Val()
  {
    hide LowPart, HighPart, Val;
    LowPartSmall(a.n0 + LowPart(a.n1, TWO10) * TWO52, TWO62);
    ValFive(FeToSigned62(a));
  }

  /** And back. */
  function FeFromSigned62(v: seq<int>): (r: F.Fe)
    requires |v| == 5 && LowLimbs(v) && v[4] < TWO8
  {
    FiveLow(v);
    F.Fe(LowPart(v[0], TWO52),
         HighPart(v[0], TWO52) + LowPart(v[1], TWO42) * TWO10,
         HighPart(v[1], TWO42) + LowPart(v[2], TWO32) * TWO20,
         HighPart(v[2], TWO32) + LowPart(v[3], TWO22) * TWO30,
         HighPart(v[3], TWO22) + v[4] * TWO40)
  }

  lemma FeFromSigned62Val(v: seq<int>)
    requires |v| == 5 && LowLimbs(v) && Val(v) < F.P && v[4] < TWO8
    ensures FeFromSigned62(v).Val() == Val(v) && FeFromSigned62(v).Normalized()
  {
    hide LowPart, HighPart, Val;
    FiveLow(v);
    ValFive(v);
  }

  const FE_INFO := ModInfo([-0x1000003D1, 0, 0, 0, 256], 0x27C7F6E22DDACACF)

  lemma FeInfo()
    ensures ValidInfo(FE_INFO) && Val(FE_INFO.modulus) == F.P
  {
    hide Val, Pow2;
    ValFive(FE_INFO.modulus);
    Pow256();
    assert (0x27C7F6E22DDACACF * 0xFFFFFFFFFFFFFFFFFFFFFFFFFFFFFFFFFFFFFFFFFFFFFFFFFFFFFFFEFFFFFC2F) % TWO62 == 1;
  }

  method FeResult(s: seq<int>, ghost x: nat) returns (r: F.Fe)
    requires |s| == 5 && LowLimbs(s) && IsInverse(Val(s), x, F.P)
    ensures r.Normalized() && IsInverse(r.Val(), x, F.P)
  {
    hide Val, LowLimbs, ValidInfo, F.Fe.Val, FeFromSigned62;
    TopBelow256(s, F.P);
    FeFromSigned62Val(s);
    r := FeFromSigned62(s);
  }

  /** secp256k1_fe_inv_var. */
  method FeInvVar(x: F.Fe, rounds: nat) returns (done: bool, r: F.Fe)
    requires x.Magnitude(2047) && (x.Val() % F.P == 0 || Coprime(x.Val() % F.P, F.P)) && rounds < 0x100_0000
    ensures done <==> rounds > 0 && Finishes(1, 62 * rounds, F.P, x.Val() % F.P)
    ensures done ==> r.Normalized() && IsInverse(r.Val(), x.Val() % F.P, F.P)
  {
    hide Val, LowLimbs, IsInverse, ValidInfo, Finishes, F.Fe.Val, FeToSigned62, Coprime;
    F.RoomBelow(x);
    var tmp := F.NormalizeVar(x);
    var v := FeToSigned62(tmp);
    FeToSigned62Val(tmp);
    FeInfo();
    var s := Limbs(v);
    done := ModInv64Var(s, FE_INFO, rounds);
    r := F.Fe(0, 0, 0, 0, 0);
    if done { r := FeResult(s[..], tmp.Val()); }
  }

  /** secp256k1_fe_inv: `zero` tells that the fixed ten rounds were enough. */
  method FeInv(x: F.Fe) returns (zero: bool, r: F.Fe)
    requires x.Magnitude(2047) && (x.Val() % F.P == 0 || Coprime(x.Val() % F.P, F.P))
    ensures zero <==> Finishes(2, 590, F.P, x.Val() % F.P)
    ensures zero ==> r.Normalized() && IsInverse(r.Val(), x.Val() % F.P, F.P)
  {
    hide Val, LowLimbs, IsInverse, ValidInfo, Finishes, F.Fe.Val, FeToSigned62, Coprime;
    F.RoomBelow(x);
    var tmp := F.Normalize(x);
    var v := FeToSigned62(tmp);
    FeToSigned62Val(tmp);
    FeInfo();
    var s := Limbs(v);
    zero := ModInv64.ModInv64(s, FE_INFO);
    r := F.Fe(0, 0, 0, 0, 0);
    if zero { r := FeResult(s[..], tmp.Val()); }
  }
}
