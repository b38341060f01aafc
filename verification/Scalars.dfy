/** Scalars modulo the group order as four 64-bit limbs. */
module Scalars {
  import opened Arith
  import opened MachineInts

  const TWO128 := 0x1_0000_0000_0000_0000_0000_0000_0000_0000
  const TWO192 := 0x1_0000_0000_0000_0000_0000_0000_0000_0000_0000_0000_0000_0000
  const TWO256 := 0x1_0000_0000_0000_0000_0000_0000_0000_0000_0000_0000_0000_0000_0000_0000_0000_0000

  const N_0: uint64 := 0xBFD25E8CD0364141
  const N_1: uint64 := 0xBAAEDCE6AF48A03B
  const N_2: uint64 := 0xFFFFFFFFFFFFFFFE
  const N_3: uint64 := 0xFFFFFFFFFFFFFFFF

  /** The limbs of 2^256 - N. */
  const N_C_0: uint64 := (TWO64 - 1 - N_0) + 1
  const N_C_1: uint64 := TWO64 - 1 - N_1
  const N_C_2: uint64 := 1

  /** The limbs of (N - 1) / 2. */
  const N_H_0: uint64 := 0xDFE92F46681B20A0
  const N_H_1: uint64 := 0x5D576E7357A4501D
  const N_H_2: uint64 := 0xFFFFFFFFFFFFFFFF
  const N_H_3: uint64 := 0x7FFFFFFFFFFFFFFF

  /** The group order. */
  const N: nat := 0xFFFFFFFFFFFFFFFFFFFFFFFFFFFFFFFEBAAEDCE6AF48A03BBFD25E8CD0364141

  /** 2^256 - N. */
  const N_C: nat := 0x1_4551231950B75FC4402DA1732FC9BEBF

  type uint128 = x: int | 0 <= x < TWO128

  datatype Scalar = Scalar(d0: uint64, d1: uint64, d2: uint64, d3: uint64) {
    /** The number the limbs denote. */
    function Val(): (v: nat)
      ensures v < TWO256
    {
      d0 + d1 * TWO64 + d2 * TWO128 + d3 * TWO192
    }

    /** A scalar proper is fully reduced. */
    predicate Reduced() { Val() < N }

    function Limb(i: nat): uint64
      requires i < 4
    {
      if i == 0 then d0 else if i == 1 then d1 else if i == 2 then d2 else d3
    }
  }

  const ZERO := Scalar(0, 0, 0, 0)

  lemma OrderLimbs()
    ensures N_C == TWO256 - N
    ensures N == N_0 + N_1 * TWO64 + N_2 * TWO128 + N_3 * TWO192
    ensures N_C == N_C_0 + N_C_1 * TWO64 + N_C_2 * TWO128
    ensures N / 2 == N_H_0 + N_H_1 * TWO64 + N_H_2 * TWO128 + N_H_3 * TWO192
  {
  }

  lemma Pow256()
    ensures Pow2(256) == TWO256
  {
    PowersOfTwo();
    Pow2Add(64, 64);
    Pow2Add(128, 128);
  }

  /** Limb-wise comparison with the order, from the top. */
  function CheckOverflow(a: Scalar): (yes: bool)
    ensures yes <==> a.Val() >= N
  {
    var no3 := a.d3 < N_3;
    var no2 := no3 || a.d2 < N_2;
    var yes2 := a.d2 > N_2 && !no2;
    var no1 := no2 || a.d1 < N_1;
    var yes1 := yes2 || (a.d1 > N_1 && !no1);
    yes1 || (a.d0 >= N_0 && !no1)
  }

  function IsHigh(a: Scalar): (yes: bool)
    ensures yes <==> a.Val() > N / 2
  {
    var no3 := a.d3 < N_H_3;
    var yes3 := a.d3 > N_H_3 && !no3;
    var no2 := no3 || (a.d2 < N_H_2 && !yes3);
    var no1 := no2 || (a.d1 < N_H_1 && !yes3);
    var yes1 := yes3 || (a.d1 > N_H_1 && !no1);
    yes1 || (a.d0 > N_H_0 && !no1)
  }

  function IsZero(a: Scalar): (zero: bool)
    ensures zero <==> a.Val() == 0
  {
    a.d0 == 0 && a.d1 == 0 && a.d2 == 0 && a.d3 == 0
  }

  function IsEven(a: Scalar): (even: bool)
    ensures even <==> a.Val() % 2 == 0
  {
    hide Scalar.Val;
    EvenVal(a);
    a.d0 % 2 == 0
  }

  lemma EvenVal(a: Scalar)
    ensures a.Val() % 2 == a.d0 % 2
  {
    var y := a.d1 * TWO63 + a.d2 * (TWO64 * TWO63) + a.d3 * (TWO128 * TWO63);
    assert a.Val() == a.d0 + 2 * y;
    hide Scalar.Val;
    EvenSum(a.d0, y);
  }

  lemma EvenSum(x: int, y: int)
    ensures (x + 2 * y) % 2 == x % 2
  {
    CongIntro(x + 2 * y, x, y, 2);
  }

  /** Low word and carry of a 128-bit accumulator. */
  function Low(t: uint128): uint64 { t % TWO64 }

  function High(t: uint128): (h: uint64)
    ensures t == Low(t) + h * TWO64
  {
    t / TWO64
  }

  /** The carry chain that the additions share: each limb keeps the low word of a 128-bit sum
      and passes the rest on. */
  method CarryLimbs(s0: uint128, s1: uint128, s2: uint128, s3: uint128) returns (r: Scalar, carry: uint64)
    requires s0 < TWO127 && s1 < TWO127 && s2 < TWO127 && s3 < TWO127
    ensures r.Val() + carry * TWO256 == s0 + s1 * TWO64 + s2 * TWO128 + s3 * TWO192
  {
    hide Low, High;
    var t: uint128 := s0;
    var d0 := Low(t);
    t := High(t);
    t := t + s1;
    var d1 := Low(t);
    t := High(t);
    t := t + s2;
    var d2 := Low(t);
    t := High(t);
    t := t + s3;
    var d3 := Low(t);
    carry := High(t);
    r := Scalar(d0, d1, d2, d3);
  }

  /** r + overflow * (2^256 - N), modulo 2^256. */
  method Reduce(r0: Scalar, overflow: int) returns (r: Scalar)
    requires 0 <= overflow <= 1
    ensures r.Val() == (r0.Val() + overflow * N_C) % TWO256
  {
    var carry;
    r, carry := CarryLimbs(r0.d0 + overflow * N_C_0, r0.d1 + overflow * N_C_1, r0.d2 + overflow * N_C_2, r0.d3);
    OrderLimbs();
    DivModUnique(r0.Val() + overflow * N_C, carry, r.Val(), TWO256);
  }

  method Add(a: Scalar, b: Scalar) returns (r: Scalar, overflow: int)
    requires a.Reduced() && b.Reduced()
    ensures r.Reduced() && r.Val() == (a.Val() + b.Val()) % N
    ensures overflow == (a.Val() + b.Val()) / N
  {
    hide Scalar.Val, CheckOverflow;
    var s, t := CarryLimbs(a.d0 + b.d0, a.d1 + b.d1, a.d2 + b.d2, a.d3 + b.d3);
    LimbSum(a, b);
    LimbsBelow(s);
    overflow := t + (if CheckOverflow(s) then 1 else 0);
    SubtractOrder(a.Val() + b.Val(), s.Val(), t, overflow);
    r := Reduce(s, overflow);
  }

  lemma LimbSum(a: Scalar, b: Scalar)
    ensures a.Val() + b.Val()
         == (a.d0 + b.d0) + (a.d1 + b.d1) * TWO64 + (a.d2 + b.d2) * TWO128 + (a.d3 + b.d3) * TWO192
  {
  }

  lemma LimbsBelow(r: Scalar)
    ensures r.Val() < TWO256
  {
  }

  /** A number below 2N, split at 2^256: adding 2^256 - N to its low part reduces it. */
  lemma SubtractOrder(x: int, s: int, t: int, overflow: int)
    requires 0 <= x < 2 * N && x == s + t * TWO256 && 0 <= s < TWO256 && 0 <= t
    requires overflow == t + (if s >= N then 1 else 0)
    ensures 0 <= overflow <= 1 && overflow == x / N
    ensures (s + overflow * N_C) % TWO256 == x % N
  {
    if x < N {
      DivModUnique(x, 0, x, N);
    } else {
      DivModUnique(x, 1, x - N, N);
      if t == 0 {
        DivModUnique(s + N_C, 1, x - N, TWO256);
      }
    }
  }

  /** The bitwise complement of a word. */
  function Not(x: uint64): uint64 { TWO64 - 1 - x }

  method Negate(a: Scalar) returns (r: Scalar)
    requires a.Reduced()
    ensures r.Reduced() && r.Val() == (if a.Val() == 0 then 0 else N - a.Val())
  {
    OrderLimbs();
    var s, carry := CarryLimbs(Not(a.d0) + N_0 + 1, Not(a.d1) + N_1, Not(a.d2) + N_2, Not(a.d3) + N_3);
    SplitSum(s, carry, TWO256 + N - a.Val());
    assert ZERO.Val() == 0;
    hide Scalar.Val, IsZero;
    r := if IsZero(a) then ZERO else s;
  }

  /** Negate when flag is set: the mask makes the same additions a no-op otherwise. */
  method CondNegate(a: Scalar, flag: bool) returns (r: Scalar, sign: int)
    requires a.Val() <= N
    ensures sign == (if flag then -1 else 1)
    ensures r.Val() == (if flag && a.Val() != 0 then N - a.Val() else a.Val())
  {
    hide Masked, MaskedConst, U64;
    MaskedSum(a, flag);
    var s, carry := CarryLimbs(Masked(a.d0, flag) + MaskedConst(U64(N_0 + 1), flag),
                               Masked(a.d1, flag) + MaskedConst(N_1, flag),
                               Masked(a.d2, flag) + MaskedConst(N_2, flag),
                               Masked(a.d3, flag) + MaskedConst(N_3, flag));
    SplitSum(s, carry, if flag then TWO256 + N - a.Val() else a.Val());
    assert ZERO.Val() == 0;
    hide Scalar.Val, IsZero;
    r := if IsZero(a) then ZERO else s;
    sign := if flag then -1 else 1;
  }

  lemma SplitSum(s: Scalar, carry: int, sum: int)
    requires s.Val() + carry * TWO256 == sum && 0 <= sum < 2 * TWO256
    ensures s.Val() == (if sum < TWO256 then sum else sum - TWO256)
  {
  }

  /** x & mask. */
  function MaskedConst(x: uint64, flag: bool): uint64 { if flag then x else 0 }

  lemma MaskedSum(a: Scalar, flag: bool)
    ensures Masked(a.d0, flag) + Masked(a.d1, flag) * TWO64 + Masked(a.d2, flag) * TWO128 + Masked(a.d3, flag) * TWO192
         == (if flag then TWO256 - 1 - a.Val() else a.Val())
    ensures MaskedConst(U64(N_0 + 1), flag) + MaskedConst(N_1, flag) * TWO64 + MaskedConst(N_2, flag) * TWO128
            + MaskedConst(N_3, flag) * TWO192 == (if flag then N + 1 else 0)
  {
    OrderLimbs();
  }

  /** x ^ mask for an all-ones or all-zeros mask. */
  function Masked(x: uint64, flag: bool): uint64 { if flag then Not(x) else x }
}
