/** Scalar multiplication: a 512-bit product, folded down to 385, 258 and 256 bits. */
module ScalarMul {
  import opened Arith
  import opened MachineInts
  import opened Scalars

  const TWO160 := 0x1_0000_0000_0000_0000_0000_0000_0000_0000_0000_0000
  const TWO320 := 0x1_0000_0000_0000_0000_0000_0000_0000_0000_0000_0000_0000_0000_0000_0000_0000_0000_0000_0000_0000_0000
  const TWO384 := 0x1_0000_0000_0000_0000_0000_0000_0000_0000_0000_0000_0000_0000_0000_0000_0000_0000_0000_0000_0000_0000_0000_0000_0000_0000
  const TWO448 := 0x1_0000_0000_0000_0000_0000_0000_0000_0000_0000_0000_0000_0000_0000_0000_0000_0000_0000_0000_0000_0000_0000_0000_0000_0000_0000_0000_0000_0000

  /** A product is at most this. */
  const MAX_PRODUCT := 0xFFFF_FFFF_FFFF_FFFE_0000_0000_0000_0001

  datatype Wide = Wide(l0: uint64, l1: uint64, l2: uint64, l3: uint64, l4: uint64, l5: uint64, l6: uint64, l7: uint64) {
    function Val(): nat
    {
      l0 + l1 * TWO64 + l2 * TWO128 + l3 * TWO192 + l4 * TWO256 + l5 * TWO320 + l6 * TWO384 + l7 * TWO448
    }

    function Limb(i: nat): uint64
      requires i < 8
    {
      if i == 0 then l0 else if i == 1 then l1 else if i == 2 then l2 else if i == 3 then l3
      else if i == 4 then l4 else if i == 5 then l5 else if i == 6 then l6 else l7
    }
  }

  /** The 160-bit accumulator. */
  datatype Acc = Acc(c0: uint64, c1: uint64, c2: uint32) {
    function Val(): nat { c0 + c1 * TWO64 + c2 * TWO128 }

    /** Drop the lowest word. */
    function Shift(): Acc { Acc(c1, c2, 0) }
  }

  lemma WordProduct(a: uint64, b: uint64)
    ensures 0 <= a * b <= MAX_PRODUCT
  {
    MulMono(0, a, b);
    MulMono(a, TWO64 - 1, b);
    MulMono(b, TWO64 - 1, TWO64 - 1);
  }

  /** Add a*b; the top word does not overflow as long as there is room for one more product. */
  method MulAdd(c: Acc, a: uint64, b: uint64) returns (r: Acc)
    requires c.Val() < TWO160 - TWO128
    ensures r.Val() == c.Val() + a * b && r.Val() <= c.Val() + MAX_PRODUCT
    ensures c.Val() + a * b < TWO128 ==> r.c2 == 0
  {
    hide Acc.Val;
    WordProduct(a, b);
    var t: uint128 := a * b;
    HighWord(t);
    r := AddDouble(c, t / TWO64, t % TWO64);
  }

  lemma HighWord(t: uint128)
    requires t <= MAX_PRODUCT
    ensures t == (t / TWO64) * TWO64 + t % TWO64 && 0 <= t / TWO64 <= TWO64 - 2
  {
  }

  /** The carries of `MulAdd`: a wrapped sum below an addend tells of a carry. */
  method AddDouble(c: Acc, th0: uint64, tl: uint64) returns (r: Acc)
    requires c.Val() < TWO160 - TWO128 && th0 <= TWO64 - 2
    ensures r.Val() == c.Val() + th0 * TWO64 + tl
    ensures c.Val() + th0 * TWO64 + tl < TWO128 ==> r.c2 == 0
  {
    var c0 := U64(c.c0 + tl);
    var th: uint64 := th0 + (if c0 < tl then 1 else 0);
    var c1 := U64(c.c1 + th);
    var c2 := c.c2 + (if c1 < th then 1 else 0);
    r := Acc(c0, c1, c2);
  }

  method SumAdd(c: Acc, a: uint64) returns (r: Acc)
    requires c.Val() < TWO160 - TWO128
    ensures r.Val() == c.Val() + a
    ensures c.Val() + a < TWO128 ==> r.c2 == 0
  {
    var c0 := U64(c.c0 + a);
    var over := if c0 < a then 1 else 0;
    var c1 := U64(c.c1 + over);
    var c2 := c.c2 + (if c1 < over then 1 else 0);
    r := Acc(c0, c1, c2);
  }

  /** The two-word forms leave the top word out: the sum must fit in 128 bits. */
  method MulAddFast(c: Acc, a: uint64, b: uint64) returns (r: Acc)
    requires c.c2 == 0 && c.Val() + a * b < TWO128
    ensures r.c2 == 0 && r.Val() == c.Val() + a * b
  {
    WordProduct(a, b);
    var t: uint128 := a * b;
    HighWord(t);
    r := AddDoubleFast(c, t / TWO64, t % TWO64);
  }

  method AddDoubleFast(c: Acc, th0: uint64, tl: uint64) returns (r: Acc)
    requires c.c2 == 0 && th0 <= TWO64 - 2 && c.Val() + th0 * TWO64 + tl < TWO128
    ensures r.c2 == 0 && r.Val() == c.Val() + th0 * TWO64 + tl
  {
    var c0 := U64(c.c0 + tl);
    var th: uint64 := th0 + (if c0 < tl then 1 else 0);
    var c1: uint64 := c.c1 + th;
    r := Acc(c0, c1, 0);
  }

  method SumAddFast(c: Acc, a: uint64) returns (r: Acc)
    requires c.c2 == 0 && c.Val() + a < TWO128
    ensures r.c2 == 0 && r.Val() == c.Val() + a
  {
    var c0 := U64(c.c0 + a);
    var c1: uint64 := c.c1 + (if c0 < a then 1 else 0);
    r := Acc(c0, c1, 0);
  }

  lemma ShiftVal(c: Acc)
    ensures c.Val() == c.c0 + c.Shift().Val() * TWO64
  {
  }

  /** The 512-bit product. */
  method Mul512(a: Scalar, b: Scalar) returns (l: Wide)
    ensures l.Val() == a.Val() * b.Val()
  {
    hide Acc.Val, Scalar.Val, LowColumns;
    ColumnsProduct(a, b, a.Val() * b.Val());
    var l0, l1, l2, l3, l4, l5, c := LowWords(a, b);
    ghost var low := l0 + l1 * TWO64 + l2 * TWO128 + l3 * TWO192 + l4 * TWO256 + l5 * TWO320;
    WordProduct(a.d3, b.d3);
    LastProduct(low, c.Val(), a.d3 * b.d3, a.Val(), b.Val());
    SmallAcc(c);
    c := MulAddFast(c, a.d3, b.d3);
    ShiftVal(c);
    var l6 := c.c0;
    c := c.Shift();
    var l7 := c.c0;
    OneWord(c);
    l := Wide(l0, l1, l2, l3, l4, l5, l6, l7);
  }

  /** The columns below the last one, and what they carry into it. */
  method LowWords(a: Scalar, b: Scalar) returns (l0: uint64, l1: uint64, l2: uint64, l3: uint64, l4: uint64, l5: uint64, c: Acc)
    ensures l0 + l1 * TWO64 + l2 * TWO128 + l3 * TWO192 + l4 * TWO256 + l5 * TWO320 + c.Val() * TWO384 == LowColumns(a, b)
  {
    hide Acc.Val, Scalar.Val;
    assert Acc(0, 0, 0).Val() == 0 by { AccZero(); }
    c := Acc(0, 0, 0);
    WordProduct(a.d0, b.d0);
    c := MulAddFast(c, a.d0, b.d0);
    ShiftVal(c);
    l0 := c.c0;
    c := c.Shift();
    c := MulAdd(c, a.d0, b.d1);
    c := MulAdd(c, a.d1, b.d0);
    ShiftVal(c);
    l1 := c.c0;
    c := c.Shift();
    c := MulAdd(c, a.d0, b.d2);
    c := MulAdd(c, a.d1, b.d1);
    c := MulAdd(c, a.d2, b.d0);
    ShiftVal(c);
    l2 := c.c0;
    c := c.Shift();
    c := MulAdd(c, a.d0, b.d3);
    c := MulAdd(c, a.d1, b.d2);
    c := MulAdd(c, a.d2, b.d1);
    c := MulAdd(c, a.d3, b.d0);
    ShiftVal(c);
    l3 := c.c0;
    c := c.Shift();
    c := MulAdd(c, a.d1, b.d3);
    c := MulAdd(c, a.d2, b.d2);
    c := MulAdd(c, a.d3, b.d1);
    ShiftVal(c);
    l4 := c.c0;
    c := c.Shift();
    c := MulAdd(c, a.d2, b.d3);
    c := MulAdd(c, a.d3, b.d2);
    ShiftVal(c);
    l5 := c.c0;
    c := c.Shift();
  }

  /** The columns of the product, all but the last. */
  ghost function LowColumns(a: Scalar, b: Scalar): int
  {
    a.d0 * b.d0
    + (a.d0 * b.d1 + a.d1 * b.d0) * TWO64
    + (a.d0 * b.d2 + a.d1 * b.d1 + a.d2 * b.d0) * TWO128
    + (a.d0 * b.d3 + a.d1 * b.d2 + a.d2 * b.d1 + a.d3 * b.d0) * TWO192
    + (a.d1 * b.d3 + a.d2 * b.d2 + a.d3 * b.d1) * TWO256
    + (a.d2 * b.d3 + a.d3 * b.d2) * TWO320
  }

  lemma ColumnsProduct(a: Scalar, b: Scalar, p: int)
    requires p == a.Val() * b.Val()
    ensures p == LowColumns(a, b) + a.d3 * b.d3 * TWO384
  {
    hide Scalar.Val;
    var v := b.Val();
    RowProduct(a.d0, b);
    RowProduct(a.d1, b);
    RowProduct(a.d2, b);
    RowProduct(a.d3, b);
    ValIs(a);
    DistributeLimbs(a.d0, a.d1, a.d2, a.d3, v);
    LimbProduct(a, b, p, v);
  }

  lemma OneWord(c: Acc)
    requires c.c1 == 0 && c.c2 == 0
    ensures c.Val() == c.c0
  {
  }

  lemma AccZero()
    ensures Acc(0, 0, 0).Val() == 0
  {
  }

  /** The last product fits, because the whole product does. */
  lemma LastProduct(low: nat, x: nat, y: nat, p: nat, q: nat)
    requires p < TWO256 && q < TWO256 && low + (x + y) * TWO384 == p * q
    ensures x + y < TWO128
  {
    MulMono(p, TWO256 - 1, q);
    MulMono(q, TWO256 - 1, TWO256 - 1);
  }

  lemma SmallAcc(c: Acc)
    requires c.Val() < TWO128
    ensures c.c2 == 0
  {
  }

  /** The product of two numbers from the rows of the first one's limbs. */
  lemma LimbProduct(a: Scalar, b: Scalar, p: int, v: int)
    requires a.d0 * v == a.d0 * b.d0 + a.d0 * b.d1 * TWO64 + a.d0 * b.d2 * TWO128 + a.d0 * b.d3 * TWO192
    requires a.d1 * v == a.d1 * b.d0 + a.d1 * b.d1 * TWO64 + a.d1 * b.d2 * TWO128 + a.d1 * b.d3 * TWO192
    requires a.d2 * v == a.d2 * b.d0 + a.d2 * b.d1 * TWO64 + a.d2 * b.d2 * TWO128 + a.d2 * b.d3 * TWO192
    requires a.d3 * v == a.d3 * b.d0 + a.d3 * b.d1 * TWO64 + a.d3 * b.d2 * TWO128 + a.d3 * b.d3 * TWO192
    requires p == a.d0 * v + a.d1 * v * TWO64 + a.d2 * v * TWO128 + a.d3 * v * TWO192
    ensures p == LowColumns(a, b) + a.d3 * b.d3 * TWO384
  {
  }

  lemma ValIs(a: Scalar)
    ensures a.Val() == a.d0 + a.d1 * TWO64 + a.d2 * TWO128 + a.d3 * TWO192
  {
  }

  lemma DistributeLimbs(x0: int, x1: int, x2: int, x3: int, v: int)
    ensures (x0 + x1 * TWO64 + x2 * TWO128 + x3 * TWO192) * v
         == x0 * v + x1 * v * TWO64 + x2 * v * TWO128 + x3 * v * TWO192
  {
  }

  lemma RowProduct(x: int, b: Scalar)
    ensures x * b.Val() == x * b.d0 + x * b.d1 * TWO64 + x * b.d2 * TWO128 + x * b.d3 * TWO192
  {
  }

  // ----- folding -----

  /** One middle column: s + x*N_C_0 + y*N_C_1 + z, and the lowest word extracted. */
  method FoldColumn(c0: Acc, s: uint64, x: uint64, y: uint64, z: uint64) returns (m: uint64, c: Acc)
    requires c0.Val() < 4 * TWO128
    ensures m + c.Val() * TWO64 == c0.Val() + s + x * N_C_0 + y * N_C_1 + z
    ensures c.Val() < 4 * TWO128
  {
    hide Acc.Val;
    c := SumAdd(c0, s);
    c := MulAdd(c, x, N_C_0);
    c := MulAdd(c, y, N_C_1);
    c := SumAdd(c, z);
    ShiftVal(c);
    m := c.c0;
    c := c.Shift();
  }

  /** The two lowest columns. */
  method FoldLow(l0: uint64, l1: uint64, x0: uint64, x1: uint64) returns (m0: uint64, m1: uint64, c: Acc)
    ensures m0 + m1 * TWO64 + c.Val() * TWO128 == l0 + x0 * N_C_0 + (l1 + x1 * N_C_0 + x0 * N_C_1) * TWO64
    ensures c.Val() < 4 * TWO128
  {
    hide Acc.Val;
    c := Acc(l0, 0, 0);
    OneWord(c);
    WordProduct(x0, N_C_0);
    c := MulAddFast(c, x0, N_C_0);
    ShiftVal(c);
    m0 := c.c0;
    c := c.Shift();
    TwoWords(c);
    c := SumAddFast(c, l1);
    c := MulAdd(c, x1, N_C_0);
    c := MulAdd(c, x0, N_C_1);
    ShiftVal(c);
    m1 := c.c0;
    c := c.Shift();
  }

  /** m[0..6] = l[0..3] + l[4..7] * (2^256 - N): 385 bits. */
  method Fold385(l: Wide) returns (m0: uint64, m1: uint64, m2: uint64, m3: uint64, m4: uint64, m5: uint64, m6: uint32)
    ensures m0 + m1 * TWO64 + m2 * TWO128 + m3 * TWO192 + m4 * TWO256 + m5 * TWO320 + m6 * TWO384
         == (l.l0 + l.l1 * TWO64 + l.l2 * TWO128 + l.l3 * TWO192)
            + (l.l4 + l.l5 * TWO64 + l.l6 * TWO128 + l.l7 * TWO192) * N_C
    ensures m6 <= 1
  {
    hide Acc.Val;
    FoldProduct(l.l4, l.l5, l.l6, l.l7);
    FoldBounds(l);
    var n0, n1, n2, n3 := l.l4, l.l5, l.l6, l.l7;
    var c;
    m0, m1, c := FoldLow(l.l0, l.l1, n0, n1);
    m2, c := FoldColumn(c, l.l2, n2, n1, n0);
    m3, c := FoldColumn(c, l.l3, n3, n2, n1);
    c := MulAdd(c, n3, N_C_1);
    c := SumAdd(c, n2);
    ShiftVal(c);
    m4 := c.c0;
    c := c.Shift();
    TwoWords(c);
    c := SumAddFast(c, n3);
    ShiftVal(c);
    m5 := c.c0;
    c := c.Shift();
    OneWord(c);
    m6 := c.c0;
  }

  lemma FoldProduct(n0: int, n1: int, n2: int, n3: int)
    ensures (n0 + n1 * TWO64 + n2 * TWO128 + n3 * TWO192) * N_C
         == n0 * N_C_0
            + (n1 * N_C_0 + n0 * N_C_1) * TWO64
            + (n2 * N_C_0 + n1 * N_C_1 + n0) * TWO128
            + (n3 * N_C_0 + n2 * N_C_1 + n1) * TWO192
            + (n3 * N_C_1 + n2) * TWO256
            + n3 * TWO320
  {
  }

  lemma FoldBounds(l: Wide)
    ensures (l.l0 + l.l1 * TWO64 + l.l2 * TWO128 + l.l3 * TWO192)
            + (l.l4 + l.l5 * TWO64 + l.l6 * TWO128 + l.l7 * TWO192) * N_C < 2 * TWO384
  {
  }

  lemma TwoWords(c: Acc)
    ensures c.c2 == 0 ==> c.Val() < TWO128
    ensures c.Val() < TWO128 ==> c.c2 == 0
  {
  }

  /** p[0..4] = m[0..3] + m[4..6] * (2^256 - N): 258 bits. */
  method Fold258(m0: uint64, m1: uint64, m2: uint64, m3: uint64, m4: uint64, m5: uint64, m6: uint32)
    returns (p0: uint64, p1: uint64, p2: uint64, p3: uint64, p4: uint32)
    requires m6 <= 1
    requires m4 + m5 * TWO64 + m6 * TWO128 <= N_C
    ensures p0 + p1 * TWO64 + p2 * TWO128 + p3 * TWO192 + p4 * TWO256
         == (m0 + m1 * TWO64 + m2 * TWO128 + m3 * TWO192) + (m4 + m5 * TWO64 + m6 * TWO128) * N_C
    ensures p4 <= 2
  {
    hide Acc.Val;
    FoldProduct(m4, m5, m6, 0);
    SecondFoldBounds(m0, m1, m2, m3, m4, m5, m6);
    var c;
    p0, p1, c := FoldLow(m0, m1, m4, m5);
    p2, c := FoldColumn(c, m2, m6, m5, m4);
    TwoWords(c);
    c := SumAddFast(c, m3);
    c := MulAddFast(c, m6, N_C_1);
    c := SumAddFast(c, m5);
    ShiftVal(c);
    p3 := c.c0;
    c := c.Shift();
    OneWord(c);
    p4 := c.c0 + m6;
  }

  lemma SecondFoldBounds(m0: uint64, m1: uint64, m2: uint64, m3: uint64, m4: uint64, m5: uint64, m6: uint32)
    requires m4 + m5 * TWO64 + m6 * TWO128 <= N_C
    ensures (m0 + m1 * TWO64 + m2 * TWO128 + m3 * TWO192) + (m4 + m5 * TWO64 + m6 * TWO128) * N_C < 3 * TWO256
  {
  }

  /** The upper part after the first fold. */
  lemma UpperBound(l: Wide, low: int, high: int)
    requires 0 <= low < TWO256
    requires low + high * TWO256
          == (l.l0 + l.l1 * TWO64 + l.l2 * TWO128 + l.l3 * TWO192)
             + (l.l4 + l.l5 * TWO64 + l.l6 * TWO128 + l.l7 * TWO192) * N_C
    ensures high <= N_C
  {
  }

  /** Replacing 2^256 by 2^256 - N does not change a number modulo N. */
  lemma FoldCongruent(low: int, high: int)
    ensures (low + high * TWO256) % N == (low + high * N_C) % N
  {
    OrderLimbs();
    CongIntro(low + high * TWO256, low + high * N_C, high, N);
  }

  method Reduce512(l: Wide) returns (r: Scalar)
    ensures r.Reduced() && r.Val() == l.Val() % N
  {
    hide Scalar.Val, Scalar.Reduced, Wide.Val;
    var m0, m1, m2, m3, m4, m5, m6 := Fold385(l);
    ghost var m, mh := m0 + m1 * TWO64 + m2 * TWO128 + m3 * TWO192, m4 + m5 * TWO64 + m6 * TWO128;
    UpperBound(l, m, mh);
    var p0, p1, p2, p3, p4 := Fold258(m0, m1, m2, m3, m4, m5, m6);
    r := Fold256(p0, p1, p2, p3, p4);
    ghost var low, high := l.l0 + l.l1 * TWO64 + l.l2 * TWO128 + l.l3 * TWO192, l.l4 + l.l5 * TWO64 + l.l6 * TWO128 + l.l7 * TWO192;
    ghost var p := p0 + p1 * TWO64 + p2 * TWO128 + p3 * TWO192 + p4 * TWO256;
    WideIs(l, low, high);
    OrderLimbs();
    Folds(low, high, m, mh, p, l.Val(), r.Val(), TWO256, N_C, N);
  }

  lemma WideIs(l: Wide, low: int, high: int)
    requires low == l.l0 + l.l1 * TWO64 + l.l2 * TWO128 + l.l3 * TWO192
    requires high == l.l4 + l.l5 * TWO64 + l.l6 * TWO128 + l.l7 * TWO192
    ensures l.Val() == low + high * TWO256
  {
  }

  /** Two folds keep the residue. */
  lemma Folds(low: int, high: int, m: int, mh: int, p: int, v: int, r: int, t: int, c: int, n: int)
    requires n > 0 && t == n + c
    requires v == low + high * t && m + mh * t == low + high * c && p == m + mh * c && r == p % n
    ensures r == v % n
  {
    assert high * t == high * n + high * c && mh * t == mh * n + mh * c;
    CongIntro(v, low + high * c, high, n);
    CongIntro(m + mh * t, p, mh, n);
  }

  /** r = p[0..3] + p4 * (2^256 - N), and the final reduction. */
  method Fold256(p0: uint64, p1: uint64, p2: uint64, p3: uint64, p4: uint32) returns (r: Scalar)
    requires p4 <= 2
    ensures r.Reduced()
    ensures r.Val() == (p0 + p1 * TWO64 + p2 * TWO128 + p3 * TWO192 + p4 * TWO256) % N
  {
    hide Scalar.Val, CheckOverflow;
    OrderLimbs();
    var s, c := CarryLimbs(p0 + N_C_0 * p4, p1 + N_C_1 * p4, p2 + p4, p3);
    ghost var low := p0 + p1 * TWO64 + p2 * TWO128 + p3 * TWO192;
    ghost var y := low + p4 * N_C;
    var overflow := c + (if CheckOverflow(s) then 1 else 0);
    SubtractOrder(y, s.Val(), c, overflow);
    r := Reduce(s, overflow);
    LastFold(low, p4, y, r.Val());
  }

  lemma LastFold(low: int, p: int, y: int, r: int)
    requires y == low + p * N_C && r == y % N
    ensures r < N && r == (low + p * TWO256) % N
  {
    FoldCongruent(low, p);
  }

  /** a * b modulo the group order, fully reduced. */
  method Mul(a: Scalar, b: Scalar) returns (r: Scalar)
    ensures r.Reduced() && r.Val() == (a.Val() * b.Val()) % N
  {
    var l := Mul512(a, b);
    r := Reduce512(l);
  }
}
