/** Field elements modulo p = 2^256 - 2^32 - 977 in five 52-bit limbs that may run over. */
module Field52 {
  import opened Arith
  import opened MachineInts

  const TWO48: nat := 0x1_0000_0000_0000
  const TWO49: nat := 0x2_0000_0000_0000
  const TWO52: nat := 0x10_0000_0000_0000
  const TWO56: nat := 0x100_0000_0000_0000
  const TWO104: nat := 0x100_0000_0000_0000_0000_0000_0000
  const TWO156: nat := 0x1000_0000_0000_0000_0000_0000_0000_0000_0000_0000
  const TWO208: nat := 0x1_0000_0000_0000_0000_0000_0000_0000_0000_0000_0000_0000_0000_0000
  const TWO128: nat := 0x1_0000_0000_0000_0000_0000_0000_0000_0000
  const TWO112: nat := 0x1_0000_0000_0000_0000_0000_0000_0000

  /** The field characteristic. */
  const P: nat := 0xFFFFFFFFFFFFFFFFFFFFFFFFFFFFFFFFFFFFFFFFFFFFFFFFFFFFFFFEFFFFFC2F

  /** 2^256 mod p, and 2^260 mod p. */
  const C: nat := 0x1000003D1
  const R: nat := 0x1000003D10

  type uint128 = x: int | 0 <= x < TWO128

  datatype Fe = Fe(n0: uint64, n1: uint64, n2: uint64, n3: uint64, n4: uint64) {
    function Val(): nat { n0 + n1 * TWO52 + n2 * TWO104 + n3 * TWO156 + n4 * TWO208 }

    /** The bounds that magnitude m stands for. */
    predicate Magnitude(m: nat)
    {
      && n0 <= 0x1F_FFFF_FFFF_FFFE * m && n1 <= 0x1F_FFFF_FFFF_FFFE * m && n2 <= 0x1F_FFFF_FFFF_FFFE * m
      && n3 <= 0x1F_FFFF_FFFF_FFFE * m && n4 <= 0x1_FFFF_FFFF_FFFE * m
    }

    /** The one representation of a residue. */
    predicate Normalized()
    {
      n0 < TWO52 && n1 < TWO52 && n2 < TWO52 && n3 < TWO52 && n4 < TWO48 && Val() < P
    }
  }

  /** Magnitude m: limbs up to 2m times the largest of 52 and, at the top, 48 bits. */
  lemma MagnitudeMeans(a: Fe, m: nat)
    ensures a.Magnitude(m) <==>
              a.n0 <= 2 * m * 0xF_FFFF_FFFF_FFFF && a.n1 <= 2 * m * 0xF_FFFF_FFFF_FFFF && a.n2 <= 2 * m * 0xF_FFFF_FFFF_FFFF
              && a.n3 <= 2 * m * 0xF_FFFF_FFFF_FFFF && a.n4 <= 2 * m * 0xFFFF_FFFF_FFFF
  {
  }

  function Low52(x: nat): (l: nat)
    ensures l < TWO52
  {
    x % TWO52
  }

  function High52(x: nat): (h: nat)
    ensures x == Low52(x) + h * TWO52 && Low52(x) < TWO52
  {
    x / TWO52
  }

  function Low48(x: nat): (l: nat)
    ensures l < TWO48
  {
    x % TWO48
  }

  function High48(x: nat): (h: nat)
    ensures x == Low48(x) + h * TWO48 && Low48(x) < TWO48
  {
    x / TWO48
  }

  lemma Constants()
    ensures TWO208 * TWO48 == P + C && R == 16 * C
    ensures 0xFFFF_EFFF_FFC2F + 0xF_FFFF_FFFF_FFFF * TWO52 + 0xF_FFFF_FFFF_FFFF * TWO104 + 0xF_FFFF_FFFF_FFFF * TWO156
            + 0xFFFF_FFFF_FFFF * TWO208 == P
  {
  }

  /** One carry through all limbs; the top limb keeps what it gets. */
  method CarryLimbs(s0: uint64, s1: uint64, s2: uint64, s3: uint64, s4: uint64) returns (t: Fe)
    requires s1 <= TWO64 - 0x1000 && s2 <= TWO64 - 0x1000 && s3 <= TWO64 - 0x1000 && s4 <= TWO64 - 0x1000
    ensures t.Val() == s0 + s1 * TWO52 + s2 * TWO104 + s3 * TWO156 + s4 * TWO208
    ensures t.n0 < TWO52 && t.n1 < TWO52 && t.n2 < TWO52 && t.n3 < TWO52 && t.n4 < s4 + 0x1000
  {
    hide Low52, High52;
    var t0: uint64 := s0;
    var t1: uint64 := s1 + High52(t0);
    t0 := Low52(t0);
    var t2: uint64 := s2 + High52(t1);
    t1 := Low52(t1);
    var t3: uint64 := s3 + High52(t2);
    t2 := Low52(t2);
    var t4: uint64 := s4 + High52(t3);
    t3 := Low52(t3);
    t := Fe(t0, t1, t2, t3, t4);
  }

  /** The first addition to the lowest limb leaves its word. */
  ghost predicate Wraps(r: Fe)
  {
    r.n0 + High48(r.n4) * C >= TWO64
  }

  /** What the first pass loses then. */
  ghost function Lost(r: Fe): nat
  {
    if Wraps(r) then TWO64 else 0
  }

  /** One below the largest magnitude there is always room. */
  lemma RoomBelow(r: Fe)
    requires r.Magnitude(2047)
    ensures !Wraps(r) && r.Magnitude(2048)
  {
    hide Low48, High48;
    assert r.n4 == Low48(r.n4) + High48(r.n4) * TWO48;
  }

  /** At the largest magnitude there may be none. */
  lemma NoRoomAtMost()
    ensures var r := Fe(0xFFFF_FFFF_FFFF_F000, 0, 0, 0, 0xFFF_FFFF_FFFF_F000); r.Magnitude(2048) && Wraps(r)
  {
  }

  /** A lost word changes the residue. */
  lemma LostShows(v: int, lost: nat)
    requires lost == 0 || lost == TWO64
    ensures (v - lost) % P == v % P <==> lost == 0
  {
    if (v - lost) % P == v % P { Difference(v, lost, P); }
  }

  lemma Difference(v: int, d: int, m: nat)
    requires m > 0 && (v - d) % m == v % m
    ensures d % m == 0
  {
    CongAdd(v, v - d, d - v, d - v, m);
    assert v + (d - v) == d && v - d + (d - v) == 0;
    DivModUnique(0, 0, 0, m);
  }

  /** The first pass: fold the bits above 2^256 in and carry once through all limbs. */
  method FirstPass(r: Fe) returns (t: Fe, ghost x: nat)
    requires r.Magnitude(2048)
    ensures t.Val() + x * P + Lost(r) == r.Val() && x < 0x1_0000
    ensures t.n0 < TWO52 && t.n1 < TWO52 && t.n2 < TWO52 && t.n3 < TWO52 && t.n4 < TWO48 + 0x1000
  {
    hide Low48, High48;
    Constants();
    var h: uint64 := High48(r.n4);
    x := h;
    t := CarryLimbs((r.n0 + h * C) % TWO64, r.n1, r.n2, r.n3, Low48(r.n4));
  }

  method NormalizeWeak(r: Fe) returns (t: Fe)
    requires r.Magnitude(2048)
    ensures t.Magnitude(1) && t.Val() % P == (r.Val() - Lost(r)) % P
    ensures t.Val() % P == r.Val() % P <==> !Wraps(r)
  {
    ghost var x;
    t, x := FirstPass(r);
    CongIntro(r.Val() - Lost(r), t.Val(), x, P);
    LostShows(r.Val(), Lost(r));
  }

  /** After the first pass the value is p or more exactly when it has bit 256 or these limbs. */
  predicate AtLeastP(t: Fe)
  {
    t.n4 >= TWO48 || (t.n4 == 0xFFFF_FFFF_FFFF && t.n1 == t.n2 == t.n3 == 0xF_FFFF_FFFF_FFFF && t.n0 >= 0xFFFF_EFFF_FFC2F)
  }

  lemma AtLeastPIs(t: Fe)
    requires t.n0 < TWO52 && t.n1 < TWO52 && t.n2 < TWO52 && t.n3 < TWO52 && t.n4 < TWO48 + 0x1000
    ensures AtLeastP(t) <==> t.Val() >= P
    ensures t.Val() < 2 * P
  {
    Constants();
  }

  /** The final reduction: subtract p by adding 2^256 - p and dropping bit 256. */
  method SecondPass(t: Fe, x: nat) returns (r: Fe)
    requires t.n0 < TWO52 && t.n1 < TWO52 && t.n2 < TWO52 && t.n3 < TWO52 && t.n4 < TWO48 + 0x1000
    requires x == (if t.Val() >= P then 1 else 0)
    ensures r.Normalized() && r.Val() == t.Val() - x * P
  {
    hide Low48, High48;
    Constants();
    var s := CarryLimbs(t.n0 + x * C, t.n1, t.n2, t.n3, t.n4);
    ghost var top := High48(s.n4);
    r := s.(n4 := Low48(s.n4));
    assert r.Val() + top * (P + C) == t.Val() + x * C;
    hide Fe.Val;
    BelowTwo256(r);
    BelowTwoP(t);
    TopIs(r.Val(), top, t.Val(), x);
  }

  lemma BelowTwo256(r: Fe)
    requires r.n0 < TWO52 && r.n1 < TWO52 && r.n2 < TWO52 && r.n3 < TWO52 && r.n4 < TWO48
    ensures r.Val() < P + C
  {
    Constants();
  }

  lemma BelowTwoP(t: Fe)
    requires t.n0 < TWO52 && t.n1 < TWO52 && t.n2 < TWO52 && t.n3 < TWO52 && t.n4 < TWO48 + 0x1000
    ensures t.Val() < 2 * P
  {
    Constants();
  }

  lemma TopIs(r: int, top: int, v: int, x: int)
    requires 0 <= r < P + C && r + top * (P + C) == v + x * C && 0 <= v < 2 * P && top >= 0
    requires x == (if v >= P then 1 else 0)
    ensures r == v - x * P && r < P
  {
    if top >= 2 { MulMono(2, top, P + C); }
  }

  /** The canonical representation. */
  method Normalize(r: Fe) returns (t: Fe)
    requires r.Magnitude(2048)
    ensures t.Normalized() && t.Val() == (r.Val() - Lost(r)) % P
    ensures t.Val() == r.Val() % P <==> !Wraps(r)
  {
    var s;
    ghost var k;
    s, k := FirstPass(r);
    AtLeastPIs(s);
    var x := if AtLeastP(s) then 1 else 0;
    t := SecondPass(s, x);
    Multiples(r.Val() - Lost(r), k + x, t.Val());
    LostShows(r.Val(), Lost(r));
  }

  lemma Multiples(v: int, q: int, r: int)
    requires v == r + q * P && 0 <= r < P
    ensures v % P == r
  {
    DivModUnique(v, q, r, P);
  }

  /** The same, with the final reduction done only when it is needed. */
  method NormalizeVar(r: Fe) returns (t: Fe)
    requires r.Magnitude(2048)
    ensures t.Normalized() && t.Val() == (r.Val() - Lost(r)) % P
    ensures t.Val() == r.Val() % P <==> !Wraps(r)
  {
    LostShows(r.Val(), Lost(r));
    ghost var k;
    t, k := FirstPass(r);
    AtLeastPIs(t);
    ghost var s := t;
    if AtLeastP(t) {
      t := SecondPass(t, 1);
      Multiples(r.Val() - Lost(r), k + 1, t.Val());
    } else {
      BelowTop(t);
      Multiples(r.Val() - Lost(r), k, t.Val());
    }
  }

  lemma BelowTop(t: Fe)
    requires t.Val() < P
    ensures t.n4 < TWO48
  {
  }

  /** Two normalized elements with the same residue are equal: the form is canonical. */
  lemma CanonicalForm(a: Fe, b: Fe)
    requires a.Normalized() && b.Normalized() && a.Val() % P == b.Val() % P
    ensures a == b
  {
    hide Fe.Val;
    SmallResidues(a.Val(), b.Val());
    LimbsUnique(a, b);
  }

  lemma SmallResidues(x: nat, y: nat)
    requires x < P && y < P && x % P == y % P
    ensures x == y
  {
  }

  lemma LimbsUnique(a: Fe, b: Fe)
    requires a.Val() == b.Val()
    requires a.n0 < TWO52 && a.n1 < TWO52 && a.n2 < TWO52 && a.n3 < TWO52
    requires b.n0 < TWO52 && b.n1 < TWO52 && b.n2 < TWO52 && b.n3 < TWO52
    ensures a == b
  {
    HornerVal(a);
    HornerVal(b);
    hide Fe.Val;
    LowLimb(a.n0, a.n1 + TWO52 * (a.n2 + TWO52 * (a.n3 + TWO52 * a.n4)), b.n0, b.n1 + TWO52 * (b.n2 + TWO52 * (b.n3 + TWO52 * b.n4)));
    LowLimb(a.n1, a.n2 + TWO52 * (a.n3 + TWO52 * a.n4), b.n1, b.n2 + TWO52 * (b.n3 + TWO52 * b.n4));
    LowLimb(a.n2, a.n3 + TWO52 * a.n4, b.n2, b.n3 + TWO52 * b.n4);
    LowLimb(a.n3, a.n4, b.n3, b.n4);
  }

  lemma HornerVal(a: Fe)
    ensures a.Val() == a.n0 + TWO52 * (a.n1 + TWO52 * (a.n2 + TWO52 * (a.n3 + TWO52 * a.n4)))
  {
  }

  lemma LowLimb(x: nat, h: nat, y: nat, k: nat)
    requires x + TWO52 * h == y + TWO52 * k && x < TWO52 && y < TWO52
    ensures x == y && h == k
  {
  }

  /** Zero modulo p shows as 0 or as p after the first pass. */
  function ZeroOrP(t: Fe): bool
  {
    || (t.n0 == 0 && t.n1 == 0 && t.n2 == 0 && t.n3 == 0 && t.n4 == 0)
    || (t.n0 == 0xFFFF_EFFF_FFC2F && t.n1 == 0xF_FFFF_FFFF_FFFF && t.n2 == 0xF_FFFF_FFFF_FFFF
        && t.n3 == 0xF_FFFF_FFFF_FFFF && t.n4 == 0xFFFF_FFFF_FFFF)
  }

  lemma ZeroOrPIs(t: Fe)
    requires t.n0 < TWO52 && t.n1 < TWO52 && t.n2 < TWO52 && t.n3 < TWO52 && t.n4 < TWO48 + 0x1000
    ensures ZeroOrP(t) <==> t.Val() == 0 || t.Val() == P
  {
    Constants();
  }

  method NormalizesToZero(r: Fe) returns (zero: bool)
    requires r.Magnitude(2048)
    ensures zero <==> (r.Val() - Lost(r)) % P == 0
    ensures (zero <==> r.Val() % P == 0) <==> !Wraps(r) || (r.Val() % P != 0 && r.Val() % P != TWO64)
  {
    var t;
    ghost var k;
    ZeroShows(r);
    t, k := FirstPass(r);
    AtLeastPIs(t);
    ZeroOrPIs(t);
    zero := ZeroOrP(t);
    if t.Val() < P {
      Multiples(r.Val() - Lost(r), k, t.Val());
    } else {
      Multiples(r.Val() - Lost(r), k + 1, t.Val() - P);
    }
  }

  /** The residues that a lost word turns into 0, and away from it. */
  lemma WrongZero(v: int)
    ensures (v - TWO64) % P == 0 <==> v % P == TWO64
  {
    DivModUnique(TWO64, 0, TWO64, P);
    DivModUnique(0, 0, 0, P);
    if v % P == TWO64 { CongAdd(v, TWO64, TWO64, TWO64, P); }
    if (v - TWO64) % P == 0 { CongAdd(v - TWO64, 0, TWO64, TWO64, P); }
  }

  lemma ZeroShows(r: Fe)
    ensures ((r.Val() - Lost(r)) % P == 0 <==> r.Val() % P == 0)
            <==> !Wraps(r) || (r.Val() % P != 0 && r.Val() % P != TWO64)
  {
    WrongZero(r.Val());
    hide Fe.Val;
  }

  /** The same with an early exit: only two low limbs can belong to a multiple of p. */
  method NormalizesToZeroVar(r: Fe) returns (zero: bool)
    requires r.Magnitude(2048)
    ensures zero <==> (r.Val() - Lost(r)) % P == 0
    ensures (zero <==> r.Val() % P == 0) <==> !Wraps(r) || (r.Val() % P != 0 && r.Val() % P != TWO64)
  {
    hide Fe.Val, Fe.Magnitude, Low52, High52, Low48, High48, ZeroOrP, Wraps, Lost;
    TopLimbFits(r);
    var x: uint64 := High48(r.n4);
    var t0: uint64 := (r.n0 + x * C) % TWO64;
    var z0 := Low52(t0);
    if z0 != 0 && z0 != 0xFFFF_EFFF_FFC2F {
      EarlyExit(r, x, t0, z0);
      ZeroShows(r);
      return false;
    }
    zero := NormalizesToZero(r);
  }

  lemma TopLimbFits(r: Fe)
    requires r.Magnitude(2048)
    ensures r.n0 <= 0x1F_FFFF_FFFF_FFFE * 2048 && r.n4 <= 0x1_FFFF_FFFF_FFFE * 2048
  {
  }

  lemma EarlyExit(r: Fe, x: nat, t0: nat, z0: nat)
    requires r.Magnitude(2048) && x == High48(r.n4) && t0 == (r.n0 + x * C) % TWO64 && z0 == Low52(t0)
    requires z0 != 0 && z0 != 0xFFFF_EFFF_FFC2F
    ensures (r.Val() - Lost(r)) % P != 0
  {
    hide Low48, Low52, High48;
    Constants();
    var upper := r.n1 + r.n2 * TWO52 + r.n3 * TWO104 + Low48(r.n4) * TWO156;
    var v := t0 + upper * TWO52;
    assert r.n4 == Low48(r.n4) + x * TWO48;
    assert t0 + Lost(r) == r.n0 + x * C;
    assert r.Val() == v + x * P + Lost(r);
    assert v < 2 * P;
    hide Fe.Val, Lost;
    LowOfMultiple(r.Val() - Lost(r), x, v, t0, upper, z0);
  }

  lemma LowOfMultiple(value: nat, x: nat, v: nat, t0: nat, upper: nat, z0: nat)
    requires value == v + x * P && v == t0 + upper * TWO52 && v < 2 * P && z0 == Low52(t0)
    requires z0 != 0 && z0 != 0xFFFF_EFFF_FFC2F
    ensures value % P != 0
  {
    CongIntro(v, t0, upper, TWO52);
    if value % P == 0 {
      CongIntro(value, v, x, P);
      if v >= P { DivModUnique(v, 1, v - P, P); } else { DivModUnique(v, 0, v, P); }
    }
  }

  // ----- multiplication -----

  /** Column sums of a product of two elements of magnitude at most 8. */
  datatype Columns = Columns(p0: int, p1: int, p2: int, p3: int, p4: int, p5: int, p6: int, p7: int, p8: int)
  {
    function Val(): int
    {
      p0 + p1 * TWO52 + p2 * TWO104 + p3 * TWO156 + p4 * TWO208 + p5 * TWO260 + p6 * TWO312 + p7 * TWO364 + p8 * TWO416
    }

    /** Each column has at most five products of 56-bit limbs; the top limb has 52 bits. */
    predicate Bounded()
    {
      && 0 <= p0 < TWO112 && 0 <= p1 < 2 * TWO112 && 0 <= p2 < 3 * TWO112 && 0 <= p3 < 4 * TWO112
      && 0 <= p4 < 4 * TWO112 && 0 <= p5 < 3 * TWO112 && 0 <= p6 < 2 * TWO112 && 0 <= p7 < TWO112
      && 0 <= p8 < TWO104
    }
  }

  const TWO260: nat := 0x10_0000_0000_0000_0000_0000_0000_0000_0000_0000_0000_0000_0000_0000_0000_0000_0000
  const TWO312: nat := 0x100_0000_0000_0000_0000_0000_0000_0000_0000_0000_0000_0000_0000_0000_0000_0000_0000_0000_0000_0000
  const TWO364: nat := 0x1000_0000_0000_0000_0000_0000_0000_0000_0000_0000_0000_0000_0000_0000_0000_0000_0000_0000_0000_0000_0000_0000_0000
  const TWO416: nat := 0x1_0000_0000_0000_0000_0000_0000_0000_0000_0000_0000_0000_0000_0000_0000_0000_0000_0000_0000_0000_0000_0000_0000_0000_0000_0000_0000

  /** The multiple of 2^260 - R and of 2^256 - C that the folding takes out. */
  lemma FoldingMultiples()
    ensures TWO260 == 16 * P + R && TWO312 == (16 * P + R) * TWO52 && TWO364 == (16 * P + R) * TWO104
    ensures TWO416 == (16 * P + R) * TWO156
  {
    Constants();
  }

  function Low64(x: nat): (l: nat)
    ensures l < TWO64
  {
    x % TWO64
  }

  function High64(x: nat): (h: nat)
    ensures x == Low64(x) + h * TWO64 && Low64(x) < TWO64
  {
    x / TWO64
  }

  /** Columns 3, 4 and 8: limbs 3 and 4, and what is left for column 5. */
  method FoldHigh(p3: uint128, p4: uint128, p8: uint128) returns (t3: uint64, t4: uint64, tx: uint64, d: uint128, ghost q: nat)
    requires p3 < 4 * TWO112 && p4 < 4 * TWO112 && p8 < TWO104
    ensures p3 * TWO156 + p4 * TWO208 + p8 * TWO416
         == t3 * TWO156 + t4 * TWO208 + tx * (TWO208 * TWO48) + d * TWO260 + q * P
    ensures t3 < TWO52 && t4 < TWO48 && tx < 16 && d < TWO64
  {
    hide Low52, High52, Low48, High48, Low64, High64;
    var c: uint128 := p8;
    d := p3;
    d := d + R * Low64(c);
    ghost var clow, d1 := Low64(c), d;
    c := High64(c);
    assert c < TWO48;
    t3 := Low52(d);
    d := High52(d);
    assert d < TWO63;
    ghost var d2 := d;
    d := d + p4;
    d := d + (R * 0x1000) * c;
    ghost var d3 := d;
    var t := Low52(d);
    d := High52(d);
    tx := High48(t);
    t4 := Low48(t);
    q := 16 * (clow * TWO156 + c * (TWO208 * 0x1000));
    HighSum(p3, p4, p8, clow, c, d1, d2, d3, t, t3, t4, tx, d, q);
  }

  lemma HighSum(p3: int, p4: int, p8: int, clow: int, c: int, d1: int, d2: int, d3: int, t: int, t3: int, t4: int, tx: int,
                d: int, q: int)
    requires p8 == clow + c * TWO64 && d1 == p3 + R * clow && d1 == t3 + d2 * TWO52
    requires d3 == d2 + p4 + (R * 0x1000) * c && d3 == t + d * TWO52 && t == t4 + tx * TWO48
    requires q == 16 * (clow * TWO156 + c * (TWO208 * 0x1000))
    ensures p3 * TWO156 + p4 * TWO208 + p8 * TWO416
         == t3 * TWO156 + t4 * TWO208 + tx * (TWO208 * TWO48) + d * TWO260 + q * P
  {
    FoldingMultiples();
  }

  /** Columns 0, 1, 5 and 6: the two lowest limbs. */
  method FoldLow(p0: uint128, p1: uint128, p5: uint128, p6: uint128, d0: uint128, tx: uint64)
    returns (r0: uint64, r1: uint64, c: uint128, d: uint128, ghost q: nat)
    requires p0 < TWO112 && p1 < 2 * TWO112 && p5 < 3 * TWO112 && p6 < 2 * TWO112 && d0 < TWO64 && tx < 16
    ensures p0 + p1 * TWO52 + p5 * TWO260 + p6 * TWO312 + d0 * TWO260 + tx * (TWO208 * TWO48)
         == r0 + r1 * TWO52 + c * TWO104 + d * TWO364 + q * P
    ensures r0 < TWO52 && r1 < TWO52 && c < TWO64 && d < TWO64
  {
    hide Low52, High52;
    Constants();
    FoldingMultiples();
    c := p0;
    d := d0 + p5;
    var u0: uint64 := Low52(d);
    d := High52(d);
    u0 := u0 * 16 + tx;
    c := c + u0 * C;
    r0 := Low52(c);
    c := High52(c);
    c := c + p1;
    d := d + p6;
    var e := Low52(d);
    c := c + e * R;
    d := High52(d);
    r1 := Low52(c);
    c := High52(c);
    q := u0 + 16 * (e * TWO52);
  }

  /** Columns 2 and 7, and the three upper limbs. */
  method FoldMiddle(p2: uint128, p7: uint128, c0: uint128, d0: uint128, t3: uint64, t4: uint64)
    returns (r2: uint64, r3: uint64, r4: uint64, ghost q: nat)
    requires p2 < 3 * TWO112 && p7 < TWO112 && c0 < TWO64 && d0 < TWO64 && t3 < TWO52 && t4 < TWO48
    ensures p2 * TWO104 + p7 * TWO364 + c0 * TWO104 + d0 * TWO364 + t3 * TWO156 + t4 * TWO208
         == r2 * TWO104 + r3 * TWO156 + r4 * TWO208 + q * P
    ensures r2 < TWO52 && r3 < TWO52 && r4 < TWO49 - 1
  {
    hide Low52, High52, Low64, High64;
    var c: uint128 := c0 + p2;
    var d: uint128 := d0 + p7;
    ghost var e := d;
    var dlow := Low64(d);
    c := c + R * dlow;
    d := High64(d);
    assert d < TWO49;
    ghost var c1 := c;
    r2 := Low52(c);
    c := High52(c);
    assert c < TWO64;
    ghost var c2 := c;
    c := c + (R * 0x1000) * d + t3;
    ghost var c3 := c;
    r3 := Low52(c);
    c := High52(c);
    assert c < TWO48;
    c := c + t4;
    r4 := c;
    q := 16 * (dlow * TWO104 + d * (TWO156 * 0x1000));
    MiddleSum(p2, p7, c0, d0, t3, t4, dlow, d, e, c1, c2, c3, r2, r3, r4, q);
  }

  lemma MiddleSum(p2: int, p7: int, c0: int, d0: int, t3: int, t4: int, dlow: int, d: int, e: int, c1: int, c2: int, c3: int,
                  r2: int, r3: int, r4: int, q: int)
    requires e == d0 + p7 && e == dlow + d * TWO64 && c1 == c0 + p2 + R * dlow && c1 == r2 + c2 * TWO52
    requires c3 == c2 + (R * 0x1000) * d + t3 && c3 == r3 + (r4 - t4) * TWO52
    requires q == 16 * (dlow * TWO104 + d * (TWO156 * 0x1000))
    ensures p2 * TWO104 + p7 * TWO364 + c0 * TWO104 + d0 * TWO364 + t3 * TWO156 + t4 * TWO208
         == r2 * TWO104 + r3 * TWO156 + r4 * TWO208 + q * P
  {
    FoldingMultiples();
  }

  /** Equal modulo p. */
  ghost predicate Congruent(a: int, b: int)
  {
    a % P == b % P
  }

  /** Fold nine columns into an element of magnitude 1. */
  method Fold(p: Columns) returns (r: Fe)
    requires p.Bounded()
    ensures r.Magnitude(1) && Congruent(r.Val(), p.Val())
  {
    hide Fe.Val, Fe.Magnitude, Columns.Val, Congruent;
    var t3, t4, tx, d;
    ghost var q1, q2, q3;
    t3, t4, tx, d, q1 := FoldHigh(p.p3, p.p4, p.p8);
    var r0, r1, c;
    ghost var d1 := d;
    r0, r1, c, d, q2 := FoldLow(p.p0, p.p1, p.p5, p.p6, d, tx);
    var r2, r3, r4;
    r2, r3, r4, q3 := FoldMiddle(p.p2, p.p7, c, d, t3, t4);
    r := Fe(r0, r1, r2, r3, r4);
    FoldSum(p, r, q1, q2, q3, t3, t4, tx, d1, c, d);
    MagnitudeOne(r);
  }

  lemma MagnitudeOne(r: Fe)
    requires r.n0 < TWO52 && r.n1 < TWO52 && r.n2 < TWO52 && r.n3 < TWO52 && r.n4 < TWO49 - 1
    ensures r.Magnitude(1)
  {
  }

  /** The three parts together. */
  lemma FoldSum(p: Columns, r: Fe, q1: int, q2: int, q3: int, t3: int, t4: int, tx: int, d1: int, c: int, d: int)
    requires p.p3 * TWO156 + p.p4 * TWO208 + p.p8 * TWO416
          == t3 * TWO156 + t4 * TWO208 + tx * (TWO208 * TWO48) + d1 * TWO260 + q1 * P
    requires p.p0 + p.p1 * TWO52 + p.p5 * TWO260 + p.p6 * TWO312 + d1 * TWO260 + tx * (TWO208 * TWO48)
          == r.n0 + r.n1 * TWO52 + c * TWO104 + d * TWO364 + q2 * P
    requires p.p2 * TWO104 + p.p7 * TWO364 + c * TWO104 + d * TWO364 + t3 * TWO156 + t4 * TWO208
          == r.n2 * TWO104 + r.n3 * TWO156 + r.n4 * TWO208 + q3 * P
    ensures Congruent(r.Val(), p.Val())
  {
    CongruentBy(p.Val(), r.Val(), q1 + q2 + q3);
  }

  lemma CongruentBy(v: int, r: int, q: int)
    requires v == r + q * P
    ensures Congruent(r, v)
  {
    CongIntro(v, r, q, P);
  }

  /** Limbs as large as magnitude 8 allows. */
  predicate SmallLimbs(a: Fe)
  {
    a.n0 < TWO56 && a.n1 < TWO56 && a.n2 < TWO56 && a.n3 < TWO56 && a.n4 < TWO52
  }

  lemma MagnitudeEight(a: Fe)
    requires a.Magnitude(8)
    ensures SmallLimbs(a)
  {
  }

  lemma LimbProduct(x: nat, y: nat, p: nat, q: nat)
    requires x < p && y < q
    ensures 0 <= x * y < p * q
  {
    MulMono(0, x, y);
    MulMono(x, p - 1, y);
    MulMono(y, q - 1, p - 1);
    assert (p - 1) * (q - 1) == p * q - p - q + 1;
  }

  lemma FullProduct(x: nat, y: nat)
    requires x < TWO56 && y < TWO56
    ensures 0 <= x * y < TWO112
  {
    LimbProduct(x, y, TWO56, TWO56);
  }

  /** A product with a top limb is shorter by four bits. */
  lemma TopProduct(x: nat, y: nat)
    requires x < TWO56 && y < TWO52
    ensures 0 <= x * y < 0x1000_0000_0000_0000_0000_0000_0000 && x * y == y * x
  {
    LimbProduct(x, y, TWO56, TWO52);
  }

  lemma Column1Bounded(a: Fe, b: Fe)
    requires SmallLimbs(a) && SmallLimbs(b)
    ensures 0 <= a.n0 * b.n0 < TWO112 && 0 <= a.n0 * b.n1 + a.n1 * b.n0 < 2 * TWO112
  {
    FullProduct(a.n0, b.n0);
    FullProduct(a.n0, b.n1);
    FullProduct(a.n1, b.n0);
  }

  lemma Column2Bounded(a: Fe, b: Fe)
    requires SmallLimbs(a) && SmallLimbs(b)
    ensures 0 <= a.n0 * b.n2 + a.n1 * b.n1 + a.n2 * b.n0 < 3 * TWO112
  {
    FullProduct(a.n0, b.n2);
    FullProduct(a.n1, b.n1);
    FullProduct(a.n2, b.n0);
  }

  lemma Column3Bounded(a: Fe, b: Fe)
    requires SmallLimbs(a) && SmallLimbs(b)
    ensures 0 <= a.n0 * b.n3 + a.n1 * b.n2 + a.n2 * b.n1 + a.n3 * b.n0 < 4 * TWO112
  {
    FullProduct(a.n0, b.n3);
    FullProduct(a.n1, b.n2);
    FullProduct(a.n2, b.n1);
    FullProduct(a.n3, b.n0);
  }

  lemma Column4Bounded(a: Fe, b: Fe)
    requires SmallLimbs(a) && SmallLimbs(b)
    ensures 0 <= a.n0 * b.n4 + a.n1 * b.n3 + a.n2 * b.n2 + a.n3 * b.n1 + a.n4 * b.n0 < 4 * TWO112
  {
    TopProduct(a.n0, b.n4);
    FullProduct(a.n1, b.n3);
    FullProduct(a.n2, b.n2);
    FullProduct(a.n3, b.n1);
    TopProduct(b.n0, a.n4);
  }

  lemma Column5Bounded(a: Fe, b: Fe)
    requires SmallLimbs(a) && SmallLimbs(b)
    ensures 0 <= a.n1 * b.n4 + a.n2 * b.n3 + a.n3 * b.n2 + a.n4 * b.n1 < 3 * TWO112
  {
    TopProduct(a.n1, b.n4);
    FullProduct(a.n2, b.n3);
    FullProduct(a.n3, b.n2);
    TopProduct(b.n1, a.n4);
  }

  lemma Column6Bounded(a: Fe, b: Fe)
    requires SmallLimbs(a) && SmallLimbs(b)
    ensures 0 <= a.n2 * b.n4 + a.n3 * b.n3 + a.n4 * b.n2 < 2 * TWO112
  {
    TopProduct(a.n2, b.n4);
    FullProduct(a.n3, b.n3);
    TopProduct(b.n2, a.n4);
  }

  lemma Column7Bounded(a: Fe, b: Fe)
    requires SmallLimbs(a) && SmallLimbs(b)
    ensures 0 <= a.n3 * b.n4 + a.n4 * b.n3 < TWO112 && 0 <= a.n4 * b.n4 < TWO104
  {
    TopProduct(a.n3, b.n4);
    TopProduct(b.n3, a.n4);
    LimbProduct(a.n4, b.n4, TWO52, TWO52);
  }

  /** The columns of a product. */
  function ProductColumns(a: Fe, b: Fe): Columns
  {
    Columns(
      a.n0 * b.n0,
      a.n0 * b.n1 + a.n1 * b.n0,
      a.n0 * b.n2 + a.n1 * b.n1 + a.n2 * b.n0,
      a.n0 * b.n3 + a.n1 * b.n2 + a.n2 * b.n1 + a.n3 * b.n0,
      a.n0 * b.n4 + a.n1 * b.n3 + a.n2 * b.n2 + a.n3 * b.n1 + a.n4 * b.n0,
      a.n1 * b.n4 + a.n2 * b.n3 + a.n3 * b.n2 + a.n4 * b.n1,
      a.n2 * b.n4 + a.n3 * b.n3 + a.n4 * b.n2,
      a.n3 * b.n4 + a.n4 * b.n3,
      a.n4 * b.n4)
  }

  lemma ColumnsBounded(a: Fe, b: Fe)
    requires SmallLimbs(a) && SmallLimbs(b)
    ensures ProductColumns(a, b).Bounded()
  {
    Column1Bounded(a, b);
    Column2Bounded(a, b);
    Column3Bounded(a, b);
    Column4Bounded(a, b);
    Column5Bounded(a, b);
    Column6Bounded(a, b);
    Column7Bounded(a, b);
  }

  lemma RowTimes(x: int, b: Fe)
    ensures x * b.Val() == x * b.n0 + x * b.n1 * TWO52 + x * b.n2 * TWO104 + x * b.n3 * TWO156 + x * b.n4 * TWO208
  {
  }

  lemma DistributeLimbs(x0: int, x1: int, x2: int, x3: int, x4: int, v: int)
    ensures (x0 + x1 * TWO52 + x2 * TWO104 + x3 * TWO156 + x4 * TWO208) * v
         == x0 * v + x1 * v * TWO52 + x2 * v * TWO104 + x3 * v * TWO156 + x4 * v * TWO208
  {
  }

  /** Each limb of a times the second factor v. */
  ghost predicate Rows(a: Fe, b: Fe, v: int)
  {
    RowIs(a.n0, b, v) && RowIs(a.n1, b, v) && RowIs(a.n2, b, v) && RowIs(a.n3, b, v) && RowIs(a.n4, b, v)
  }

  ghost predicate RowIs(x: int, b: Fe, v: int)
  {
    x * v == x * b.n0 + x * b.n1 * TWO52 + x * b.n2 * TWO104 + x * b.n3 * TWO156 + x * b.n4 * TWO208
  }

  lemma RowsTimes(a: Fe, b: Fe, v: int)
    requires v == b.Val()
    ensures Rows(a, b, v)
  {
    RowTimes(a.n0, b);
    RowTimes(a.n1, b);
    RowTimes(a.n2, b);
    RowTimes(a.n3, b);
    RowTimes(a.n4, b);
    hide Fe.Val;
  }

  /** The columns, summed by rows. */
  lemma ColumnsAreRows(a: Fe, b: Fe, v: int)
    requires Rows(a, b, v)
    ensures ProductColumns(a, b).Val() == a.n0 * v + a.n1 * v * TWO52 + a.n2 * v * TWO104 + a.n3 * v * TWO156 + a.n4 * v * TWO208
  {
  }

  lemma ValIs(a: Fe)
    ensures a.Val() == a.n0 + a.n1 * TWO52 + a.n2 * TWO104 + a.n3 * TWO156 + a.n4 * TWO208
  {
  }

  /** a * b modulo p, with magnitude 1. */
  method Mul(a: Fe, b: Fe) returns (r: Fe)
    requires a.Magnitude(8) && b.Magnitude(8)
    ensures r.Magnitude(1) && Congruent(r.Val(), a.Val() * b.Val())
  {
    hide Fe.Val, Columns.Val, Columns.Bounded, Congruent, ProductColumns;
    ghost var v := b.Val();
    MagnitudeEight(a);
    MagnitudeEight(b);
    ColumnsBounded(a, b);
    RowsTimes(a, b, v);
    ColumnsAreRows(a, b, v);
    ValIs(a);
    DistributeLimbs(a.n0, a.n1, a.n2, a.n3, a.n4, v);
    r := Fold(ProductColumns(a, b));
  }

  /** The columns of a square, from doubled limbs: half the multiplications. */
  function SquareColumns(a: Fe): Columns
  {
    Columns(
      a.n0 * a.n0,
      (a.n0 * 2) * a.n1,
      (a.n0 * 2) * a.n2 + a.n1 * a.n1,
      (a.n0 * 2) * a.n3 + (a.n1 * 2) * a.n2,
      a.n0 * (a.n4 * 2) + (a.n1 * 2) * a.n3 + a.n2 * a.n2,
      a.n1 * (a.n4 * 2) + (a.n2 * 2) * a.n3,
      a.n2 * (a.n4 * 2) + a.n3 * a.n3,
      a.n3 * (a.n4 * 2),
      a.n4 * a.n4)
  }

  lemma Doubled(x: int, y: int)
    ensures (x * 2) * y == x * y + y * x && x * (y * 2) == x * y + y * x
  {
  }

  lemma SquareIsProduct(a: Fe)
    ensures SquareColumns(a) == ProductColumns(a, a)
  {
    Doubled(a.n0, a.n1);
    Doubled(a.n0, a.n2);
    Doubled(a.n0, a.n3);
    Doubled(a.n1, a.n2);
    Doubled(a.n1, a.n3);
    Doubled(a.n2, a.n3);
    Doubled(a.n0, a.n4);
    Doubled(a.n1, a.n4);
    Doubled(a.n2, a.n4);
    Doubled(a.n3, a.n4);
  }

  method Sqr(a: Fe) returns (r: Fe)
    requires a.Magnitude(8)
    ensures r.Magnitude(1) && Congruent(r.Val(), a.Val() * a.Val())
  {
    hide Fe.Val, Columns.Val, Columns.Bounded, Congruent, ProductColumns, SquareColumns;
    ghost var v := a.Val();
    MagnitudeEight(a);
    SquareIsProduct(a);
    ColumnsBounded(a, a);
    RowsTimes(a, a, v);
    ColumnsAreRows(a, a, v);
    ValIs(a);
    DistributeLimbs(a.n0, a.n1, a.n2, a.n3, a.n4, v);
    r := Fold(SquareColumns(a));
  }

  // ----- linear operations -----

  /** 2(m+1) times p, limb by limb, less a: the limbs cannot go below zero. */
  method Negate(a: Fe, m: nat) returns (r: Fe)
    requires m <= 2047 && a.Magnitude(m)
    ensures r.Magnitude(m + 1) && r.Val() + a.Val() == 2 * (m + 1) * P
  {
    Constants();
    r := Fe(0xFFFF_EFFF_FFC2F * 2 * (m + 1) - a.n0, 0xF_FFFF_FFFF_FFFF * 2 * (m + 1) - a.n1,
            0xF_FFFF_FFFF_FFFF * 2 * (m + 1) - a.n2, 0xF_FFFF_FFFF_FFFF * 2 * (m + 1) - a.n3,
            0xFFFF_FFFF_FFFF * 2 * (m + 1) - a.n4);
  }

  method Add(a: Fe, b: Fe, ghost m: nat, ghost k: nat) returns (r: Fe)
    requires a.Magnitude(m) && b.Magnitude(k) && m + k <= 2048
    ensures r.Magnitude(m + k) && r.Val() == a.Val() + b.Val()
  {
    r := Fe(a.n0 + b.n0, a.n1 + b.n1, a.n2 + b.n2, a.n3 + b.n3, a.n4 + b.n4);
  }

  /** Equality modulo p, by testing the difference for zero. */
  method EqualVar(a: Fe, b: Fe) returns (equal: bool)
    requires a.Magnitude(1) && b.Magnitude(1)
    ensures equal <==> Congruent(a.Val(), b.Val())
  {
    hide Fe.Val, Congruent, Wraps;
    var na := Negate(a, 1);
    MagnitudeGrows(na, 2);
    var d := Add(na, b, 2, 1);
    MagnitudeGrows(d, 3);
    RoomBelow(d);
    equal := NormalizesToZeroVar(d);
    DifferenceIsZero(a.Val(), b.Val(), d.Val());
  }

  lemma MagnitudeGrows(a: Fe, m: nat)
    requires a.Magnitude(m) && m <= 2047
    ensures a.Magnitude(2047)
  {
  }

  lemma DifferenceIsZero(a: int, b: int, d: int)
    requires d == 4 * P - a + b
    ensures d % P == 0 <==> Congruent(a, b)
  {
    DivModUnique(0, 0, 0, P);
    if d % P == 0 {
      CongAdd(d, 0, a, a, P);
      CongIntro(d + a, b, 4, P);
    }
    if Congruent(a, b) {
      CongAdd(b, a, 0 - a, 0 - a, P);
      CongIntro(d, b - a, 4, P);
      assert b + (0 - a) == b - a && a + (0 - a) == 0;
    }
  }

  /** Comparison of normalized elements, limb by limb from the top. */
  method CmpVar(a: Fe, b: Fe) returns (c: int)
    requires a.Normalized() && b.Normalized()
    ensures c == (if a.Val() > b.Val() then 1 else if a.Val() < b.Val() then -1 else 0)
  {
    if a.n4 > b.n4 { return 1; }
    if a.n4 < b.n4 { return -1; }
    if a.n3 > b.n3 { return 1; }
    if a.n3 < b.n3 { return -1; }
    if a.n2 > b.n2 { return 1; }
    if a.n2 < b.n2 { return -1; }
    if a.n1 > b.n1 { return 1; }
    if a.n1 < b.n1 { return -1; }
    if a.n0 > b.n0 { return 1; }
    if a.n0 < b.n0 { return -1; }
    c := 0;
  }

  /** A limb shifted right by one, with the low bit of the limb above moved in. */
  function HalfLimb(t: uint64, above: uint64): (h: uint64)
    requires t < TWO63
    ensures 2 * h == t - t % 2 + above % 2 * TWO52
  {
    t / 2 + above % 2 * (TWO52 / 2)
  }

  /** Half of a, or of a + p when a is odd. */
  method Half(a: Fe, m: nat) returns (r: Fe)
    requires m < 32 && a.Magnitude(m)
    ensures r.Magnitude(m / 2 + 1)
    ensures 2 * r.Val() == a.Val() + (if a.n0 % 2 == 1 then P else 0)
  {
    hide HalfLimb, Fe.Magnitude, Fe.Val;
    MagnitudeBelow32(a, m);
    var mask: uint64 := if a.n0 % 2 == 1 then 1 else 0;
    var t0: uint64 := a.n0 + mask * 0xFFFF_EFFF_FFC2F;
    var t1: uint64 := a.n1 + mask * 0xF_FFFF_FFFF_FFFF;
    var t2: uint64 := a.n2 + mask * 0xF_FFFF_FFFF_FFFF;
    var t3: uint64 := a.n3 + mask * 0xF_FFFF_FFFF_FFFF;
    var t4: uint64 := a.n4 + mask * 0xFFFF_FFFF_FFFF;
    Even(a.n0, t0);
    r := Fe(HalfLimb(t0, t1), HalfLimb(t1, t2), HalfLimb(t2, t3), HalfLimb(t3, t4), HalfLimb(t4, 0));
    HalfSum(a, r, mask, t0, t1, t2, t3, t4);
    HalfMagnitude(a, r, m, t0, t1, t2, t3, t4);
  }

  lemma MagnitudeBelow32(a: Fe, m: nat)
    requires m < 32 && a.Magnitude(m)
    ensures a.n0 < TWO62 && a.n1 < TWO62 && a.n2 < TWO62 && a.n3 < TWO62 && a.n4 < TWO62
  {
  }

  /** r holds the limbs t0..t4 shifted right by one. */
  predicate Halves(r: Fe, t0: nat, t1: nat, t2: nat, t3: nat, t4: nat)
  {
    && 2 * r.n0 == t0 - t0 % 2 + t1 % 2 * TWO52 && 2 * r.n1 == t1 - t1 % 2 + t2 % 2 * TWO52
    && 2 * r.n2 == t2 - t2 % 2 + t3 % 2 * TWO52 && 2 * r.n3 == t3 - t3 % 2 + t4 % 2 * TWO52
    && 2 * r.n4 == t4 - t4 % 2
  }

  lemma HalfSum(a: Fe, r: Fe, mask: nat, t0: nat, t1: nat, t2: nat, t3: nat, t4: nat)
    requires Halves(r, t0, t1, t2, t3, t4) && t0 % 2 == 0
    requires t0 == a.n0 + mask * 0xFFFF_EFFF_FFC2F && t1 == a.n1 + mask * 0xF_FFFF_FFFF_FFFF
    requires t2 == a.n2 + mask * 0xF_FFFF_FFFF_FFFF && t3 == a.n3 + mask * 0xF_FFFF_FFFF_FFFF
    requires t4 == a.n4 + mask * 0xFFFF_FFFF_FFFF
    ensures 2 * r.Val() == a.Val() + mask * P
  {
    hide Halves;
    TwiceVal(r, t0, t1, t2, t3, t4);
    Constants();
  }

  lemma TwiceVal(r: Fe, t0: nat, t1: nat, t2: nat, t3: nat, t4: nat)
    requires Halves(r, t0, t1, t2, t3, t4) && t0 % 2 == 0
    ensures 2 * r.Val() == t0 + t1 * TWO52 + t2 * TWO104 + t3 * TWO156 + t4 * TWO208
  {
  }

  lemma HalfMagnitude(a: Fe, r: Fe, m: nat, t0: nat, t1: nat, t2: nat, t3: nat, t4: nat)
    requires a.Magnitude(m) && Halves(r, t0, t1, t2, t3, t4)
    requires t0 <= a.n0 + 0xF_FFFF_FFFF_FFFF && t1 <= a.n1 + 0xF_FFFF_FFFF_FFFF && t2 <= a.n2 + 0xF_FFFF_FFFF_FFFF
    requires t3 <= a.n3 + 0xF_FFFF_FFFF_FFFF && t4 <= a.n4 + 0xFFFF_FFFF_FFFF
    ensures r.Magnitude(m / 2 + 1)
  {
    HalfBound(r.n0, t0, t1 % 2, m);
    HalfBound(r.n1, t1, t2 % 2, m);
    HalfBound(r.n2, t2, t3 % 2, m);
    HalfBound(r.n3, t3, t4 % 2, m);
    TopHalfBound(r.n4, t4, m);
  }

  lemma HalfBound(h: nat, t: nat, odd: nat, m: nat)
    requires 2 * h == t - t % 2 + odd * TWO52 && odd <= 1 && t <= 0x1F_FFFF_FFFF_FFFE * m + 0xF_FFFF_FFFF_FFFF
    ensures h <= 0x1F_FFFF_FFFF_FFFE * (m / 2 + 1)
  {
    assert t - t % 2 <= 0x1F_FFFF_FFFF_FFFE * m + 0xF_FFFF_FFFF_FFFE;
  }

  lemma TopHalfBound(h: nat, t: nat, m: nat)
    requires 2 * h == t - t % 2 && t <= 0x1_FFFF_FFFF_FFFE * m + 0xFFFF_FFFF_FFFF
    ensures h <= 0x1_FFFF_FFFF_FFFE * (m / 2 + 1)
  {
  }

  lemma Even(n: nat, t: nat)
    requires t == n + (if n % 2 == 1 then 0xFFFF_EFFF_FFC2F else 0)
    ensures t % 2 == 0
  {
  }
}
