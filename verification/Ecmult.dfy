/** Multiplication of points by scalars, in any commutative group of the curve's order with the
    curve's endomorphism: interleaved windows (Strauss). Coordinates are not modelled. */
module Ecmult {
  import opened Arith
  import opened Wrappers
  import opened Groups
  import opened Scalars
  import opened ScalarBits
  import opened SplitLambda
  import opened Wnaf
  import opened MachineInts
  import Shifts

  const WINDOW_A: nat := 5
  const WINDOW_G: nat := 15

  /** The number of odd multiples in a table for w-bit digits. */
  function TableSize(w: nat): nat
    requires w >= 2
  {
    Pow2(w - 2)
  }

  /** The group with its generator, the endomorphism, and the two precomputed tables. */
  datatype Curve<!T> = Curve(group: Group<T>, base: T, lambda: T -> T, preG: seq<T>, preG128: seq<T>)

  ghost predicate OddMultiples<T(!new)>(g: Group<T>, pre: seq<T>, p: T, w: nat)
    requires w >= 2
  {
    |pre| == TableSize(w) && forall i: nat :: i < |pre| ==> pre[i] == Times(g, 2 * i + 1, p)
  }

  lemma OddMultiplesMeans<T(!new)>(g: Group<T>, pre: seq<T>, p: T, w: nat)
    requires w >= 2
    ensures OddMultiples(g, pre, p, w) <==> |pre| == Pow2(w - 2) && forall i: nat :: i < |pre| ==> pre[i] == Times(g, 2 * i + 1, p)
  {
    hide Times, Pow2;
  }

  ghost predicate ValidCurve<T(!new)>(c: Curve<T>)
  {
    && Abelian(c.group)
    && (forall p :: Times(c.group, N, p) == c.group.zero)
    && (forall p :: c.lambda(p) == Times(c.group, LAMBDA, p))
    && OddMultiples(c.group, c.preG, c.base, WINDOW_G)
    && OddMultiples(c.group, c.preG128, Times(c.group, TWO128, c.base), WINDOW_G)
  }

  lemma CurveParts<T(!new)>(c: Curve<T>, p: T)
    requires ValidCurve(c)
    ensures Abelian(c.group) && Times(c.group, N, p) == c.group.zero && c.lambda(p) == Times(c.group, LAMBDA, p)
  {
  }

  lemma CurveGroup<T(!new)>(c: Curve<T>)
    requires ValidCurve(c)
    ensures Abelian(c.group)
  {
  }

  /** Multiples only matter modulo the order. */
  lemma TimesMod<T(!new)>(c: Curve<T>, i: int, j: int, p: T)
    requires ValidCurve(c) && i % N == j % N
    ensures Times(c.group, i, p) == Times(c.group, j, p)
  {
    hide ValidCurve, Abelian, Times, LinComb;
    CurveParts(c, p);
    var q := CongElim(i, j, N);
    TimesSum(c.group, j, q * N, p);
    TimesProduct(c.group, q, N, p);
    TimesZero(c.group, q);
    Zero(c.group, Times(c.group, j, p));
  }

  /** 1*a, 3*a, 5*a, ... */
  method OddMultiplesTable<T(!new)>(c: Curve<T>, w: nat, a: T) returns (pre: seq<T>)
    requires ValidCurve(c) && w >= 2
    ensures OddMultiples(c.group, pre, a, w)
  {
    hide ValidCurve, Abelian, Times, LinComb, Pow2;
    CurveGroup(c);
    ghost var g := c.group;
    var d := c.group.add(a, a);
    Double(g, a);
    TimesNeg(g, 1, a);
    PowersPositive(w - 2);
    pre := [a];
    var ai := a;
    for i := 1 to TableSize(w)
      invariant |pre| == i && ai == Times(g, 2 * (i - 1) + 1, a)
      invariant forall k: nat :: k < i ==> pre[k] == Times(g, 2 * k + 1, a)
    {
      TimesSum(g, 2 * (i - 1) + 1, 2, a);
      ai := c.group.add(ai, d);
      pre := pre + [ai];
    }
  }

  lemma PowersPositive(n: nat)
    ensures Pow2(n) >= 1
  {
  }

  /** The multiple n*p for an odd digit n, from the table of p. */
  method TableGet<T(!new)>(c: Curve<T>, pre: seq<T>, n: int, w: nat, ghost p: T) returns (r: T)
    requires Abelian(c.group) && w >= 2 && OddMultiples(c.group, pre, p, w)
    requires n % 2 == 1 && Abs(n) < Pow2(w - 1)
    ensures r == Times(c.group, n, p)
  {
    HalfDigit(n, w);
    hide Abelian, Pow2, Times;
    if n > 0 {
      r := pre[(n - 1) / 2];
    } else {
      r := c.group.neg(pre[(0 - n - 1) / 2]);
      TimesNext(c.group, 0 - n, p);
    }
  }

  lemma HalfDigit(n: int, w: nat)
    requires w >= 2 && n % 2 == 1 && Abs(n) < Pow2(w - 1)
    ensures n > 0 ==> 0 <= (n - 1) / 2 < TableSize(w) && 2 * ((n - 1) / 2) + 1 == n
    ensures n < 0 ==> 0 <= (0 - n - 1) / 2 < TableSize(w) && 2 * ((0 - n - 1) / 2) + 1 == 0 - n
    ensures n != 0
  {
  }

  // ----- streams of digits -----

  const DIGITS: nat := 129

  /** The digits of one scalar, with the table of the point that it multiplies. In the source a
      point's state holds two of these, and the generator has two of its own. */
  datatype Stream<T> = Stream(digits: seq<int>, bits: nat, table: seq<T>, window: nat)

  ghost predicate ValidStream<T(!new)>(g: Group<T>, s: Stream<T>, p: T)
  {
    && |s.digits| == DIGITS && 2 <= s.window && s.bits <= DIGITS
    && WnafDigits(s.digits, s.window)
    && (forall i :: s.bits <= i < DIGITS ==> s.digits[i] == 0)
    && OddMultiples(g, s.table, p, s.window)
  }

  /** Recode a short scalar for the point p of the table. */
  method MakeStream<T(!new)>(c: Curve<T>, s: Scalar, table: seq<T>, w: nat, ghost p: T) returns (r: Stream<T>)
    requires ValidCurve(c) && 2 <= w <= 31 && OddMultiples(c.group, table, p, w)
    requires s.Reduced() && Magnitude(s.Val()) <= TWO128
    ensures ValidStream(c.group, r, p)
    ensures Times(c.group, Weighted(r.digits, 0, 2), p) == Times(c.group, s.Val(), p)
  {
    hide ValidCurve, Abelian, Times, LinComb, Pow2, Weighted, WnafDigits, WnafLoop, OddMultiples, Scalar.Val;
    var wnaf := new int[DIGITS];
    LongEnough(Magnitude(s.Val()));
    var bits, carry := EcmultWnaf(wnaf, DIGITS, s, w);
    r := Stream(wnaf[..], bits, table, w);
    ShortCongruent(s.Val());
    TimesMod(c, Short(s.Val()), s.Val(), p);
  }

  lemma LongEnough(m: nat)
    requires m <= TWO128
    ensures 2 * m <= Pow2(129)
  {
    Shifts.WeightIsPow2(2);
    LimbWeights();
    assert Pow2(129) == 2 * Pow2(128);
  }

  lemma ShortCongruent(a: nat)
    ensures Short(a) % N == a % N
  {
    CongIntro(Short(a), a, if a >= TWO255 then -1 else 0, N);
  }

  lemma ShortMagnitude(r: nat, bound: nat)
    requires ShortModulo(r, bound) && bound <= TWO128
    ensures Magnitude(r) < TWO128
  {
  }

  lemma StreamDigit<T(!new)>(g: Group<T>, s: Stream<T>, p: T, i: nat)
    requires ValidStream(g, s, p) && i < DIGITS
    ensures |s.digits| == DIGITS && 2 <= s.window && OddMultiples(g, s.table, p, s.window)
    ensures s.digits[i] != 0 ==> i < s.bits && s.digits[i] % 2 == 1 && Abs(s.digits[i]) < Pow2(s.window - 1)
  {
  }

  /** Add the multiple that digit i of a stream calls for. */
  method AddDigit<T(!new)>(c: Curve<T>, r0: T, s: Stream<T>, i: nat, ghost p: T) returns (r: T)
    requires ValidCurve(c) && ValidStream(c.group, s, p) && i < DIGITS
    ensures |s.digits| == DIGITS && r == c.group.add(r0, Times(c.group, s.digits[i], p))
  {
    hide ValidCurve, Abelian, Times, LinComb, Pow2, OddMultiples, ValidStream, WnafDigits;
    CurveGroup(c);
    StreamDigit(c.group, s, p, i);
    Zero(c.group, r0);
    r := r0;
    if i < s.bits && s.digits[i] != 0 {
      var tmp := TableGet(c, s.table, s.digits[i], s.window, p);
      r := c.group.add(r, tmp);
    } else {
      TimesNone(c.group, p);
    }
  }

  lemma TimesNone<T(!new)>(g: Group<T>, p: T)
    ensures Times(g, 0, p) == g.zero
  {
  }

  /** Digit i of every stream; what the digits from i on stand for. */
  function Column(ds: seq<seq<int>>, i: nat): (col: seq<int>)
    requires forall k :: 0 <= k < |ds| ==> i < |ds[k]|
    ensures |col| == |ds|
  {
    seq(|ds|, k requires 0 <= k < |ds| => ds[k][i])
  }

  function HornerColumn(ds: seq<seq<int>>, i: nat, b: nat): (col: seq<int>)
    ensures |col| == |ds|
  {
    seq(|ds|, k requires 0 <= k < |ds| => Weighted(ds[k], i, b))
  }

  /** One step of Horner's rule for all streams at once. */
  lemma HornerStep<T(!new)>(g: Group<T>, ds: seq<seq<int>>, ps: seq<T>, i: nat, b: nat)
    requires Abelian(g) && |ds| == |ps| && forall k :: 0 <= k < |ds| ==> i < |ds[k]|
    ensures LinComb(g, HornerColumn(ds, i, b), ps, 0)
         == g.add(LinComb(g, Column(ds, i), ps, 0), Times(g, b, LinComb(g, HornerColumn(ds, i + 1, b), ps, 0)))
  {
    hide Abelian;
    LinCombScale(g, HornerColumn(ds, i, b), Column(ds, i), HornerColumn(ds, i + 1, b), b, ps, 0);
  }

  lemma HornerEnd<T(!new)>(g: Group<T>, ds: seq<seq<int>>, ps: seq<T>, i: nat, b: nat)
    requires Abelian(g) && |ds| == |ps|
    requires forall k, j :: 0 <= k < |ds| && i <= j < |ds[k]| ==> ds[k][j] == 0
    ensures LinComb(g, HornerColumn(ds, i, b), ps, 0) == g.zero
  {
    hide Abelian;
    forall k | 0 <= k < |ds| ensures HornerColumn(ds, i, b)[k] == 0 {
      WeightedZeros(ds[k], i, b);
    }
    LinCombZero(g, HornerColumn(ds, i, b), ps, 0);
  }

  /** The streams and the points that they belong to. */
  ghost predicate ValidStreams<T(!new)>(g: Group<T>, ss: seq<Stream<T>>, ps: seq<T>)
  {
    |ss| == |ps| && forall k :: 0 <= k < |ss| ==> ValidStream(g, ss[k], ps[k])
  }

  ghost function Digits<T>(ss: seq<Stream<T>>): (ds: seq<seq<int>>)
    ensures |ds| == |ss|
  {
    seq(|ss|, k requires 0 <= k < |ss| => ss[k].digits)
  }

  /** What all streams together stand for. */
  ghost function Meaning<T(!new)>(g: Group<T>, ss: seq<Stream<T>>, ps: seq<T>): T
    requires |ss| == |ps|
  {
    LinComb(g, HornerColumn(Digits(ss), 0, 2), ps, 0)
  }

  lemma MeaningIs<T(!new)>(g: Group<T>, ss: seq<Stream<T>>, ps: seq<T>, ks: seq<int>)
    requires |ss| == |ps| == |ks| && forall k :: 0 <= k < |ss| ==> ks[k] == Weighted(ss[k].digits, 0, 2)
    ensures Meaning(g, ss, ps) == LinComb(g, ks, ps, 0)
  {
    hide LinComb, Weighted;
    assert HornerColumn(Digits(ss), 0, 2) == ks;
  }

  lemma AppendStream<T(!new)>(g: Group<T>, ss: seq<Stream<T>>, ps: seq<T>, s: Stream<T>, p: T)
    requires Abelian(g) && ValidStreams(g, ss, ps) && ValidStream(g, s, p)
    ensures ValidStreams(g, ss + [s], ps + [p])
    ensures Meaning(g, ss + [s], ps + [p]) == g.add(Meaning(g, ss, ps), Times(g, Weighted(s.digits, 0, 2), p))
  {
    hide Abelian, ValidStream;
    LinCombAppend(g, HornerColumn(Digits(ss), 0, 2), ps, Weighted(s.digits, 0, 2), p, 0);
    assert HornerColumn(Digits(ss + [s]), 0, 2) == HornerColumn(Digits(ss), 0, 2) + [Weighted(s.digits, 0, 2)];
  }

  lemma StreamAt<T(!new)>(g: Group<T>, ss: seq<Stream<T>>, ps: seq<T>, k: nat)
    requires ValidStreams(g, ss, ps) && k < |ss|
    ensures |ps| == |ss| && ValidStream(g, ss[k], ps[k]) && |ss[k].digits| == DIGITS
  {
  }

  lemma StreamLengths<T(!new)>(g: Group<T>, ss: seq<Stream<T>>, ps: seq<T>)
    requires ValidStreams(g, ss, ps)
    ensures |ps| == |ss| && forall k :: 0 <= k < |ss| ==> |Digits(ss)[k]| == DIGITS
  {
  }

  lemma LinCombNone<T>(g: Group<T>, ks: seq<int>, ps: seq<T>)
    requires |ks| == |ps| == 0
    ensures LinComb(g, ks, ps, 0) == g.zero
  {
  }

  lemma TakeNext<X>(s: seq<X>, k: nat)
    requires k < |s|
    ensures s[..k] + [s[k]] == s[..k + 1]
  {
  }

  lemma TakeAll<X>(s: seq<X>)
    ensures s[..|s|] == s
  {
  }

  /** Add digit i of every stream. */
  method AddColumn<T(!new)>(c: Curve<T>, r0: T, ss: seq<Stream<T>>, i: nat, ghost ps: seq<T>) returns (r: T)
    requires ValidCurve(c) && ValidStreams(c.group, ss, ps) && i < DIGITS
    requires forall k :: 0 <= k < |ss| ==> |Digits(ss)[k]| == DIGITS
    ensures |ps| == |ss| && r == c.group.add(r0, LinComb(c.group, Column(Digits(ss), i), ps, 0))
  {
    hide ValidCurve, Abelian, Times, LinComb, ValidStreams, ValidStream;
    CurveGroup(c);
    StreamLengths(c.group, ss, ps);
    ghost var col := Column(Digits(ss), i);
    r := r0;
    Zero(c.group, r0);
    LinCombNone(c.group, col[..0], ps[..0]);
    for k := 0 to |ss|
      invariant r == c.group.add(r0, LinComb(c.group, col[..k], ps[..k], 0))
    {
      StreamAt(c.group, ss, ps, k);
      r := AddDigit(c, r, ss[k], i, ps[k]);
      LinCombAppend(c.group, col[..k], ps[..k], col[k], ps[k], 0);
      Assoc(c.group, r0, LinComb(c.group, col[..k], ps[..k], 0), Times(c.group, col[k], ps[k]));
      TakeNext(col, k);
      TakeNext(ps, k);
    }
    TakeAll(col);
    TakeAll(ps);
  }

  /** The main loop: double, then add the digits of all streams. */
  method Interleave<T(!new)>(c: Curve<T>, ss: seq<Stream<T>>, bits: nat, ghost ps: seq<T>) returns (r: T)
    requires ValidCurve(c) && ValidStreams(c.group, ss, ps) && bits <= DIGITS
    requires forall k :: 0 <= k < |ss| ==> ss[k].bits <= bits
    ensures r == Meaning(c.group, ss, ps)
  {
    hide ValidCurve, Abelian, Times, LinComb, ValidStreams;
    CurveGroup(c);
    ghost var g, ds := c.group, Digits(ss);
    StreamsEnd(g, ss, ps, bits);
    hide ValidStream;
    r := c.group.zero;
    var i: nat := bits;
    while i > 0
      invariant i <= DIGITS && r == LinComb(g, HornerColumn(ds, i, 2), ps, 0)
    {
      i := i - 1;
      HornerStep(g, ds, ps, i, 2);
      Double(g, r);
      ghost var doubled := c.group.add(r, r);
      r := c.group.add(r, r);
      r := AddColumn(c, r, ss, i, ps);
      Comm(g, doubled, LinComb(g, Column(ds, i), ps, 0));
    }
  }

  lemma StreamsEnd<T(!new)>(g: Group<T>, ss: seq<Stream<T>>, ps: seq<T>, bits: nat)
    requires Abelian(g) && ValidStreams(g, ss, ps) && forall k :: 0 <= k < |ss| ==> ss[k].bits <= bits
    ensures |ps| == |ss| && forall k :: 0 <= k < |ss| ==> |Digits(ss)[k]| == DIGITS
    ensures LinComb(g, HornerColumn(Digits(ss), bits, 2), ps, 0) == g.zero
  {
    hide Abelian, LinComb, Times;
    HornerEnd(g, Digits(ss), ps, bits, 2);
  }

  // ----- Strauss -----

  function Values(ks: seq<Scalar>): (vs: seq<int>)
    ensures |vs| == |ks|
  {
    seq(|ks|, k requires 0 <= k < |ks| => ks[k].Val())
  }

  function ValueOf(s: Option<Scalar>): int
  {
    match s
    case None => 0
    case Some(v) => v.Val()
  }

  lemma ValueOfMeans(s: Option<Scalar>)
    ensures ValueOf(s) == (if s.Some? then s.value.Val() else 0)
  {
  }

  lemma ValuesMeans(ks: seq<Scalar>, k: nat)
    requires k < |ks|
    ensures |Values(ks)| == |ks| && Values(ks)[k] == ks[k].Val()
  {
    hide Scalar.Val;
  }

  /** The two halves of a split scalar make up its multiple. */
  lemma SplitMultiple<T(!new)>(c: Curve<T>, k: int, r1: int, r2: int, p: T)
    requires ValidCurve(c) && 0 <= k < N && (r1 + LAMBDA * r2) % N == k
    ensures c.group.add(Times(c.group, r1, p), Times(c.group, r2, c.lambda(p))) == Times(c.group, k, p)
  {
    hide ValidCurve, Abelian, Times;
    CurveParts(c, p);
    TimesProduct(c.group, r2, LAMBDA, p);
    TimesSum(c.group, r1, r2 * LAMBDA, p);
    DivModUnique(k, 0, k, N);
    assert r1 + r2 * LAMBDA == r1 + LAMBDA * r2;
    TimesMod(c, r1 + r2 * LAMBDA, k, p);
  }

  /** The table for the endomorphism's image, entry by entry. */
  method LambdaTable<T(!new)>(c: Curve<T>, pre: seq<T>, w: nat, ghost p: T) returns (aux: seq<T>)
    requires ValidCurve(c) && w >= 2 && OddMultiples(c.group, pre, p, w)
    ensures OddMultiples(c.group, aux, c.lambda(p), w)
  {
    hide ValidCurve, Abelian, Times, TableSize;
    aux := [];
    for i := 0 to |pre|
      invariant |aux| == i && forall k: nat :: k < i ==> aux[k] == Times(c.group, 2 * k + 1, c.lambda(p))
    {
      LambdaMultiple(c, 2 * i + 1, p);
      aux := aux + [c.lambda(pre[i])];
    }
  }

  lemma LambdaMultiple<T(!new)>(c: Curve<T>, k: int, p: T)
    requires ValidCurve(c)
    ensures c.lambda(Times(c.group, k, p)) == Times(c.group, k, c.lambda(p))
  {
    hide ValidCurve, Abelian, Times;
    CurveParts(c, p);
    CurveParts(c, Times(c.group, k, p));
    TimesProduct(c.group, LAMBDA, k, p);
    TimesProduct(c.group, k, LAMBDA, p);
    assert LAMBDA * k == k * LAMBDA;
  }

  /** The two streams of one point. */
  method PointStreams<T(!new)>(c: Curve<T>, k: Scalar, a: T) returns (s1: Stream<T>, sLam: Stream<T>)
    requires ValidCurve(c) && k.Reduced()
    ensures ValidStream(c.group, s1, a) && ValidStream(c.group, sLam, c.lambda(a))
    ensures c.group.add(Times(c.group, Weighted(s1.digits, 0, 2), a), Times(c.group, Weighted(sLam.digits, 0, 2), c.lambda(a)))
         == Times(c.group, k.Val(), a)
  {
    hide ValidCurve, Abelian, Times, ValidStream, OddMultiples, Weighted, Scalar.Val, ShortModulo, Magnitude;
    var k1, kLam := Split(k);
    ShortMagnitude(k1.Val(), K1_BOUND);
    ShortMagnitude(kLam.Val(), K2_BOUND);
    SplitMultiple(c, k.Val(), k1.Val(), kLam.Val(), a);
    var pre := OddMultiplesTable(c, WINDOW_A, a);
    var aux := LambdaTable(c, pre, WINDOW_A, a);
    s1 := MakeStream(c, k1, pre, WINDOW_A, a);
    sLam := MakeStream(c, kLam, aux, WINDOW_A, c.lambda(a));
  }

  /** The two streams of the generator, from its halves below and above 2^128. */
  method BaseStreams<T(!new)>(c: Curve<T>, k: Scalar) returns (s1: Stream<T>, s128: Stream<T>)
    requires ValidCurve(c) && k.Reduced()
    ensures ValidStream(c.group, s1, c.base) && ValidStream(c.group, s128, Times(c.group, TWO128, c.base))
    ensures c.group.add(Times(c.group, Weighted(s1.digits, 0, 2), c.base),
                        Times(c.group, Weighted(s128.digits, 0, 2), Times(c.group, TWO128, c.base)))
         == Times(c.group, k.Val(), c.base)
  {
    hide ValidCurve, Abelian, Times, ValidStream, OddMultiples, Weighted, Scalar.Val;
    BaseTables(c);
    var (k1, k128) := Split128(k);
    HalvesShort(k1.Val());
    HalvesShort(k128.Val());
    s1 := MakeStream(c, k1, c.preG, WINDOW_G, c.base);
    s128 := MakeStream(c, k128, c.preG128, WINDOW_G, Times(c.group, TWO128, c.base));
    TimesProduct(c.group, k128.Val(), TWO128, c.base);
    TimesSum(c.group, k1.Val(), k128.Val() * TWO128, c.base);
  }

  lemma BaseTables<T(!new)>(c: Curve<T>)
    requires ValidCurve(c)
    ensures Abelian(c.group) && OddMultiples(c.group, c.preG, c.base, WINDOW_G)
    ensures OddMultiples(c.group, c.preG128, Times(c.group, TWO128, c.base), WINDOW_G)
  {
  }

  lemma HalvesShort(k: nat)
    ensures k < TWO128 ==> k < N && Magnitude(k) <= TWO128
  {
  }

  /** The streams so far cover the first np inputs: skipped inputs contribute nothing. */
  ghost predicate Covers<T(!new)>(g: Group<T>, ss: seq<Stream<T>>, ps: seq<T>, bits: nat, total: T)
  {
    && ValidStreams(g, ss, ps) && bits <= DIGITS
    && (forall k :: 0 <= k < |ss| ==> ss[k].bits <= bits)
    && Meaning(g, ss, ps) == total
  }

  lemma CoversNone<T(!new)>(g: Group<T>)
    ensures Covers(g, [], [], 0, g.zero)
  {
    LinCombNone(g, HornerColumn(Digits<T>([]), 0, 2), []);
  }

  /** Two more streams. */
  lemma CoversPair<T(!new)>(g: Group<T>, ss: seq<Stream<T>>, ps: seq<T>, bits: nat, total: T,
                            s: Stream<T>, p: T, t: Stream<T>, q: T, bits': nat)
    requires Abelian(g) && Covers(g, ss, ps, bits, total) && ValidStream(g, s, p) && ValidStream(g, t, q)
    requires bits <= bits' <= DIGITS && s.bits <= bits' && t.bits <= bits'
    ensures Covers(g, ss + [s] + [t], ps + [p] + [q], bits',
                   g.add(total, g.add(Times(g, Weighted(s.digits, 0, 2), p), Times(g, Weighted(t.digits, 0, 2), q))))
  {
    hide Abelian, Times, LinComb, ValidStream, Meaning, Weighted;
    AppendStream(g, ss, ps, s, p);
    AppendStream(g, ss + [s], ps + [p], t, q);
    Assoc(g, total, Times(g, Weighted(s.digits, 0, 2), p), Times(g, Weighted(t.digits, 0, 2), q));
  }

  lemma CoversMeaning<T(!new)>(g: Group<T>, ss: seq<Stream<T>>, ps: seq<T>, bits: nat, total: T)
    requires Covers(g, ss, ps, bits, total)
    ensures ValidStreams(g, ss, ps) && bits <= DIGITS && |ps| == |ss| && Meaning(g, ss, ps) == total
    ensures forall k :: 0 <= k < |ss| ==> ss[k].bits <= bits
  {
  }

  lemma StreamBits<T(!new)>(g: Group<T>, s: Stream<T>, p: T)
    requires ValidStream(g, s, p)
    ensures s.bits <= DIGITS
  {
  }

  /** The sum of the first n inputs, and one more. */
  lemma PrefixNext<T(!new)>(g: Group<T>, ks: seq<int>, ps: seq<T>, n: nat)
    requires Abelian(g) && |ks| == |ps| && n < |ps|
    ensures LinComb(g, ks[..n + 1], ps[..n + 1], 0) == g.add(LinComb(g, ks[..n], ps[..n], 0), Times(g, ks[n], ps[n]))
    ensures ks[n] == 0 || ps[n] == g.zero ==> LinComb(g, ks[..n + 1], ps[..n + 1], 0) == LinComb(g, ks[..n], ps[..n], 0)
  {
    hide Abelian, LinComb;
    TakeNext(ks, n);
    TakeNext(ps, n);
    LinCombAppend(g, ks[..n], ps[..n], ks[n], ps[n], 0);
    TimesZero(g, ks[n]);
    TimesNone(g, ps[n]);
    Zero(g, LinComb(g, ks[..n], ps[..n], 0));
  }

  /** The sum of na[i] * a[i] and ng times the generator. */
  method StraussWnaf<T(!new, ==)>(c: Curve<T>, a: seq<T>, na: seq<Scalar>, ng: Option<Scalar>) returns (r: T)
    requires ValidCurve(c) && |a| == |na|
    requires (forall k :: 0 <= k < |na| ==> na[k].Reduced()) && (ng.Some? ==> ng.value.Reduced())
    ensures r == c.group.add(LinComb(c.group, Values(na), a, 0), Times(c.group, ValueOf(ng), c.base))
  {
    hide ValidCurve, Abelian, Times, LinComb, ValidStreams, ValidStream, Covers, Meaning, Weighted, Scalar.Val, Values;
    CurveGroup(c);
    ghost var g, vs := c.group, Values(na);
    var ss: seq<Stream<T>> := [];
    ghost var ps: seq<T> := [];
    var bits := 0;
    CoversNone(g);
    LinCombNone(g, vs[..0], a[..0]);
    for np := 0 to |a|
      invariant Covers(g, ss, ps, bits, LinComb(g, vs[..np], a[..np], 0))
    {
      PrefixNext(g, vs, a, np);
      ValuesAt(na, np);
      if IsZero(na[np]) || a[np] == c.group.zero { continue; }
      var s1, sLam := PointStreams(c, na[np], a[np]);
      StreamBits(g, s1, a[np]);
      StreamBits(g, sLam, c.lambda(a[np]));
      CoversMeaning(g, ss, ps, bits, LinComb(g, vs[..np], a[..np], 0));
      ghost var bits0 := bits;
      bits := Max(Max(bits, s1.bits), sLam.bits);
      CoversPair(g, ss, ps, bits0, LinComb(g, vs[..np], a[..np], 0), s1, a[np], sLam, c.lambda(a[np]), bits);
      ss := ss + [s1] + [sLam];
      ps := ps + [a[np]] + [c.lambda(a[np])];
    }
    TakeAll(vs);
    TakeAll(a);
    r := FinishStrauss(c, ss, bits, ng, ps, LinComb(g, vs, a, 0));
  }

  lemma ValuesAt(ks: seq<Scalar>, i: nat)
    requires i < |ks|
    ensures Values(ks)[i] == ks[i].Val()
  {
  }

  /** Add the streams of the generator and run the main loop. */
  method FinishStrauss<T(!new)>(c: Curve<T>, ss0: seq<Stream<T>>, bits0: nat, ng: Option<Scalar>,
                                ghost ps0: seq<T>, ghost total: T) returns (r: T)
    requires ValidCurve(c) && Covers(c.group, ss0, ps0, bits0, total) && (ng.Some? ==> ng.value.Reduced())
    ensures r == c.group.add(total, Times(c.group, ValueOf(ng), c.base))
  {
    hide ValidCurve, Abelian, Times, LinComb, ValidStreams, ValidStream, Covers, Meaning, Weighted, Scalar.Val;
    CurveGroup(c);
    ghost var g, q := c.group, Times(c.group, TWO128, c.base);
    CoversMeaning(g, ss0, ps0, bits0, total);
    if ng.None? {
      TimesNone(g, c.base);
      Zero(g, total);
      r := Interleave(c, ss0, bits0, ps0);
      return;
    }
    var s1, s128 := BaseStreams(c, ng.value);
    StreamBits(g, s1, c.base);
    StreamBits(g, s128, q);
    var bits := Max(Max(bits0, s1.bits), s128.bits);
    CoversPair(g, ss0, ps0, bits0, total, s1, c.base, s128, q, bits);
    CoversMeaning(g, ss0 + [s1] + [s128], ps0 + [c.base] + [q], bits, g.add(total, Times(g, ValueOf(ng), c.base)));
    r := Interleave(c, ss0 + [s1] + [s128], bits, ps0 + [c.base] + [q]);
  }

  /** na * a + ng * G. */
  method SingleMultiple<T(!new, ==)>(c: Curve<T>, a: T, na: Scalar, ng: Option<Scalar>) returns (r: T)
    requires ValidCurve(c) && na.Reduced() && (ng.Some? ==> ng.value.Reduced())
    ensures r == c.group.add(Times(c.group, na.Val(), a), Times(c.group, ValueOf(ng), c.base))
  {
    hide ValidCurve, Abelian, Times, Scalar.Val, Values, ValueOf;
    CurveGroup(c);
    ValuesAt([na], 0);
    OneTerm(c.group, Values([na]), [a]);
    r := StraussWnaf(c, [a], [na], ng);
  }

  lemma OneTerm<T(!new)>(g: Group<T>, ks: seq<int>, ps: seq<T>)
    requires Abelian(g) && |ks| == |ps| == 1
    ensures LinComb(g, ks, ps, 0) == Times(g, ks[0], ps[0])
  {
    hide Abelian, Times;
    Zero(g, Times(g, ks[0], ps[0]));
    assert LinComb(g, ks, ps, 1) == g.zero;
  }
}
