/** Multiples of the generator from a table of blinded rows, and the blinding of the context. */
module EcmultGen {
  import opened Arith
  import opened Shifts
  import opened Groups
  import opened Scalars
  import opened ScalarBits
  import opened Wnaf
  import opened Ecmult

  /** How many table rows, and points in a row, there are for digits of `bits` bits. */
  function Rows(bits: nat): nat
    requires bits > 0
  {
    256 / bits
  }

  predicate TableBits(bits: nat) { bits == 2 || bits == 4 || bits == 8 }

  // ----- the offsets -----

  /** How often the point of unknown discrete logarithm is in row j of n rows. */
  function Offset(n: nat, j: nat): int
  {
    if j + 1 == n then 1 - Pow2(j) else Pow2(j)
  }

  function OffsetSum(n: nat, j: nat): int
  {
    if j == 0 then 0 else OffsetSum(n, j - 1) + Offset(n, j - 1)
  }

  lemma OffsetSumNext(n: nat, j: nat)
    ensures OffsetSum(n, 0) == 0
    ensures OffsetSum(n, j + 1) == OffsetSum(n, j) + (if j + 1 == n then 1 - Pow2(j) else Pow2(j))
  {
    hide Pow2;
  }

  lemma {:induction false} PartialOffsets(n: nat, j: nat)
    requires j < n
    ensures OffsetSum(n, j) == Pow2(j) - 1
  {
    if j > 0 { PartialOffsets(n, j - 1); }
  }

  /** All rows together contain it zero times. */
  lemma OffsetsCancel(n: nat)
    requires n > 0
    ensures OffsetSum(n, n) == 0
  {
    PartialOffsets(n, n - 1);
  }

  // ----- the table -----

  /** Entry i of row j: the row's offset plus i * 2^(bits*j) times the generator. */
  function Entry<T>(g: Group<T>, gen: T, nums: T, bits: nat, n: nat, j: nat, i: nat): T
  {
    g.add(Times(g, Offset(n, j), nums), Times(g, i * Pow2(bits * j), gen))
  }

  ghost predicate RowOf<T(!new)>(g: Group<T>, row: seq<T>, gen: T, nums: T, bits: nat, n: nat, j: nat)
  {
    |row| == Pow2(bits) && forall i: nat :: i < |row| ==> row[i] == Entry(g, gen, nums, bits, n, j, i)
  }

  ghost predicate TableOf<T(!new)>(g: Group<T>, table: seq<seq<T>>, gen: T, nums: T, bits: nat, n: nat)
  {
    forall j: nat :: j < |table| ==> RowOf(g, table[j], gen, nums, bits, n, j)
  }

  /** In full. The rows' shares of the point nums are 1, 2, 4, ... and, in the last row, 1 - 2^(n-1). */
  lemma TableMeans<T(!new)>(g: Group<T>, table: seq<seq<T>>, gen: T, nums: T, bits: nat, n: nat, j: nat, i: nat)
    requires TableOf(g, table, gen, nums, bits, n) && j < |table| && i < Pow2(bits)
    ensures |table[j]| == Pow2(bits)
    ensures table[j][i] == g.add(Times(g, if j + 1 == n then 1 - Pow2(j) else Pow2(j), nums), Times(g, i * Pow2(bits * j), gen))
  {
    hide Times, Pow2;
    assert RowOf(g, table[j], gen, nums, bits, n, j);
  }

  /** numsbase, numsbase + gbase, numsbase + 2*gbase, ... */
  method ComputeRow<T(!new)>(g: Group<T>, numsbase: T, gbase: T, size: nat) returns (row: seq<T>)
    requires Abelian(g) && size > 0
    ensures |row| == size && forall i: nat :: i < size ==> row[i] == g.add(numsbase, Times(g, i, gbase))
  {
    hide Abelian, Times;
    TimesOf(g, gbase);
    Zero(g, numsbase);
    row := [numsbase];
    for i := 1 to size
      invariant |row| == i && forall k: nat :: k < i ==> row[k] == g.add(numsbase, Times(g, k, gbase))
    {
      TimesNext(g, i - 1, gbase);
      Assoc(g, numsbase, Times(g, i - 1, gbase), gbase);
      row := row + [g.add(row[i - 1], gbase)];
    }
  }

  lemma TimesOf<T(!new)>(g: Group<T>, p: T)
    requires Abelian(g)
    ensures Times(g, 0, p) == g.zero && Times(g, 1, p) == p
  {
    TimesNeg(g, 1, p);
  }

  /** secp256k1_ecmult_gen_compute_table, for any point nums. */
  method ComputeTable<T(!new)>(g: Group<T>, gen: T, nums: T, bits: nat) returns (table: seq<seq<T>>)
    requires Abelian(g) && TableBits(bits)
    ensures |table| == Rows(bits) && TableOf(g, table, gen, nums, bits, Rows(bits))
  {
    hide Abelian, Times, Entry, RowOf, Pow2;
    var n := Rows(bits);
    Pow2Zero();
    TimesOf(g, gen);
    TimesOf(g, nums);
    var gbase, numsbase := gen, nums;
    table := [];
    for j := 0 to n
      invariant |table| == j && TableOf(g, table, gen, nums, bits, n)
      invariant gbase == Times(g, Pow2(bits * j), gen)
      invariant numsbase == Times(g, if j < n then Offset(n, j) else 2 * Offset(n, n - 1), nums)
    {
      var row := ComputeRow(g, numsbase, gbase, Pow2(bits));
      RowIs(g, row, gen, nums, bits, n, j);
      table := table + [row];
      ghost var gbase0 := gbase;
      gbase := DoubleTimes(g, gbase, bits);
      NextBase(g, gen, bits, j);
      Double(g, numsbase);
      TimesProduct(g, 2, Offset(n, j), nums);
      numsbase := g.add(numsbase, numsbase);
      OffsetNext(n, j);
      if j == n - 2 {
        LastOffset(g, n, nums);
        numsbase := g.add(g.neg(numsbase), nums);
      }
    }
  }

  lemma OffsetNext(n: nat, j: nat)
    ensures j + 2 < n ==> Offset(n, j + 1) == 2 * Offset(n, j)
    ensures j + 2 == n ==> Offset(n, j + 1) == 1 - 2 * Offset(n, j)
  {
  }

  lemma LastOffset<T(!new)>(g: Group<T>, n: nat, nums: T)
    requires Abelian(g) && n >= 2
    ensures g.add(g.neg(Times(g, 2 * Offset(n, n - 2), nums)), nums) == Times(g, Offset(n, n - 1), nums)
  {
    hide Abelian, Times;
    OffsetNext(n, n - 2);
    var k := 2 * Offset(n, n - 2);
    TimesNext(g, k, nums);
    TimesNext(g, 0 - k, nums);
  }

  lemma NextBase<T(!new)>(g: Group<T>, gen: T, bits: nat, j: nat)
    requires Abelian(g)
    ensures Times(g, Pow2(bits), Times(g, Pow2(bits * j), gen)) == Times(g, Pow2(bits * (j + 1)), gen)
  {
    hide Abelian, Times;
    TimesProduct(g, Pow2(bits), Pow2(bits * j), gen);
    Pow2Add(bits, bits * j);
    assert bits * (j + 1) == bits + bits * j;
  }

  lemma RowIs<T(!new)>(g: Group<T>, row: seq<T>, gen: T, nums: T, bits: nat, n: nat, j: nat)
    requires Abelian(g) && |row| == Pow2(bits)
    requires forall i: nat :: i < |row| ==>
               row[i] == g.add(Times(g, Offset(n, j), nums), Times(g, i, Times(g, Pow2(bits * j), gen)))
    ensures RowOf(g, row, gen, nums, bits, n, j)
  {
    hide Abelian, Times, Entry, Offset, Pow2;
    forall i: nat | i < |row| ensures row[i] == Entry(g, gen, nums, bits, n, j, i) {
      EntryIs(g, gen, nums, bits, n, j, i);
    }
  }

  lemma EntryIs<T(!new)>(g: Group<T>, gen: T, nums: T, bits: nat, n: nat, j: nat, i: nat)
    requires Abelian(g)
    ensures Entry(g, gen, nums, bits, n, j, i)
         == g.add(Times(g, Offset(n, j), nums), Times(g, i, Times(g, Pow2(bits * j), gen)))
  {
    hide Abelian, Times, Pow2, Offset;
    TimesProduct(g, i, Pow2(bits * j), gen);
  }

  // ----- the context -----

  /** Multiplication contexts. The state is blinded: `initial` is minus `blind` times the generator. */
  class GenContext<T(!new, ==)> {
    const curve: Curve<T>
    const bits: nat
    const table: seq<seq<T>>
    ghost const nums: T
    var blind: Scalar
    var initial: T

    ghost predicate ValidTable()
    {
      && ValidCurve(curve) && TableBits(bits) && |table| == Rows(bits)
      && TableOf(curve.group, table, curve.base, nums, bits, Rows(bits))
    }

    ghost predicate Valid()
      reads this
    {
      && ValidTable() && blind.Reduced()
      && initial == Times(curve.group, 0 - blind.Val(), curve.base)
    }

    /** A context over a table of the generator; `draw` is what the generator of random numbers
        returns for the first blinding value. */
    constructor (c: Curve<T>, n: T, b: nat, t: seq<seq<T>>, draw: Scalar)
      requires ValidCurve(c) && TableBits(b) && |t| == Rows(b) && TableOf(c.group, t, c.base, n, b, Rows(b))
      requires draw.Reduced()
      ensures Valid() && curve == c && blind.Val() == N - (if draw.Val() == 0 then 1 else draw.Val())
    {
      curve := c;
      bits := b;
      table := t;
      nums := n;
      blind := ZERO;
      initial := c.group.zero;
      new;
      Blind(true, draw);
    }

    /** The entry that a digit selects, by a pass over the whole row. */
    method Select(j: nat, digit: nat) returns (adds: T)
      requires j < |table| && digit < |table[j]|
      ensures adds == table[j][digit]
    {
      adds := curve.group.zero;
      for k := 0 to |table[j]|
        invariant digit < k ==> adds == table[j][digit]
      {
        if k == digit { adds := table[j][k]; }
      }
    }

    /** The entry that row i has for its digit of gnb. */
    method Pick(gnb: Scalar, i: nat) returns (add: T)
      requires Valid() && i < Rows(bits)
      ensures add == Entry(curve.group, curve.base, nums, bits, Rows(bits), i, Bits(gnb.Val(), i * bits, bits))
    {
      hide ValidCurve, Times, Entry, RowOf, TableOf, Pow2, Scalar.Val, Bits;
      DigitFits(bits, i, gnb.Val());
      var digit := GetBits(gnb, i * bits, bits);
      EntryAt(curve.group, table, curve.base, nums, bits, Rows(bits), i, digit);
      add := Select(i, digit);
    }

    /** r = gn * G, whatever the blinding. */
    method Gen(gn: Scalar) returns (r: T)
      requires Valid() && gn.Reduced()
      ensures r == Times(curve.group, gn.Val(), curve.base)
    {
      hide ValidCurve, Abelian, Times, Entry, RowOf, TableOf, Pow2, OffsetSum, Scalar.Val, Bits;
      CurveParts(curve, curve.base);
      ghost var g := curve.group;
      ghost var n := Rows(bits);
      r := initial;
      var gnb, overflow := Add(gn, blind);
      ghost var v := gnb.Val();
      GenStart(g, initial, nums, curve.base, v, bits, n);
      for i := 0 to Rows(bits)
        invariant r == Partial(g, initial, nums, curve.base, v, bits, n, i)
      {
        var add := Pick(gnb, i);
        DigitFits(bits, i, v);
        GenStep(g, initial, nums, curve.base, v, bits, n, i, Bits(v, i * bits, bits));
        r := curve.group.add(r, add);
      }
      GenEnd(curve, initial, nums, v, bits, gn.Val(), blind.Val());
    }

    /** New blinding, from a number drawn at random; `reset` first forgets the old one. */
    method Blind(reset: bool, draw: Scalar)
      requires ValidTable() && draw.Reduced() && (reset || Valid())
      modifies this
      ensures Valid() && blind.Val() == N - (if draw.Val() == 0 then 1 else draw.Val())
      ensures initial == Times(curve.group, 0 - blind.Val(), curve.base)
    {
      hide ValidCurve, Abelian, Times, TableOf, Scalar.Val;
      CurveParts(curve, curve.base);
      if reset {
        initial := curve.group.neg(curve.base);
        blind := ONE;
        OneVal();
        TimesNeg(curve.group, 1, curve.base);
      }
      var b := draw;
      if IsZero(b) { b := ONE; OneVal(); }
      var gb := Gen(b);
      ghost var v := b.Val();
      b := Negate(b);
      NegatedTimes(curve, v, b.Val());
      blind := b;
      initial := gb;
    }
  }

  const ONE := Scalar(1, 0, 0, 0)

  lemma OneVal()
    ensures ONE.Val() == 1 && ONE.Reduced()
  {
  }

  lemma NegatedTimes<T(!new)>(c: Curve<T>, v: nat, w: nat)
    requires ValidCurve(c) && v < N && w == (if v == 0 then 0 else N - v)
    ensures Times(c.group, v, c.base) == Times(c.group, 0 - w, c.base)
  {
    CongIntro(v, 0 - w, if v == 0 then 0 else 1, N);
    TimesMod(c, v, 0 - w, c.base);
  }

  /** What has been added up before row i. */
  function Partial<T>(g: Group<T>, initial: T, nums: T, base: T, v: nat, bits: nat, n: nat, i: nat): T
  {
    g.add(initial, g.add(Times(g, OffsetSum(n, i), nums), Times(g, v % Pow2(bits * i), base)))
  }

  lemma GenStart<T(!new)>(g: Group<T>, initial: T, nums: T, base: T, v: nat, bits: nat, n: nat)
    requires Abelian(g)
    ensures Partial(g, initial, nums, base, v, bits, n, 0) == initial
  {
    assert bits * 0 == 0 && Pow2(0) == 1;
    Zero(g, g.zero);
    Zero(g, initial);
  }

  lemma DigitPlace(bits: nat, i: nat)
    requires TableBits(bits) && i < Rows(bits)
    ensures i * bits + bits <= 256 && (i * bits + bits - 1) / WIDTH == i * bits / WIDTH
  {
    if bits == 2 { PlaceInLimb(i, 2, 32); } else if bits == 4 { PlaceInLimb(i, 4, 16); } else { PlaceInLimb(i, 8, 8); }
  }

  /** A limb of b * k bits holds k digits of b bits, none across its end. */
  lemma PlaceInLimb(i: nat, b: nat, k: nat)
    requires b > 0 && k > 0 && b * k > 0
    ensures (i * b + b - 1) / (b * k) == i * b / (b * k)
  {
    var h, l := i / k, i % k;
    MulMono(l + 1, k, b);
    MulNat(l, b);
    DigitOffset(i, b, k, h, l);
    var w := b * k;
    DivModUnique(i * b, h, l * b, w);
    DivModUnique(i * b + b - 1, h, l * b + b - 1, w);
  }

  lemma DigitOffset(i: int, b: int, k: int, h: int, l: int)
    requires i == h * k + l
    ensures i * b == h * (b * k) + l * b && (l + 1) * b == l * b + b && k * b == b * k
  {
  }

  lemma DigitFits(bits: nat, i: nat, v: nat)
    requires TableBits(bits) && i < Rows(bits)
    ensures i * bits + bits <= 256 && (i * bits + bits - 1) / WIDTH == i * bits / WIDTH
    ensures Bits(v, i * bits, bits) < Pow2(bits)
    ensures v % Pow2(bits * (i + 1)) == v % Pow2(bits * i) + Bits(v, i * bits, bits) * Pow2(bits * i)
  {
    hide Pow2;
    DigitPlace(bits, i);
    BitsNext(v, i * bits, bits);
    assert bits * (i + 1) == i * bits + bits && bits * i == i * bits;
  }

  lemma EntryAt<T(!new)>(g: Group<T>, table: seq<seq<T>>, gen: T, nums: T, bits: nat, n: nat, j: nat, i: nat)
    requires j < |table| && i < Pow2(bits) && TableOf(g, table, gen, nums, bits, n)
    ensures i < |table[j]| && table[j][i] == Entry(g, gen, nums, bits, n, j, i)
  {
    assert RowOf(g, table[j], gen, nums, bits, n, j);
  }

  lemma GenStep<T(!new)>(g: Group<T>, initial: T, nums: T, base: T, v: nat, bits: nat, n: nat, i: nat, digit: nat)
    requires Abelian(g) && v % Pow2(bits * (i + 1)) == v % Pow2(bits * i) + digit * Pow2(bits * i)
    ensures g.add(Partial(g, initial, nums, base, v, bits, n, i), Entry(g, base, nums, bits, n, i, digit))
         == Partial(g, initial, nums, base, v, bits, n, i + 1)
  {
    hide Abelian, Times, Pow2;
    var a, b := Times(g, OffsetSum(n, i), nums), Times(g, v % Pow2(bits * i), base);
    var c, d := Times(g, Offset(n, i), nums), Times(g, digit * Pow2(bits * i), base);
    Assoc(g, initial, g.add(a, b), g.add(c, d));
    Swap4(g, a, b, c, d);
    TimesSum(g, OffsetSum(n, i), Offset(n, i), nums);
    TimesSum(g, v % Pow2(bits * i), digit * Pow2(bits * i), base);
  }

  lemma GenEnd<T(!new)>(c: Curve<T>, initial: T, nums: T, v: nat, bits: nat, gn: nat, blind: nat)
    requires ValidCurve(c) && TableBits(bits) && v < N && v == (gn + blind) % N
    requires initial == Times(c.group, 0 - blind, c.base)
    ensures Partial(c.group, initial, nums, c.base, v, bits, Rows(bits), Rows(bits)) == Times(c.group, gn, c.base)
  {
    hide *;
    RowsCover(bits);
    CurveGroup(c);
    PartialEnd(c.group, initial, nums, c.base, v, bits, Rows(bits));
    Unblind(v, gn, blind);
    TimesSum(c.group, 0 - blind, v, c.base);
    TimesMod(c, 0 - blind + v, gn, c.base);
  }

  lemma PartialEnd<T(!new)>(g: Group<T>, initial: T, nums: T, base: T, v: nat, bits: nat, n: nat)
    requires Abelian(g) && bits * n == 256 && n > 0 && v < N
    ensures Partial(g, initial, nums, base, v, bits, n, n) == g.add(initial, Times(g, v, base))
  {
    hide Abelian, Times, Pow2, OffsetSum;
    OffsetsCancel(n);
    TimesOf(g, nums);
    Below256(v);
    Zero(g, Times(g, v, base));
  }

  lemma RowsCover(bits: nat)
    requires TableBits(bits)
    ensures bits * Rows(bits) == 256 && Rows(bits) > 0
  {
  }

  lemma Below256(v: nat)
    requires v < N
    ensures v % Pow2(256) == v
  {
    hide Pow2;
    Pow256();
    DivModUnique(v, 0, v, TWO256);
  }

  lemma Unblind(v: nat, gn: nat, blind: nat)
    requires v == (gn + blind) % N
    ensures (0 - blind + v) % N == gn % N
  {
    var q := (gn + blind) / N;
    CongIntro(0 - blind + v, gn, 0 - q, N);
  }
}
