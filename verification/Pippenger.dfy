/** Pippenger's bucket method for many points. */
module Pippenger {
  import opened Arith
  import opened Groups
  import opened Scalars
  import opened ScalarBits
  import opened SplitLambda
  import opened Wnaf
  import opened MachineInts
  import opened Ecmult
  import Shifts

  // ----- buckets -----

  /** The weights 1, 3, 5, ... of the buckets. */
  function Odds(m: nat): (ks: seq<int>)
    ensures |ks| == m
  {
    seq(m, j => 2 * j + 1)
  }

  /** What the buckets stand for: bucket[0] + 3*bucket[1] + 5*bucket[2] + ... */
  ghost function BucketSum<T>(g: Group<T>, bs: seq<T>): T
  {
    LinComb(g, Odds(|bs|), bs, 0)
  }

  lemma BucketSumIs<T>(g: Group<T>, bs: seq<T>, ks: seq<int>)
    requires |ks| == |bs| && forall k :: 0 <= k < |ks| ==> ks[k] == 2 * k + 1
    ensures BucketSum(g, bs) == LinComb(g, ks, bs, 0)
  {
    hide LinComb;
    assert Odds(|bs|) == ks;
  }

  function Suffix<T>(g: Group<T>, bs: seq<T>, j: nat): T
    decreases |bs| - j
  {
    if j >= |bs| then g.zero else g.add(bs[j], Suffix(g, bs, j + 1))
  }

  /** Sum of (2k + c) * bs[k] for k >= j. */
  function OddComb<T>(g: Group<T>, bs: seq<T>, j: nat, c: int): T
    decreases |bs| - j
  {
    if j >= |bs| then g.zero else g.add(Times(g, 2 * j + c, bs[j]), OddComb(g, bs, j + 1, c))
  }

  lemma {:induction false} OddCombIsLinComb<T>(g: Group<T>, bs: seq<T>, j: nat)
    ensures OddComb(g, bs, j, 1) == LinComb(g, Odds(|bs|), bs, j)
    decreases |bs| - j
  {
    if j < |bs| { OddCombIsLinComb(g, bs, j + 1); }
  }

  /** Raising all weights by 2 adds twice the plain sum. */
  lemma {:induction false} OddShift<T(!new)>(g: Group<T>, bs: seq<T>, j: nat, c: int)
    requires Abelian(g)
    ensures OddComb(g, bs, j, c + 2) == g.add(OddComb(g, bs, j, c), Times(g, 2, Suffix(g, bs, j)))
    decreases |bs| - j
  {
    hide Abelian, Times;
    if j >= |bs| {
      TimesZero(g, 2);
      Zero(g, g.zero);
    } else {
      OddShift(g, bs, j + 1, c);
      TimesSum(g, 2 * j + c, 2, bs[j]);
      TimesPoints(g, 2, bs[j], Suffix(g, bs, j + 1));
      Swap4(g, Times(g, 2 * j + c, bs[j]), Times(g, 2, bs[j]), OddComb(g, bs, j + 1, c), Times(g, 2, Suffix(g, bs, j + 1)));
    }
  }

  /** The running sums so far: twice their total, and the buckets from j on once more, give the
      buckets from j on with weights 1, 3, 5, ... */
  ghost predicate Running<T(!new)>(g: Group<T>, bs: seq<T>, j: nat, total: T)
  {
    g.add(Times(g, 2, total), Suffix(g, bs, j)) == OddComb(g, bs, j, 1 - 2 * j)
  }

  lemma RunningStart<T(!new)>(g: Group<T>, bs: seq<T>)
    requires Abelian(g) && |bs| > 0
    ensures Running(g, bs, |bs| - 1, g.zero)
  {
    hide Abelian, Times;
    var j := |bs| - 1;
    TimesZero(g, 2);
    TimesNeg(g, 1, bs[j]);
    Zero(g, bs[j]);
    Zero(g, Suffix(g, bs, j));
    assert Suffix(g, bs, j + 1) == g.zero && OddComb(g, bs, j + 1, 1 - 2 * j) == g.zero;
  }

  lemma RunningNext<T(!new)>(g: Group<T>, bs: seq<T>, j: nat, total: T)
    requires Abelian(g) && 0 < j < |bs| && Running(g, bs, j, total)
    ensures Running(g, bs, j - 1, g.add(total, Suffix(g, bs, j)))
  {
    hide Abelian, Times;
    var s, b, t := Suffix(g, bs, j), bs[j - 1], Times(g, 2, total);
    TimesPoints(g, 2, total, s);
    OddShift(g, bs, j, 1 - 2 * j);
    TimesNeg(g, 1, b);
    assert OddComb(g, bs, j - 1, 3 - 2 * j) == g.add(Times(g, 1, b), OddComb(g, bs, j, 3 - 2 * j));
    RearrangeRunning(g, t, Times(g, 2, s), b, s);
  }

  /** (t + d) + (b + s) = b + ((t + s) + d). */
  lemma RearrangeRunning<T(!new)>(g: Group<T>, t: T, d: T, b: T, s: T)
    requires Abelian(g)
    ensures g.add(g.add(t, d), g.add(b, s)) == g.add(b, g.add(g.add(t, s), d))
  {
    hide Abelian;
    Comm(g, b, s);
    Swap4(g, t, d, s, b);
    Assoc(g, g.add(t, s), d, b);
    Comm(g, g.add(g.add(t, s), d), b);
  }

  /** r := 2*r + BucketSum: the doubling of the weights is shared with the last window doubling. */
  method SumBuckets<T(!new)>(c: Curve<T>, buckets: seq<T>, r0: T) returns (r: T)
    requires ValidCurve(c) && |buckets| > 0
    ensures r == c.group.add(Times(c.group, 2, r0), BucketSum(c.group, buckets))
  {
    hide ValidCurve, Abelian, Times, LinComb, Suffix, OddComb, Running, BucketSum;
    CurveGroup(c);
    ghost var g, bs := c.group, buckets;
    ghost var total := g.zero;
    r := r0;
    var runningSum := c.group.zero;
    var j := |buckets| - 1;
    RunningStart(g, bs);
    SuffixEnd(g, bs);
    Zero(g, r0);
    while j > 0
      invariant 0 <= j < |buckets|
      invariant runningSum == Suffix(g, bs, j + 1) && r == g.add(r0, total)
      invariant Running(g, bs, j, total)
    {
      SuffixNext(g, bs, j);
      runningSum := c.group.add(runningSum, buckets[j]);
      RunningNext(g, bs, j, total);
      Assoc(g, r0, total, runningSum);
      r := c.group.add(r, runningSum);
      total := g.add(total, runningSum);
      j := j - 1;
    }
    SuffixNext(g, bs, 0);
    runningSum := c.group.add(runningSum, buckets[0]);
    Double(g, r);
    TimesPoints(g, 2, r0, total);
    r := c.group.add(r, r);
    r := c.group.add(r, runningSum);
    Assoc(g, Times(g, 2, r0), Times(g, 2, total), runningSum);
    RunningEnd(g, bs, total);
  }

  lemma SuffixEnd<T>(g: Group<T>, bs: seq<T>)
    ensures Suffix(g, bs, |bs|) == g.zero
  {
  }

  lemma SuffixNext<T(!new)>(g: Group<T>, bs: seq<T>, j: nat)
    requires Abelian(g) && j < |bs|
    ensures g.add(Suffix(g, bs, j + 1), bs[j]) == Suffix(g, bs, j)
  {
    Comm(g, Suffix(g, bs, j + 1), bs[j]);
  }

  lemma RunningEnd<T(!new)>(g: Group<T>, bs: seq<T>, total: T)
    requires Running(g, bs, 0, total)
    ensures g.add(Times(g, 2, total), Suffix(g, bs, 0)) == BucketSum(g, bs)
  {
    OddCombIsLinComb(g, bs, 0);
  }

  lemma BucketGrows<T(!new)>(g: Group<T>, bs: seq<T>, idx: nat, q: T)
    requires Abelian(g) && idx < |bs|
    ensures BucketSum(g, bs[idx := g.add(bs[idx], q)]) == g.add(BucketSum(g, bs), Times(g, 2 * idx + 1, q))
  {
    hide Abelian, Times, LinComb;
    LinCombAddPoint(g, Odds(|bs|), bs, idx, q, 0);
  }

  /** Add a point to a bucket. */
  method AddToBucket<T(!new)>(c: Curve<T>, buckets: array<T>, idx: nat, q: T)
    requires ValidCurve(c) && idx < buckets.Length
    modifies buckets
    ensures BucketSum(c.group, buckets[..]) == c.group.add(old(BucketSum(c.group, buckets[..])), Times(c.group, 2 * idx + 1, q))
  {
    hide ValidCurve, Abelian, Times, LinComb, BucketSum;
    CurveGroup(c);
    ghost var bs := buckets[..];
    BucketGrows(c.group, bs, idx, q);
    buckets[idx] := c.group.add(buckets[idx], q);
    assert buckets[..] == bs[idx := c.group.add(bs[idx], q)];
  }

  /** Put a point into the bucket of its digit, and take it out once for the skew. */
  method AddEntry<T(!new)>(c: Curve<T>, buckets: array<T>, n: int, skew: int, p: T)
    requires ValidCurve(c) && (skew == 0 || skew == 1)
    requires buckets.Length > 0 && (n == 0 || (n % 2 == 1 && Abs(n) < 2 * buckets.Length))
    modifies buckets
    ensures BucketSum(c.group, buckets[..]) == c.group.add(old(BucketSum(c.group, buckets[..])), Times(c.group, n - skew, p))
  {
    hide ValidCurve, Abelian, Times, BucketSum;
    CurveGroup(c);
    ghost var g, s0 := c.group, BucketSum(c.group, buckets[..]);
    TimesNone(g, p);
    Zero(g, s0);
    TimesNeg(g, 1, p);
    if skew == 1 {
      AddToBucket(c, buckets, 0, c.group.neg(p));
    }
    ghost var s1 := BucketSum(c.group, buckets[..]);
    assert s1 == g.add(s0, Times(g, 0 - skew, p));
    Zero(g, s1);
    if n > 0 {
      AddToBucket(c, buckets, (n - 1) / 2, p);
    } else if n < 0 {
      NegativeIndex(n);
      TimesNeg(g, 0 - n, p);
      AddToBucket(c, buckets, (0 - (n + 1)) / 2, c.group.neg(p));
    }
    assert BucketSum(c.group, buckets[..]) == g.add(s1, Times(g, n, p));
    Assoc(g, s0, Times(g, 0 - skew, p), Times(g, n, p));
    TimesSum(g, 0 - skew, n, p);
  }

  lemma NegativeIndex(n: int)
    requires n < 0 && n % 2 == 1
    ensures (0 - (n + 1)) / 2 >= 0 && 2 * ((0 - (n + 1)) / 2) + 1 == 0 - n
  {
  }

  // ----- windows -----

  /** The recoded entries: digits, skews, and the points they belong to. */
  ghost predicate ValidEntries<T(!new)>(ds: seq<seq<int>>, skews: seq<int>, ps: seq<T>, w: nat, size: nat)
  {
    && |ds| == |skews| == |ps|
    && forall k :: 0 <= k < |ds| ==> |ds[k]| == size && FixedDigits(ds[k], Pow2(w)) && (skews[k] == 0 || skews[k] == 1)
  }

  /** Digit i of every entry, less the skew in the lowest window. */
  function SkewedColumn(ds: seq<seq<int>>, skews: seq<int>, i: nat): (col: seq<int>)
    requires |ds| == |skews| && forall k :: 0 <= k < |ds| ==> i < |ds[k]|
    ensures |col| == |ds|
  {
    seq(|ds|, k requires 0 <= k < |ds| => ds[k][i] - (if i == 0 then skews[k] else 0))
  }

  /** The scalars that the entries stand for. */
  function Recoded(ds: seq<seq<int>>, skews: seq<int>, i: nat, b: nat): (col: seq<int>)
    requires |ds| == |skews|
    ensures |col| == |ds|
  {
    seq(|ds|, k requires 0 <= k < |ds| => Weighted(ds[k], i, b) - (if i == 0 then skews[k] else 0))
  }

  lemma RecodedAt(ds: seq<seq<int>>, skews: seq<int>, i: nat, b: nat, k: nat)
    requires |ds| == |skews| && k < |ds|
    ensures Recoded(ds, skews, i, b)[k] == Weighted(ds[k], i, b) - (if i == 0 then skews[k] else 0)
    ensures (forall j :: 0 <= j < |ds| ==> i < |ds[j]|) ==>
              SkewedColumn(ds, skews, i)[k] == ds[k][i] - (if i == 0 then skews[k] else 0)
  {
    hide Weighted;
  }

  lemma RecodedStep<T(!new)>(g: Group<T>, ds: seq<seq<int>>, skews: seq<int>, ps: seq<T>, i: nat, b: nat)
    requires Abelian(g) && |ds| == |skews| == |ps| && forall k :: 0 <= k < |ds| ==> i < |ds[k]|
    ensures LinComb(g, Recoded(ds, skews, i, b), ps, 0)
         == g.add(LinComb(g, SkewedColumn(ds, skews, i), ps, 0), Times(g, b, LinComb(g, Recoded(ds, skews, i + 1, b), ps, 0)))
  {
    hide Abelian, LinComb, Times;
    LinCombScale(g, Recoded(ds, skews, i, b), SkewedColumn(ds, skews, i), Recoded(ds, skews, i + 1, b), b, ps, 0);
  }

  lemma RecodedEnd<T(!new)>(g: Group<T>, ds: seq<seq<int>>, skews: seq<int>, ps: seq<T>, i: nat, b: nat)
    requires Abelian(g) && |ds| == |skews| == |ps| && i > 0 && forall k :: 0 <= k < |ds| ==> |ds[k]| == i
    ensures LinComb(g, Recoded(ds, skews, i, b), ps, 0) == g.zero
  {
    hide Abelian, LinComb;
    LinCombZero(g, Recoded(ds, skews, i, b), ps, 0);
  }

  lemma EntryDigit<T(!new)>(ds: seq<seq<int>>, skews: seq<int>, ps: seq<T>, w: nat, size: nat, k: nat, i: nat)
    requires ValidEntries(ds, skews, ps, w, size) && k < |ds| && i < size && w > 0
    ensures |ds| == |skews| == |ps| && |ds[k]| == size && (skews[k] == 0 || skews[k] == 1)
    ensures ds[k][i] == 0 || (ds[k][i] % 2 == 1 && Abs(ds[k][i]) < 2 * Pow2(w - 1))
  {
  }

  lemma EntryLengths<T(!new)>(ds: seq<seq<int>>, skews: seq<int>, ps: seq<T>, w: nat, size: nat)
    requires ValidEntries(ds, skews, ps, w, size)
    ensures |ds| == |skews| == |ps| && forall k :: 0 <= k < |ds| ==> |ds[k]| == size
  {
  }

  /** Sort all entries into the buckets of their digit i. */
  method FillBuckets<T(!new)>(c: Curve<T>, buckets: array<T>, ds: seq<seq<int>>, skews: seq<int>, ps: seq<T>,
                              i: nat, w: nat, size: nat)
    requires ValidCurve(c) && w > 0 && buckets.Length == Pow2(w - 1) && i < size
    requires ValidEntries(ds, skews, ps, w, size)
    modifies buckets
    ensures |ds| == |skews| == |ps| && forall k :: 0 <= k < |ds| ==> i < |ds[k]|
    ensures BucketSum(c.group, buckets[..]) == LinComb(c.group, SkewedColumn(ds, skews, i), ps, 0)
  {
    hide ValidCurve, Abelian, Times, LinComb, BucketSum, ValidEntries, Pow2, FixedDigits;
    CurveGroup(c);
    EntryLengths(ds, skews, ps, w, size);
    ghost var col := SkewedColumn(ds, skews, i);
    for j := 0 to buckets.Length
      invariant forall k :: 0 <= k < j ==> buckets[k] == c.group.zero
    {
      buckets[j] := c.group.zero;
    }
    EmptyBuckets(c.group, buckets[..]);
    LinCombNone(c.group, col[..0], ps[..0]);
    for np := 0 to |ds|
      invariant BucketSum(c.group, buckets[..]) == LinComb(c.group, col[..np], ps[..np], 0)
    {
      EntryDigit(ds, skews, ps, w, size, np, i);
      PrefixNext(c.group, col, ps, np);
      AddEntry(c, buckets, ds[np][i], if i == 0 then skews[np] else 0, ps[np]);
    }
    TakeAll(col);
    TakeAll(ps);
  }

  lemma EmptyBuckets<T(!new)>(g: Group<T>, bs: seq<T>)
    requires Abelian(g) && forall k :: 0 <= k < |bs| ==> bs[k] == g.zero
    ensures BucketSum(g, bs) == g.zero
  {
    LinCombZero(g, Odds(|bs|), bs, 0);
  }

  /** All windows, from the top: 2^w times the result so far, plus the window's digits. */
  method SumWindows<T(!new)>(c: Curve<T>, ds: seq<seq<int>>, skews: seq<int>, ps: seq<T>, bucketWindow: nat, size: nat)
    returns (r: T)
    requires ValidCurve(c) && bucketWindow > 0 && size > 0
    requires ValidEntries(ds, skews, ps, bucketWindow + 1, size)
    ensures |ds| == |skews| == |ps|
    ensures r == LinComb(c.group, Recoded(ds, skews, 0, Pow2(bucketWindow + 1)), ps, 0)
  {
    hide ValidCurve, Abelian, Times, LinComb, BucketSum, ValidEntries, Pow2, FixedDigits;
    CurveGroup(c);
    EntryLengths(ds, skews, ps, bucketWindow + 1, size);
    ghost var g, b := c.group, Pow2(bucketWindow + 1);
    r := c.group.zero;
    var buckets := new T[Pow2(bucketWindow)](_ => c.group.zero);
    var i := size;
    RecodedEnd(g, ds, skews, ps, size, b);
    while i > 0
      invariant 0 <= i <= size && r == LinComb(g, Recoded(ds, skews, i, b), ps, 0)
    {
      i := i - 1;
      RecodedStep(g, ds, skews, ps, i, b);
      FillBuckets(c, buckets, ds, skews, ps, i, bucketWindow + 1, size);
      ghost var r0 := r;
      r := DoubleTimes(c.group, r, bucketWindow);
      r := SumBuckets(c, buckets[..], r);
      DoubledPower(g, bucketWindow, r0);
      Comm(g, LinComb(g, SkewedColumn(ds, skews, i), ps, 0), Times(g, b, r0));
    }
  }

  // ----- the endomorphism split -----

  /** Two short scalars and points with the same combined multiple. */
  method EndoSplit<T(!new)>(c: Curve<T>, s: Scalar, p: T) returns (s1: Scalar, p1: T, s2: Scalar, p2: T)
    requires ValidCurve(c) && s.Reduced()
    ensures s1.Val() < TWO128 && s2.Val() < TWO128
    ensures c.group.add(Times(c.group, s1.Val(), p1), Times(c.group, s2.Val(), p2)) == Times(c.group, s.Val(), p)
  {
    hide ValidCurve, Abelian, Times, Scalar.Val, ShortModulo;
    s1, s2 := Split(s);
    SplitMultiple(c, s.Val(), s1.Val(), s2.Val(), p);
    p1, p2 := p, c.lambda(p);
    s1, p1 := MakeLow(c, s1, p1, K1_BOUND);
    s2, p2 := MakeLow(c, s2, p2, K2_BOUND);
  }

  /** Negate a scalar above half the order, and its point with it. */
  method MakeLow<T(!new)>(c: Curve<T>, s0: Scalar, p0: T, ghost bound: nat) returns (s: Scalar, p: T)
    requires ValidCurve(c) && s0.Reduced() && ShortModulo(s0.Val(), bound) && bound <= TWO128
    ensures s.Val() < TWO128 && Times(c.group, s.Val(), p) == Times(c.group, s0.Val(), p0)
  {
    hide ValidCurve, Abelian, Times, Scalar.Val;
    CurveGroup(c);
    s, p := s0, p0;
    if IsHigh(s) {
      s := Negate(s);
      p := c.group.neg(p);
      TimesNeg(c.group, s.Val(), p0);
      CongIntro(0 - s.Val(), s0.Val(), -1, N);
      TimesMod(c, 0 - s.Val(), s0.Val(), p0);
    }
  }

  // ----- all points -----

  /** The entries cover the inputs so far. */
  ghost predicate CoversInputs<T(!new)>(g: Group<T>, ds: seq<seq<int>>, skews: seq<int>, ps: seq<T>, w: nat, size: nat, total: T)
  {
    && ValidEntries(ds, skews, ps, w, size)
    && LinComb(g, Recoded(ds, skews, 0, Pow2(w)), ps, 0) == total
  }

  lemma InputsNone<T(!new)>(g: Group<T>, w: nat, size: nat)
    ensures CoversInputs(g, [], [], [], w, size, g.zero)
  {
    LinCombNone(g, Recoded([], [], 0, Pow2(w)), []);
  }

  lemma InputsNext<T(!new)>(g: Group<T>, ds: seq<seq<int>>, skews: seq<int>, ps: seq<T>, w: nat, size: nat, total: T,
                            d: seq<int>, skew: int, p: T, k: int)
    requires Abelian(g) && CoversInputs(g, ds, skews, ps, w, size, total)
    requires |d| == size && FixedDigits(d, Pow2(w)) && (skew == 0 || skew == 1) && Weighted(d, 0, Pow2(w)) - skew == k
    ensures CoversInputs(g, ds + [d], skews + [skew], ps + [p], w, size, g.add(total, Times(g, k, p)))
  {
    hide Abelian, Times, LinComb, Weighted, FixedDigits, Pow2;
    LinCombAppend(g, Recoded(ds, skews, 0, Pow2(w)), ps, k, p, 0);
    assert Recoded(ds + [d], skews + [skew], 0, Pow2(w)) == Recoded(ds, skews, 0, Pow2(w)) + [k];
  }

  lemma InputsParts<T(!new)>(g: Group<T>, ds: seq<seq<int>>, skews: seq<int>, ps: seq<T>, w: nat, size: nat, total: T)
    requires CoversInputs(g, ds, skews, ps, w, size, total)
    ensures ValidEntries(ds, skews, ps, w, size) && |ds| == |skews| == |ps|
    ensures LinComb(g, Recoded(ds, skews, 0, Pow2(w)), ps, 0) == total
  {
  }

  lemma LowBitsOfShort(v: nat)
    requires v < TWO128
    ensures v % Pow2(WNAF_BITS) == v
  {
    Shifts.WeightIsPow2(2);
    LimbWeights();
    DivModUnique(v, 0, v, Pow2(128));
  }

  /** The sum of sc[i] * pt[i], for scalars of at most 128 bits. */
  method PippengerWnaf<T(!new, ==)>(c: Curve<T>, bucketWindow: nat, sc: seq<Scalar>, pt: seq<T>) returns (r: T)
    requires ValidCurve(c) && 0 < bucketWindow < 30 && |sc| == |pt|
    requires forall k :: 0 <= k < |sc| ==> sc[k].Val() < TWO128
    ensures r == LinComb(c.group, Values(sc), pt, 0)
  {
    hide ValidCurve, Abelian, Times, LinComb, ValidEntries, CoversInputs, Pow2, FixedDigits, Weighted, Scalar.Val, Values,
         WnafSizeBits, Recoded;
    CurveGroup(c);
    ghost var g, vs := c.group, Values(sc);
    var w := bucketWindow + 1;
    var size := WnafSizeBits(WNAF_BITS, w);
    WholeRange(0, size, w);
    var ds: seq<seq<int>>, skews: seq<int>, inputPos: seq<nat> := [], [], [];
    ghost var ps: seq<T> := [];
    InputsNone(g, w, size);
    LinCombNone(g, vs[..0], pt[..0]);
    for np := 0 to |pt|
      invariant |inputPos| == |ps| && forall k :: 0 <= k < |ps| ==> inputPos[k] < |pt| && ps[k] == pt[inputPos[k]]
      invariant CoversInputs(g, ds, skews, ps, w, size, LinComb(g, vs[..np], pt[..np], 0))
    {
      PrefixNext(g, vs, pt, np);
      ValuesAt(sc, np);
      if IsZero(sc[np]) || pt[np] == c.group.zero { continue; }
      var wnaf := new int[size];
      LowBitsOfShort(sc[np].Val());
      var skew := WnafFixed(wnaf, sc[np], w);
      InputsNext(g, ds, skews, ps, w, size, LinComb(g, vs[..np], pt[..np], 0), wnaf[..], skew, pt[np], vs[np]);
      ds, skews, inputPos := ds + [wnaf[..]], skews + [skew], inputPos + [np];
      ps := ps + [pt[np]];
    }
    TakeAll(vs);
    TakeAll(pt);
    InputsParts(g, ds, skews, ps, w, size, LinComb(g, vs, pt, 0));
    if inputPos == [] {
      assert |ps| == 0;
      RecodedNone(ds, skews, Pow2(w));
      LinCombNone(g, Recoded(ds, skews, 0, Pow2(w)), ps);
      return c.group.zero;
    }
    var points := seq(|inputPos|, k requires 0 <= k < |inputPos| && inputPos[k] < |pt| => pt[inputPos[k]]);
    assert ps == points;
    r := SumWindows(c, ds, skews, points, bucketWindow, size);
  }

  lemma RecodedNone(ds: seq<seq<int>>, skews: seq<int>, b: nat)
    requires |ds| == |skews| == 0
    ensures Recoded(ds, skews, 0, b) == []
  {
  }
}
