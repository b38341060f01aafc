/** Multi-scalar multiplication for any number of points: one by one, or in batches by Strauss's
    or Pippenger's method, as the scratch space allows. */
module MultiScalar {
  import opened Arith
  import opened Wrappers
  import opened Groups
  import opened Scalars
  import opened Ecmult
  import opened Pippenger
  import opened Scratch

  const ECMULT_PIPPENGER_THRESHOLD: nat := 88
  const ECMULT_MAX_POINTS_PER_BATCH: size_t := 5000000

  /** The callback: the scalar and point at an index, or a failure. */
  type Callback<!T> = nat -> Option<(Scalar, T)>

  ghost predicate ReducedInputs<T>(cb: Callback<T>)
  {
    forall i: nat :: cb(i).Some? ==> cb(i).value.0.Reduced()
  }

  /** The callback succeeds on lo .. hi-1. */
  ghost predicate AllGiven<T>(cb: Callback<T>, lo: nat, hi: nat)
  {
    forall i: nat :: lo <= i < hi ==> cb(i).Some?
  }

  function Term<T>(g: Group<T>, cb: Callback<T>, i: nat): T
  {
    match cb(i)
    case None => g.zero
    case Some((k, p)) => Times(g, k.Val(), p)
  }

  /** The sum of the inputs lo .. hi-1. */
  function RangeSum<T>(g: Group<T>, cb: Callback<T>, lo: nat, hi: nat): T
  {
    if hi <= lo then g.zero else g.add(RangeSum(g, cb, lo, hi - 1), Term(g, cb, hi - 1))
  }

  lemma {:induction false} RangeSplit<T(!new)>(g: Group<T>, cb: Callback<T>, lo: nat, mid: nat, hi: nat)
    requires Abelian(g) && lo <= mid <= hi
    ensures RangeSum(g, cb, lo, hi) == g.add(RangeSum(g, cb, lo, mid), RangeSum(g, cb, mid, hi))
  {
    hide Abelian, Term;
    if mid == hi {
      Zero(g, RangeSum(g, cb, lo, mid));
    } else {
      RangeSplit(g, cb, lo, mid, hi - 1);
      Assoc(g, RangeSum(g, cb, lo, mid), RangeSum(g, cb, mid, hi - 1), Term(g, cb, hi - 1));
    }
  }

  lemma RangeNext<T>(g: Group<T>, cb: Callback<T>, lo: nat, hi: nat)
    requires lo <= hi
    ensures RangeSum(g, cb, lo, hi + 1) == g.add(RangeSum(g, cb, lo, hi), Term(g, cb, hi))
    ensures RangeSum(g, cb, lo, lo) == g.zero
  {
  }

  lemma RangeSumMeans<T>(g: Group<T>, cb: Callback<T>, lo: nat, hi: nat)
    requires lo <= hi && cb(hi).Some?
    ensures RangeSum(g, cb, lo, hi + 1) == g.add(RangeSum(g, cb, lo, hi), Times(g, cb(hi).value.0.Val(), cb(hi).value.1))
  {
    hide Times, Scalar.Val;
  }

  lemma GivenMeans<T>(cb: Callback<T>, lo: nat, hi: nat)
    ensures AllGiven(cb, lo, hi) <==> forall i: nat :: lo <= i < hi ==> cb(i).Some?
  {
  }

  lemma GivenNext<T>(cb: Callback<T>, lo: nat, hi: nat)
    requires AllGiven(cb, lo, hi)
    ensures AllGiven(cb, lo, hi + 1) <==> hi < lo || cb(hi).Some?
  {
  }

  /** A missing input spoils every range around it. */
  lemma NotGiven<T>(cb: Callback<T>, lo: nat, i: nat, hi: nat)
    requires lo <= i < hi && cb(i).None?
    ensures !AllGiven(cb, lo, hi)
  {
  }

  lemma GivenSplit<T>(cb: Callback<T>, lo: nat, mid: nat, hi: nat)
    requires lo <= mid <= hi
    ensures AllGiven(cb, lo, hi) <==> AllGiven(cb, lo, mid) && AllGiven(cb, mid, hi)
  {
  }

  /** Multiply and add each point in turn. */
  method MultiSimple<T(!new, ==)>(c: Curve<T>, inp: Option<Scalar>, cb: Callback<T>, n: size_t) returns (ok: bool, r: T)
    requires ValidCurve(c) && (inp.Some? ==> inp.value.Reduced()) && ReducedInputs(cb)
    ensures ok <==> AllGiven(cb, 0, n)
    ensures ok ==> r == c.group.add(RangeSum(c.group, cb, 0, n), Times(c.group, ValueOf(inp), c.base))
  {
    hide ValidCurve, Abelian, Times, Scalar.Val, AllGiven, RangeSum, ValueOf;
    CurveGroup(c);
    ghost var g, baseTerm := c.group, Times(c.group, ValueOf(inp), c.base);
    assert ZERO.Val() == 0 by { ZeroScalar(); }
    r := SingleMultiple(c, c.group.zero, ZERO, inp);
    TimesZero(g, 0);
    Zero(g, baseTerm);
    RangeNext(g, cb, 0, 0);
    NoneGiven(cb, 0);
    for i := 0 to n
      invariant AllGiven(cb, 0, i) && r == g.add(RangeSum(g, cb, 0, i), baseTerm)
    {
      if cb(i).None? {
        NotGiven(cb, 0, i, n);
        return false, r;
      }
      var (scalar, point) := cb(i).value;
      var tmp := SingleMultiple(c, point, scalar, None);
      NoBase(g, c.base);
      Zero(g, tmp);
      Zero(g, Times(g, scalar.Val(), point));
      RangeNext(g, cb, 0, i);
      GivenNext(cb, 0, i);
      AddLast(g, RangeSum(g, cb, 0, i), baseTerm, tmp);
      r := c.group.add(r, tmp);
    }
    ok := true;
  }

  lemma ZeroScalar()
    ensures ZERO.Val() == 0
  {
  }

  lemma NoneGiven<T>(cb: Callback<T>, i: nat)
    ensures AllGiven(cb, i, i)
  {
  }

  lemma NoBase<T(!new)>(g: Group<T>, p: T)
    ensures Times(g, ValueOf(None), p) == g.zero
  {
  }

  /** (a + b) + t = (a + t) + b. */
  lemma AddLast<T(!new)>(g: Group<T>, a: T, b: T, t: T)
    requires Abelian(g)
    ensures g.add(g.add(a, b), t) == g.add(g.add(a, t), b)
  {
    hide Abelian;
    Assoc(g, a, b, t);
    Comm(g, b, t);
    Assoc(g, a, t, b);
  }

  /** Division rounded up. */
  function CeilDiv(n: nat, d: nat): (q: nat)
    requires n > 0 && d > 0
    ensures q >= 1 && q * d >= n && (q - 1) * d < n
  {
    CeilingBounds(n, d);
    1 + (n - 1) / d
  }

  /** Batches as equal as possible, of at most the given size, that together hold n points. */
  method BatchSizeHelper(maxPoints0: size_t, n: size_t) returns (ok: bool, batches: nat, points: nat)
    ensures ok <==> maxPoints0 != 0
    ensures ok && n > 0 ==> 1 <= points <= maxPoints0 && points <= 5000000 && batches * points >= n
    ensures ok && n > 0 ==> (batches - 1) * Min(maxPoints0, 5000000) < n && batches * (points - 1) < n
    ensures ok && n > 0 ==> batches == CeilDiv(n, Min(maxPoints0, 5000000)) && points == CeilDiv(n, batches)
    ensures ok && n == 0 ==> batches == 0 && points == 0
  {
    var maxPoints := maxPoints0;
    if maxPoints == 0 { return false, 0, 0; }
    if maxPoints > ECMULT_MAX_POINTS_PER_BATCH { maxPoints := ECMULT_MAX_POINTS_PER_BATCH; }
    if n == 0 { return true, 0, 0; }
    CeilingBounds(n, maxPoints);
    batches := 1 + (n - 1) / maxPoints;
    CeilingBounds(n, batches);
    points := 1 + (n - 1) / batches;
    CeilingLeast(n, batches, points, maxPoints);
    ok := true;
  }

  /** 1 + (n-1)/d is the least multiplier of d that reaches n. */
  lemma CeilingBounds(n: nat, d: nat)
    requires n > 0 && d > 0
    ensures var q := 1 + (n - 1) / d; q >= 1 && q * d >= n && (q - 1) * d < n
  {
    var h := (n - 1) / d;
    assert n - 1 == h * d + (n - 1) % d;
    assert (1 + h) * d == h * d + d;
    if h < 0 { MulMono(h, -1, d); }
  }

  lemma CeilingLeast(n: nat, b: nat, points: nat, m: nat)
    requires b * m >= n && points >= 1 && (points - 1) * b < n && b > 0
    ensures points <= m
  {
    if points > m { MulMono(m, points - 1, b); }
  }

  // ----- batches -----

  /** Every piece can be asked for in size_t. */
  predicate InSizeT(sizes: seq<nat>)
  {
    forall k :: 0 <= k < |sizes| ==> sizes[k] <= SIZE_MAX
  }

  lemma {:induction false} FitInSizeT(sizes: seq<nat>, room: nat)
    requires TotalRounded(sizes) <= room <= SIZE_MAX
    ensures InSizeT(sizes)
  {
    if sizes != [] {
      FitInSizeT(sizes[1..], room);
      forall k | 0 <= k < |sizes| ensures sizes[k] <= SIZE_MAX {
        if k > 0 { assert sizes[1..][k - 1] == sizes[k]; }
      }
    }
  }

  /** Allocate pieces one after another, going on after a failure: all succeed exactly when
      their rounded sizes fit together. */
  method AllocAll(scratch: ScratchSpace, sizes: seq<nat>) returns (ok: bool)
    requires scratch.Valid() && InSizeT(sizes)
    modifies scratch
    ensures scratch.Valid() && scratch.allocSize >= old(scratch.allocSize)
    ensures ok <==> TotalRounded(sizes) <= old(scratch.Room())
    ensures ok ==> scratch.allocSize == old(scratch.allocSize) + TotalRounded(sizes)
    decreases |sizes|
  {
    ok := true;
    if sizes != [] {
      ok := scratch.Alloc(sizes[0]);
      var rest := AllocAll(scratch, sizes[1..]);
      ok := ok && rest;
    }
  }

  /** The inputs collected so far, as two parallel lists. */
  ghost predicate Collected<T(!new)>(g: Group<T>, cb: Callback<T>, offset: nat, i: nat, scalars: seq<Scalar>, points: seq<T>,
                                     total: T)
  {
    && AllGiven(cb, offset, offset + i) && |scalars| == |points|
    && (forall k :: 0 <= k < |scalars| ==> scalars[k].Reduced())
    && LinComb(g, Values(scalars), points, 0) == total
  }

  lemma CollectedNone<T(!new)>(g: Group<T>, cb: Callback<T>, offset: nat)
    ensures Collected(g, cb, offset, 0, [], [], g.zero)
  {
    LinCombNone(g, Values([]), []);
  }

  lemma AppendInput<T(!new)>(g: Group<T>, scalars: seq<Scalar>, points: seq<T>, s: Scalar, p: T)
    requires Abelian(g) && |scalars| == |points|
    ensures LinComb(g, Values(scalars + [s]), points + [p], 0)
         == g.add(LinComb(g, Values(scalars), points, 0), Times(g, s.Val(), p))
  {
    hide Abelian, LinComb, Times;
    LinCombAppend(g, Values(scalars), points, s.Val(), p, 0);
    assert Values(scalars + [s]) == Values(scalars) + [s.Val()];
  }

  lemma CollectedNext<T(!new)>(g: Group<T>, cb: Callback<T>, offset: nat, i: nat, scalars: seq<Scalar>, points: seq<T>)
    requires Abelian(g) && ReducedInputs(cb) && cb(offset + i).Some?
    requires Collected(g, cb, offset, i, scalars, points, RangeSum(g, cb, offset, offset + i))
    ensures Collected(g, cb, offset, i + 1, scalars + [cb(offset + i).value.0], points + [cb(offset + i).value.1],
                      RangeSum(g, cb, offset, offset + i + 1))
  {
    hide Abelian, LinComb, Times;
    var (s, p) := cb(offset + i).value;
    AppendInput(g, scalars, points, s, p);
    RangeNext(g, cb, offset, offset + i);
  }

  lemma CollectedParts<T(!new)>(g: Group<T>, cb: Callback<T>, offset: nat, i: nat, scalars: seq<Scalar>, points: seq<T>, total: T)
    requires Collected(g, cb, offset, i, scalars, points, total)
    ensures AllGiven(cb, offset, offset + i) && |scalars| == |points|
    ensures forall k :: 0 <= k < |scalars| ==> scalars[k].Reduced()
    ensures LinComb(g, Values(scalars), points, 0) == total
  {
  }

  /** One batch by Strauss's method. It fails exactly when the memory or the callback does. */
  method StraussBatch<T(!new, ==)>(c: Curve<T>, scratch: ScratchSpace, z: Sizes, inp: Option<Scalar>, cb: Callback<T>,
                                   n: size_t, offset: nat) returns (ok: bool, r: T)
    requires ValidCurve(c) && (inp.Some? ==> inp.value.Reduced()) && ReducedInputs(cb)
    requires scratch.Valid() && z.Valid() && InSizeT(StraussPieces(z, n))
    modifies scratch
    ensures scratch.Valid() && scratch.allocSize == old(scratch.allocSize)
    ensures ok <==> (StraussFits(z, n, old(scratch.Room())) || (inp.None? && n == 0)) && AllGiven(cb, offset, offset + n)
    ensures ok ==> r == c.group.add(RangeSum(c.group, cb, offset, offset + n), Times(c.group, ValueOf(inp), c.base))
  {
    hide ValidCurve, Abelian, Times, LinComb, Scalar.Val, Values, AllGiven, RangeSum, Collected, ReducedInputs, TotalRounded, StraussPieces;
    CurveGroup(c);
    ghost var g := c.group;
    r := c.group.zero;
    RangeNext(g, cb, offset, offset);
    if inp.None? && n == 0 {
      NoneGiven(cb, offset);
      NoBase(g, c.base);
      Zero(g, r);
      return true, r;
    }
    var checkpoint := scratch.Checkpoint();
    var granted := AllocAll(scratch, StraussPieces(z, n));
    if !granted {
      scratch.ApplyCheckpoint(checkpoint);
      return false, r;
    }
    var scalars: seq<Scalar>, points: seq<T> := [], [];
    CollectedNone(g, cb, offset);
    for i := 0 to n
      invariant scratch.Valid() && scratch.allocSize >= checkpoint
      invariant Collected(g, cb, offset, i, scalars, points, RangeSum(g, cb, offset, offset + i))
    {
      if cb(offset + i).None? {
        NotGiven(cb, offset, offset + i, offset + n);
        scratch.ApplyCheckpoint(checkpoint);
        return false, r;
      }
      CollectedNext(g, cb, offset, i, scalars, points);
      scalars := scalars + [cb(offset + i).value.0];
      points := points + [cb(offset + i).value.1];
    }
    CollectedParts(g, cb, offset, n, scalars, points, RangeSum(g, cb, offset, offset + n));
    r := StraussWnaf(c, points, scalars, inp);
    scratch.ApplyCheckpoint(checkpoint);
    ok := true;
  }

  /** Short scalars and points, two for each input. */
  ghost predicate CollectedShort<T(!new)>(g: Group<T>, scalars: seq<Scalar>, points: seq<T>, total: T)
  {
    && |scalars| == |points|
    && (forall k :: 0 <= k < |scalars| ==> scalars[k].Val() < TWO128)
    && LinComb(g, Values(scalars), points, 0) == total
  }

  lemma ShortNone<T(!new)>(g: Group<T>)
    ensures CollectedShort(g, [], [], g.zero)
  {
    LinCombNone(g, Values([]), []);
  }

  lemma ShortPair<T(!new)>(g: Group<T>, scalars: seq<Scalar>, points: seq<T>, total: T,
                           s1: Scalar, p1: T, s2: Scalar, p2: T, k: int, p: T)
    requires Abelian(g) && CollectedShort(g, scalars, points, total) && s1.Val() < TWO128 && s2.Val() < TWO128
    requires g.add(Times(g, s1.Val(), p1), Times(g, s2.Val(), p2)) == Times(g, k, p)
    ensures CollectedShort(g, scalars + [s1] + [s2], points + [p1] + [p2], g.add(total, Times(g, k, p)))
  {
    hide Abelian, LinComb, Times, Scalar.Val;
    AppendInput(g, scalars, points, s1, p1);
    AppendInput(g, scalars + [s1], points + [p1], s2, p2);
    Assoc(g, total, Times(g, s1.Val(), p1), Times(g, s2.Val(), p2));
  }

  lemma ShortParts<T(!new)>(g: Group<T>, scalars: seq<Scalar>, points: seq<T>, total: T)
    requires CollectedShort(g, scalars, points, total)
    ensures |scalars| == |points| && forall k :: 0 <= k < |scalars| ==> scalars[k].Val() < TWO128
    ensures LinComb(g, Values(scalars), points, 0) == total
  {
  }

  /** Split an input and append both halves. */
  method AppendSplit<T(!new)>(c: Curve<T>, scalars0: seq<Scalar>, points0: seq<T>, s: Scalar, p: T, ghost total: T)
    returns (scalars: seq<Scalar>, points: seq<T>)
    requires ValidCurve(c) && s.Reduced() && CollectedShort(c.group, scalars0, points0, total)
    ensures CollectedShort(c.group, scalars, points, c.group.add(total, Times(c.group, s.Val(), p)))
  {
    hide ValidCurve, Abelian, Times, Scalar.Val, CollectedShort;
    CurveGroup(c);
    var s1, p1, s2, p2 := EndoSplit(c, s, p);
    ShortPair(c.group, scalars0, points0, total, s1, p1, s2, p2, s.Val(), p);
    scalars, points := scalars0 + [s1] + [s2], points0 + [p1] + [p2];
  }

  /** One batch by Pippenger's method. It fails exactly when the memory or the callback does. */
  method PippengerBatch<T(!new, ==)>(c: Curve<T>, scratch: ScratchSpace, z: Sizes, inp: Option<Scalar>, cb: Callback<T>,
                                     n: size_t, offset: nat) returns (ok: bool, r: T)
    requires ValidCurve(c) && (inp.Some? ==> inp.value.Reduced()) && ReducedInputs(cb)
    requires scratch.Valid() && z.Valid() && InSizeT(PippengerPieces(z, n))
    modifies scratch
    ensures scratch.Valid() && scratch.allocSize == old(scratch.allocSize)
    ensures ok <==> (PippengerFits(z, n, old(scratch.Room())) || (inp.None? && n == 0)) && AllGiven(cb, offset, offset + n)
    ensures ok ==> r == c.group.add(RangeSum(c.group, cb, offset, offset + n), Times(c.group, ValueOf(inp), c.base))
  {
    hide ValidCurve, Abelian, Times, LinComb, Scalar.Val, Values, AllGiven, RangeSum, ReducedInputs, TotalRounded, CollectedShort,
         BucketWindow, PippengerPieces;
    CurveGroup(c);
    ghost var g := c.group;
    r := c.group.zero;
    RangeNext(g, cb, offset, offset);
    NoneGiven(cb, offset);
    NoBase(g, c.base);
    Zero(g, r);
    if inp.None? && n == 0 {
      return true, r;
    }
    var bucketWindow := BucketWindow(n);
    var checkpoint := scratch.Checkpoint();
    var granted := AllocAll(scratch, PippengerPieces(z, n));
    if !granted {
      scratch.ApplyCheckpoint(checkpoint);
      return false, r;
    }
    var scalars, points;
    ok, scalars, points := CollectSplit(c, inp, cb, n, offset);
    if !ok {
      scratch.ApplyCheckpoint(checkpoint);
      return;
    }
    ShortParts(g, scalars, points, g.add(RangeSum(g, cb, offset, offset + n), Times(g, ValueOf(inp), c.base)));
    r := PippengerWnaf(c, bucketWindow, scalars, points);
    scratch.ApplyCheckpoint(checkpoint);
  }

  /** All inputs of a batch, split; it fails exactly when the callback does. */
  method CollectSplit<T(!new, ==)>(c: Curve<T>, inp: Option<Scalar>, cb: Callback<T>, n: size_t, offset: nat)
    returns (ok: bool, scalars: seq<Scalar>, points: seq<T>)
    requires ValidCurve(c) && (inp.Some? ==> inp.value.Reduced()) && ReducedInputs(cb)
    ensures ok <==> AllGiven(cb, offset, offset + n)
    ensures ok ==> CollectedShort(c.group, scalars, points,
                                  c.group.add(RangeSum(c.group, cb, offset, offset + n), Times(c.group, ValueOf(inp), c.base)))
  {
    hide ValidCurve, Abelian, Times, LinComb, Scalar.Val, Values, AllGiven, RangeSum, ReducedInputs, CollectedShort;
    CurveGroup(c);
    ghost var g := c.group;
    RangeNext(g, cb, offset, offset);
    NoneGiven(cb, offset);
    NoBase(g, c.base);
    scalars, points := [], [];
    ghost var baseTerm := Times(g, ValueOf(inp), c.base);
    ShortNone(g);
    Zero(g, g.zero);
    Zero(g, baseTerm);
    if inp.Some? {
      scalars, points := AppendSplit(c, scalars, points, inp.value, c.base, g.zero);
    }
    var i := 0;
    while i < n
      invariant i <= n && AllGiven(cb, offset, offset + i)
      invariant CollectedShort(g, scalars, points, g.add(RangeSum(g, cb, offset, offset + i), baseTerm))
    {
      if cb(offset + i).None? {
        NotGiven(cb, offset, offset + i, offset + n);
        return false, scalars, points;
      }
      InputReduced(cb, offset + i);
      var (s, p) := cb(offset + i).value;
      scalars, points := AppendSplit(c, scalars, points, s, p, g.add(RangeSum(g, cb, offset, offset + i), baseTerm));
      AddLast(g, RangeSum(g, cb, offset, offset + i), baseTerm, Times(g, s.Val(), p));
      RangeNext(g, cb, offset, offset + i);
      GivenNext(cb, offset, offset + i);
      i := i + 1;
    }
    ok := true;
  }

  lemma InputReduced<T>(cb: Callback<T>, i: nat)
    requires ReducedInputs(cb) && cb(i).Some?
    ensures cb(i).value.0.Reduced()
  {
  }

  // ----- the choice of method -----

  datatype Method = SimpleMethod | Strauss | Pippengers

  /** All batches of the chosen method fit. */
  ghost predicate MethodFits(z: Sizes, m: Method, points: nat, room: nat)
    requires z.Valid()
  {
    && (m == Pippengers ==> forall k: size_t :: k <= points ==> PippengerFits(z, k, room))
    && (m == Strauss ==> forall k: size_t :: k <= points ==> StraussFits(z, k, room))
  }

  /** The size of the batches for n points when one batch holds at most `max`. */
  function BatchPoints(max: size_t, n: size_t): (points: nat)
    requires max > 0 && n > 0
    ensures points == CeilDiv(n, CeilDiv(n, Min(max, 5000000)))
  {
    CeilDiv(n, CeilDiv(n, Min(max, ECMULT_MAX_POINTS_PER_BATCH)))
  }

  /** Batch sizes for the given scratch space, and the method they are for: every batch of that
      many points or fewer fits. Pippenger's method is for batches of 88 points and more; both
      need room for at least one point, by the estimates pippengerMax and straussMax. */
  method ChooseMethod(scratch: ScratchSpace, z: Sizes, n: size_t)
    returns (m: Method, batches: nat, points: nat, ghost pippengerMax: size_t, ghost straussMax: size_t)
    requires scratch.Valid() && z.Valid() && n > 0
    ensures m != SimpleMethod ==> points >= 1 && batches * points >= n && batches * (points - 1) < n
    ensures MethodFits(z, m, points, scratch.Room())
    ensures forall k: size_t :: k > 0 ==> (k <= pippengerMax <==> AllFit(z, k, AfterRounding(scratch.Room(), 6)))
    ensures pippengerMax > 0 && m != Pippengers ==>
              forall k: size_t :: k <= straussMax <==> Bytes(k, StraussPointSize(z)) <= AfterRounding(scratch.Room(), 5)
    ensures m == Pippengers <==> pippengerMax > 0 && BatchPoints(pippengerMax, n) >= 88
    ensures m == Strauss <==> pippengerMax > 0 && BatchPoints(pippengerMax, n) < 88 && straussMax > 0
    ensures m == Pippengers ==> points == BatchPoints(pippengerMax, n)
    ensures m == Strauss ==> points == BatchPoints(straussMax, n)
  {
    hide PippengerFits, StraussFits, AllFit, CeilDiv;
    var maxPoints := PippengerMaxPoints(scratch, z);
    pippengerMax, straussMax := maxPoints, 0;
    var ok;
    ok, batches, points := BatchSizeHelper(maxPoints, n);
    if !ok { return SimpleMethod, batches, points, pippengerMax, straussMax; }
    if points >= ECMULT_PIPPENGER_THRESHOLD { return Pippengers, batches, points, pippengerMax, straussMax; }
    maxPoints := StraussMaxPoints(scratch, z);
    straussMax := maxPoints;
    ok, batches, points := BatchSizeHelper(maxPoints, n);
    if !ok { return SimpleMethod, batches, points, pippengerMax, straussMax; }
    StraussNone(scratch, z);
    m := Strauss;
  }

  lemma StraussNone(scratch: ScratchSpace, z: Sizes)
    requires scratch.Valid() && z.Valid()
    ensures StraussFits(z, 0, scratch.Room())
  {
    StraussTotal(z, 0);
    assert Rounded(0) == 0;
    ZeroPieces(StraussPieces(z, 0));
  }

  lemma {:induction false} ZeroPieces(sizes: seq<nat>)
    requires forall k :: 0 <= k < |sizes| ==> sizes[k] == 0
    ensures TotalRounded(sizes) == 0
  {
    if sizes != [] { ZeroPieces(sizes[1..]); }
  }

  /** What the batches so far have done: `done` points, and the generator's term with the first. */
  ghost predicate BatchesDone<T(!new)>(g: Group<T>, cb: Callback<T>, baseTerm: T, i: nat, points: nat, n: nat, left: nat, r: T)
  {
    && left <= n && n - left == (if i * points < n then i * points else n)
    && AllGiven(cb, 0, n - left)
    && r == g.add(RangeSum(g, cb, 0, n - left), if i == 0 then g.zero else baseTerm)
  }

  lemma BatchesStart<T(!new)>(g: Group<T>, cb: Callback<T>, baseTerm: T, points: nat, n: nat)
    requires Abelian(g)
    ensures BatchesDone(g, cb, baseTerm, 0, points, n, n, g.zero)
  {
    assert 0 * points == 0;
    Zero(g, g.zero);
  }

  /** The next batch covers the next points and nothing else. */
  lemma NextBatch<T(!new)>(g: Group<T>, cb: Callback<T>, baseTerm: T, i: nat, points: nat, n: nat, left: nat, r: T,
                           nbp: nat, tmp: T)
    requires Abelian(g) && BatchesDone(g, cb, baseTerm, i, points, n, left, r)
    requires nbp == (if left < points then left else points)
    requires AllGiven(cb, i * points, i * points + nbp)
    requires tmp == g.add(RangeSum(g, cb, i * points, i * points + nbp), if i == 0 then baseTerm else g.zero)
    ensures BatchesDone(g, cb, baseTerm, i + 1, points, n, left - nbp, g.add(r, tmp))
  {
    hide Abelian, AllGiven;
    var done, o := n - left, i * points;
    assert (i + 1) * points == o + points;
    if nbp == 0 {
      RangeNext(g, cb, o, o);
      RangeNext(g, cb, done, done);
      NoneGiven(cb, done);
    } else {
      assert done == o;
    }
    RangeSplit(g, cb, 0, done, done + nbp);
    GivenSplit(cb, 0, done, done + nbp);
    JoinBatch(g, RangeSum(g, cb, 0, done), if i == 0 then g.zero else baseTerm,
              RangeSum(g, cb, done, done + nbp), if i == 0 then baseTerm else g.zero);
    Zero(g, baseTerm);
  }

  lemma JoinBatch<T(!new)>(g: Group<T>, a: T, b: T, a': T, b': T)
    requires Abelian(g)
    ensures g.add(g.add(a, b), g.add(a', b')) == g.add(g.add(a, a'), g.add(b, b'))
  {
    Swap4(g, a, b, a', b');
  }

  /** One batch by the chosen method. */
  method RunBatch<T(!new, ==)>(c: Curve<T>, scratch: ScratchSpace, z: Sizes, m: Method, inp: Option<Scalar>, cb: Callback<T>,
                               n: size_t, offset: nat) returns (ok: bool, r: T)
    requires ValidCurve(c) && (inp.Some? ==> inp.value.Reduced()) && ReducedInputs(cb)
    requires scratch.Valid() && z.Valid() && m != SimpleMethod
    requires m == Pippengers ==> PippengerFits(z, n, scratch.Room())
    requires m == Strauss ==> StraussFits(z, n, scratch.Room())
    modifies scratch
    ensures scratch.Valid() && scratch.allocSize == old(scratch.allocSize)
    ensures ok <==> AllGiven(cb, offset, offset + n)
    ensures ok ==> r == c.group.add(RangeSum(c.group, cb, offset, offset + n), Times(c.group, ValueOf(inp), c.base))
  {
    hide ValidCurve, Times, AllGiven, RangeSum, ReducedInputs, TotalRounded, StraussPieces, PippengerPieces, InSizeT, ValueOf;
    if m == Pippengers {
      FitInSizeT(PippengerPieces(z, n), scratch.Room());
      ok, r := PippengerBatch(c, scratch, z, inp, cb, n, offset);
    } else {
      FitInSizeT(StraussPieces(z, n), scratch.Room());
      ok, r := StraussBatch(c, scratch, z, inp, cb, n, offset);
    }
  }

  /** The batch loop. */
  method MultiBatches<T(!new, ==)>(c: Curve<T>, scratch: ScratchSpace, z: Sizes, m: Method, inp: Option<Scalar>, cb: Callback<T>,
                                   n0: size_t, batches: nat, points: nat) returns (ok: bool, r: T)
    requires ValidCurve(c) && (inp.Some? ==> inp.value.Reduced()) && ReducedInputs(cb)
    requires scratch.Valid() && z.Valid() && m != SimpleMethod && MethodFits(z, m, points, scratch.Room())
    requires n0 > 0 && batches * points >= n0
    modifies scratch
    ensures scratch.Valid() && scratch.allocSize == old(scratch.allocSize)
    ensures ok <==> AllGiven(cb, 0, n0)
    ensures ok ==> r == c.group.add(RangeSum(c.group, cb, 0, n0), Times(c.group, ValueOf(inp), c.base))
  {
    hide ValidCurve, Abelian, Times, Scalar.Val, AllGiven, RangeSum, ReducedInputs, BatchesDone, PippengerFits, StraussFits, MethodFits, ValueOf;
    CurveGroup(c);
    ghost var g, baseTerm := c.group, Times(c.group, ValueOf(inp), c.base);
    NoBase(g, c.base);
    BatchesStart(g, cb, baseTerm, points, n0);
    r := c.group.zero;
    var n := n0;
    for i := 0 to batches
      invariant 0 <= n <= n0 && scratch.Valid() && scratch.allocSize == old(scratch.allocSize)
      invariant BatchesDone(g, cb, baseTerm, i, points, n0, n, r)
    {
      var nbp: size_t := if n < points then n else points;
      var offset := points * i;
      BatchInRange(i, points, n0, n, nbp, g, cb, baseTerm, r);
      OneFits(z, m, points, scratch.Room(), nbp);
      var given, tmp := RunBatch(c, scratch, z, m, if i == 0 then inp else None, cb, nbp, offset);
      if !given {
        MissingInput(cb, offset, nbp, n0);
        return false, r;
      }
      NextBatch(g, cb, baseTerm, i, points, n0, n, r, nbp, tmp);
      r := c.group.add(r, tmp);
      n := n - nbp;
    }
    AllDone(g, cb, baseTerm, batches, points, n0, n, r);
    ok := true;
  }

  /** A batch that is not empty lies inside the inputs. */
  lemma BatchInRange<T(!new)>(i: nat, points: nat, n: nat, left: nat, nbp: nat, g: Group<T>, cb: Callback<T>, baseTerm: T, r: T)
    requires BatchesDone(g, cb, baseTerm, i, points, n, left, r)
    requires nbp == (if left < points then left else points)
    ensures points * i == i * points && (nbp > 0 ==> points * i + nbp <= n)
  {
  }

  lemma OneFits(z: Sizes, m: Method, points: nat, room: nat, k: size_t)
    requires z.Valid() && MethodFits(z, m, points, room) && k <= points
    ensures m == Pippengers ==> PippengerFits(z, k, room)
    ensures m == Strauss ==> StraussFits(z, k, room)
  {
  }

  lemma MissingInput<T>(cb: Callback<T>, offset: nat, k: nat, n: nat)
    requires !AllGiven(cb, offset, offset + k) && (k > 0 ==> offset + k <= n)
    ensures !AllGiven(cb, 0, n)
  {
    var i: nat :| offset <= i < offset + k && cb(i).None?;
    NotGiven(cb, 0, i, n);
  }

  lemma AllDone<T(!new)>(g: Group<T>, cb: Callback<T>, baseTerm: T, batches: nat, points: nat, n: nat, left: nat, r: T)
    requires BatchesDone(g, cb, baseTerm, batches, points, n, left, r) && n > 0 && batches * points >= n
    ensures AllGiven(cb, 0, n) && r == g.add(RangeSum(g, cb, 0, n), baseTerm)
  {
    assert 0 * points == 0;
  }

  /** The whole: for every number of points, with any scratch space or none, the result is the
      generator's multiple plus the sum of all inputs, each used exactly once; the only way to
      fail is a callback that does. */
  method MultiVar<T(!new, ==)>(c: Curve<T>, scratch: ScratchSpace?, z: Sizes, inp: Option<Scalar>, cb: Callback<T>, n: size_t)
    returns (ok: bool, r: T)
    requires ValidCurve(c) && (inp.Some? ==> inp.value.Reduced()) && ReducedInputs(cb)
    requires scratch != null ==> scratch.Valid() && z.Valid()
    modifies scratch
    ensures scratch != null ==> scratch.Valid() && scratch.allocSize == old(scratch.allocSize)
    ensures ok <==> forall i: nat :: i < n ==> cb(i).Some?
    ensures ok ==> r == c.group.add(RangeSum(c.group, cb, 0, n),
                                    Times(c.group, if inp.Some? then inp.value.Val() else 0, c.base))
  {
    hide ValidCurve, Abelian, Times, Scalar.Val, AllGiven, RangeSum, ReducedInputs, MethodFits, ValueOf, AllFit, CeilDiv;
    CurveGroup(c);
    ValueOfMeans(inp);
    GivenMeans(cb, 0, n);
    r := c.group.zero;
    RangeNext(c.group, cb, 0, 0);
    NoneGiven(cb, 0);
    NoBase(c.group, c.base);
    if n == 0 {
      Zero(c.group, r);
      ok := true;
      if inp.Some? {
        assert ZERO.Val() == 0 by { ZeroScalar(); }
        TimesZero(c.group, 0);
        r := SingleMultiple(c, r, ZERO, inp);
      }
      return;
    }
    if scratch == null {
      ok, r := MultiSimple(c, inp, cb, n);
      return;
    }
    var m, batches, points, _, _ := ChooseMethod(scratch, z, n);
    if m == SimpleMethod {
      ok, r := MultiSimple(c, inp, cb, n);
    } else {
      ok, r := MultiBatches(c, scratch, z, m, inp, cb, n, batches, points);
    }
  }
}
