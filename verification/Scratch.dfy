/** The scratch allocator: a bump pointer with checkpoints. */
module Scratch {
  import opened Arith
  import opened MachineInts
  import Wnaf

  const SIZE_MAX: uint64 := 0xFFFF_FFFF_FFFF_FFFF
  const ALIGNMENT: nat := 16

  type size_t = uint64

  /** Rounding up to the alignment in size_t arithmetic, which may wrap. */
  function RoundToAlign(size: size_t): size_t
  {
    (U64(size + ALIGNMENT - 1) / ALIGNMENT) * ALIGNMENT
  }

  /** Rounding up as it is meant. */
  function Rounded(size: nat): (r: nat)
    ensures size <= r <= size + ALIGNMENT - 1 && r % ALIGNMENT == 0
  {
    ((size + ALIGNMENT - 1) / ALIGNMENT) * ALIGNMENT
  }

  /** The wrap-around test tells exactly when the rounded size leaves size_t. */
  lemma RoundingDetected(size: size_t)
    ensures RoundToAlign(size) < size <==> size + ALIGNMENT - 1 > SIZE_MAX
    ensures RoundToAlign(size) >= size ==> RoundToAlign(size) == Rounded(size)
  {
  }

  class ScratchSpace {
    var allocSize: size_t
    const maxSize: size_t

    predicate Valid()
      reads this
    {
      allocSize <= maxSize
    }

    constructor (size: size_t)
      ensures Valid() && allocSize == 0 && maxSize == size
    {
      allocSize := 0;
      maxSize := size;
    }

    method Checkpoint() returns (checkpoint: size_t)
      ensures checkpoint == allocSize
    {
      checkpoint := allocSize;
    }

    /** Undo the allocations since the checkpoint; one that lies ahead is refused. */
    method ApplyCheckpoint(checkpoint: size_t)
      requires Valid()
      modifies this
      ensures Valid()
      ensures allocSize == (if checkpoint > old(allocSize) then old(allocSize) else checkpoint)
    {
      if checkpoint > allocSize {
        return;
      }
      allocSize := checkpoint;
    }

    /** Bytes not yet allocated. */
    function Room(): (r: size_t)
      requires Valid()
      reads this
      ensures r == maxSize - allocSize
    {
      maxSize - allocSize
    }

    /** What can be allocated in `objects` pieces, whatever their alignment costs. */
    function MaxAllocation(objects: size_t): (size: size_t)
      requires Valid()
      reads this
      ensures size > 0 ==> size + objects * (ALIGNMENT - 1) == maxSize - allocSize
      ensures size == 0 <==> objects * (ALIGNMENT - 1) >= maxSize - allocSize
    {
      if objects > SIZE_MAX / (ALIGNMENT - 1) then 0
      else if maxSize - allocSize <= objects * (ALIGNMENT - 1) then 0
      else maxSize - allocSize - objects * (ALIGNMENT - 1)
    }

    /** Room for `size` bytes, aligned: granted exactly when it fits. */
    method Alloc(size: size_t) returns (ok: bool)
      requires Valid()
      modifies this
      ensures Valid()
      ensures ok <==> Rounded(size) <= maxSize - old(allocSize)
      ensures allocSize == old(allocSize) + (if ok then Rounded(size) else 0)
    {
      RoundingDetected(size);
      var rounded := RoundToAlign(size);
      if rounded < size { return false; }
      if rounded > maxSize - allocSize { return false; }
      allocSize := allocSize + rounded;
      return true;
    }
  }

  /** The size of a run of allocations, each rounded up. */
  function TotalRounded(sizes: seq<nat>): nat
  {
    if sizes == [] then 0 else Rounded(sizes[0]) + TotalRounded(sizes[1..])
  }

  function Total(sizes: seq<nat>): nat
  {
    if sizes == [] then 0 else sizes[0] + Total(sizes[1..])
  }

  /** Rounding costs at most 15 bytes an object: this is what `MaxAllocation` sets aside. */
  lemma {:induction false} RoundingCost(sizes: seq<nat>)
    ensures Total(sizes) <= TotalRounded(sizes) <= Total(sizes) + |sizes| * (ALIGNMENT - 1)
  {
    if sizes != [] { RoundingCost(sizes[1..]); }
  }

  /** Pieces that add up to at most the promised size all fit. */
  lemma PiecesFit(scratch: ScratchSpace, sizes: seq<nat>)
    requires scratch.Valid() && |sizes| <= SIZE_MAX
    requires 0 < Total(sizes) <= scratch.MaxAllocation(|sizes|)
    ensures TotalRounded(sizes) <= scratch.Room()
  {
    RoundingCost(sizes);
  }

  /** What is left of so much room when rounding costs 15 bytes for each of some pieces. */
  function AfterRounding(room: nat, pieces: nat): (r: nat)
    ensures r > 0 ==> r + 15 * pieces == room
    ensures r == 0 <==> 15 * pieces >= room
  {
    if room > 15 * pieces then room - 15 * pieces else 0
  }

  // ----- capacity of the multi-scalar algorithms -----

  /** Sizes of the C objects, which depend on the platform. */
  datatype Sizes = Sizes(ge: nat, gej: nat, fe: nat, scalar: nat, pippengerPoint: nat, pippengerState: nat,
                         straussPoint: nat, word: nat)
  {
    predicate Valid()
    {
      && 0 < ge < 0x1_0000 && 0 < gej < 0x1_0000 && 0 < fe < 0x1_0000 && 0 < scalar < 0x1_0000
      && 0 < pippengerPoint < 0x1_0000 && 0 < pippengerState < 0x1_0000 && 0 < straussPoint < 0x1_0000 && 0 < word < 0x100
    }
  }

  const PIPPENGER_SCRATCH_OBJECTS: size_t := 6
  const STRAUSS_SCRATCH_OBJECTS: size_t := 5
  const PIPPENGER_MAX_BUCKET_WINDOW: nat := 12
  const TABLE_SIZE_A: nat := 8

  /** Digits per entry. */
  function WnafSize(w: nat): (n: nat)
    requires w > 0
    ensures n <= 128 && w * n >= 128 && w * (n - 1) < 128
  {
    WnafSizeBound(w);
    Wnaf.WnafSizeBits(Wnaf.WNAF_BITS, w)
  }

  lemma WnafSizeBound(w: nat)
    requires w > 0
    ensures Wnaf.WnafSizeBits(Wnaf.WNAF_BITS, w) <= 128
  {
    var n := Wnaf.WnafSizeBits(Wnaf.WNAF_BITS, w);
    if n > 128 { MulMono(1, w, n - 1); }
  }

  /** The best bucket window for n points. */
  function BucketWindow(n: size_t): (w: nat)
    ensures 1 <= w <= PIPPENGER_MAX_BUCKET_WINDOW && w != 8
  {
    if n <= 1 then 1 else if n <= 4 then 2 else if n <= 20 then 3 else if n <= 57 then 4 else if n <= 136 then 5
    else if n <= 235 then 6 else if n <= 1260 then 7 else if n <= 4420 then 9 else if n <= 7880 then 10
    else if n <= 16050 then 11 else PIPPENGER_MAX_BUCKET_WINDOW
  }

  /** Where the windows change. */
  lemma BucketWindowTable(n: size_t)
    ensures n < 2 ==> BucketWindow(n) == 1
    ensures 2 <= n < 5 ==> BucketWindow(n) == 2
    ensures 5 <= n < 21 ==> BucketWindow(n) == 3
    ensures 21 <= n < 58 ==> BucketWindow(n) == 4
    ensures 58 <= n < 137 ==> BucketWindow(n) == 5
    ensures 137 <= n < 236 ==> BucketWindow(n) == 6
    ensures 236 <= n < 1261 ==> BucketWindow(n) == 7
    ensures 1261 <= n < 4421 ==> BucketWindow(n) == 9
    ensures 4421 <= n < 7881 ==> BucketWindow(n) == 10
    ensures 7881 <= n < 16051 ==> BucketWindow(n) == 11
    ensures n >= 16051 ==> BucketWindow(n) == 12
  {
  }

  /** The largest number of points that a bucket window is best for. */
  function BucketWindowInv(w: nat): size_t
  {
    if w == 1 then 1 else if w == 2 then 4 else if w == 3 then 20 else if w == 4 then 57 else if w == 5 then 136
    else if w == 6 then 235 else if w == 7 then 1260 else if w == 8 then 1260 else if w == 9 then 4420
    else if w == 10 then 7880 else if w == 11 then 16050 else if w == PIPPENGER_MAX_BUCKET_WINDOW then SIZE_MAX else 0
  }

  /** A window serves exactly the numbers above the bound of the window below it, up to its own. */
  lemma BucketWindowInverse(n: size_t, w: nat)
    requires 1 <= w <= PIPPENGER_MAX_BUCKET_WINDOW
    ensures BucketWindow(n) <= w <==> n <= BucketWindowInv(w)
    ensures BucketWindowInv(BucketWindow(n)) >= n
    ensures BucketWindow(n) > 1 ==> BucketWindowInv(BucketWindow(n) - 1) < n
  {
  }

  /** Bytes for one more point: two entries, after the endomorphism split. */
  function EntrySize(z: Sizes, w: nat): (n: nat)
    requires z.Valid()
    ensures 0 < n < 0x10_0000
  {
    SmallProduct(WnafSize(w + 1) + 1, z.word, 129, 0x100);
    2 * (z.ge + z.scalar + z.pippengerPoint + (WnafSize(w + 1) + 1) * z.word)
  }

  lemma SmallProduct(a: nat, b: nat, c: nat, d: nat)
    requires a <= c && b <= d
    ensures 0 <= a * b <= c * d
  {
    MulMono(a, c, b);
    MulMono(b, d, c);
    MulMono(0, a, b);
  }

  /** Bytes that do not depend on the number of points. */
  function Overhead(z: Sizes, w: nat): (n: nat)
    requires z.Valid() && w <= PIPPENGER_MAX_BUCKET_WINDOW
    ensures 0 < n < 0x1_0000_0000
  {
    Pow2Mono(w, PIPPENGER_MAX_BUCKET_WINDOW);
    assert Pow2(12) == 0x1000;
    SmallProduct(z.gej, Pow2(w), 0x1_0000, 0x1000);
    z.gej * Pow2(w) + EntrySize(z, w) + z.pippengerState
  }

  /** n points with window w fit in `room` bytes. */
  ghost predicate Fits(z: Sizes, w: nat, n: nat, room: nat)
    requires z.Valid() && w <= PIPPENGER_MAX_BUCKET_WINDOW
  {
    Overhead(z, w) + n * EntrySize(z, w) <= room
  }

  /** In full: the buckets, the state, and two entries for each point and for the generator. */
  lemma FitsMeans(z: Sizes, w: nat, n: nat, room: nat)
    requires z.Valid() && w <= PIPPENGER_MAX_BUCKET_WINDOW
    ensures Fits(z, w, n, room) <==>
              z.gej * Pow2(w) + z.pippengerState
              + (n + 1) * (2 * (z.ge + z.scalar + z.pippengerPoint + (WnafSize(w + 1) + 1) * z.word)) <= room
  {
    hide Pow2, WnafSize;
    var e := 2 * (z.ge + z.scalar + z.pippengerPoint + (WnafSize(w + 1) + 1) * z.word);
    assert Overhead(z, w) == z.gej * Pow2(w) + e + z.pippengerState && EntrySize(z, w) == e;
    OneMore(n, e);
  }

  lemma OneMore(n: int, e: int)
    ensures (n + 1) * e == n * e + e
  {
  }

  lemma FitsFewer(z: Sizes, w: nat, n: nat, n': nat, room: nat)
    requires z.Valid() && w <= PIPPENGER_MAX_BUCKET_WINDOW && n' <= n && Fits(z, w, n, room)
    ensures Fits(z, w, n', room)
  {
    MulMono(n', n, EntrySize(z, w));
  }

  /** The six pieces that `pippenger_batch` allocates for n points, in order. */
  function PippengerPieces(z: Sizes, n: size_t): (pieces: seq<nat>)
    requires z.Valid()
    ensures |pieces| == 6
  {
    var (entries, w) := (2 * n + 2, BucketWindow(n));
    [Bytes(entries, z.ge), Bytes(entries, z.scalar), z.pippengerState, Bytes(entries, z.pippengerPoint),
     Bytes(Bytes(entries, WnafSize(w + 1)), z.word), Bytes(Pow2(w), z.gej)]
  }

  /** The size of an array. */
  function Bytes(count: nat, size: nat): nat
  {
    MulNat(count, size);
    count * size
  }

  lemma PiecesTotal(z: Sizes, n: size_t)
    requires z.Valid()
    ensures 0 < Total(PippengerPieces(z, n))
    ensures Total(PippengerPieces(z, n)) + Bytes(2 * n + 2, z.word)
         == Overhead(z, BucketWindow(n)) + n * EntrySize(z, BucketWindow(n))
  {
    var w, e := BucketWindow(n), 2 * n + 2;
    hide BucketWindow, WnafSize, Pow2, Total;
    var s, y, p := WnafSize(w + 1), z.word, Pow2(w);
    SumOfSix(Bytes(e, z.ge), Bytes(e, z.scalar), z.pippengerState, Bytes(e, z.pippengerPoint), Bytes(Bytes(e, s), y), Bytes(p, z.gej));
    PiecesBound(n, e, z.ge, z.scalar, z.pippengerPoint, s, y, z.pippengerState, p, z.gej);
  }

  lemma PiecesBound(n: nat, e: nat, a: nat, b: nat, c: nat, s: nat, y: nat, state: nat, p: nat, g: nat)
    requires e == 2 * n + 2 && state > 0
    ensures var total := Bytes(e, a) + Bytes(e, b) + state + Bytes(e, c) + Bytes(Bytes(e, s), y) + Bytes(p, g);
            var entry := 2 * (a + b + c + (s + 1) * y);
            0 < total && total + Bytes(e, y) == g * p + entry + state + n * entry
  {
    MulNat(e, y);
    EntriesAlgebra(n, a, b, c, s, y);
  }

  lemma EntriesAlgebra(n: nat, a: nat, b: nat, c: nat, s: nat, y: nat)
    ensures (2 * n + 2) * a + (2 * n + 2) * b + (2 * n + 2) * c + (2 * n + 2) * s * y + (2 * n + 2) * y
         == (n + 1) * (2 * (a + b + c + (s + 1) * y))
    ensures (n + 1) * (2 * (a + b + c + (s + 1) * y)) == n * (2 * (a + b + c + (s + 1) * y)) + 2 * (a + b + c + (s + 1) * y)
  {
    assert (2 * n + 2) * (s * y) == (2 * n + 2) * s * y;
    assert (s + 1) * y == s * y + y;
  }

  lemma SumOfSix(a: nat, b: nat, c: nat, d: nat, e: nat, f: nat)
    ensures Total([a, b, c, d, e, f]) == a + b + c + d + e + f
  {
    SumOfFive(b, c, d, e, f);
    assert [a, b, c, d, e, f][1..] == [b, c, d, e, f];
  }

  lemma SumOfFive(a: nat, b: nat, c: nat, d: nat, e: nat)
    ensures Total([a, b, c, d, e]) == a + b + c + d + e
  {
    var none: seq<nat> := [];
    assert Total(none) == 0;
    assert [e][1..] == none;
    assert Total([e]) == e;
    assert [d, e][1..] == [e];
    assert Total([d, e]) == d + e;
    assert [c, d, e][1..] == [d, e];
    assert Total([c, d, e]) == c + d + e;
    assert [b, c, d, e][1..] == [c, d, e];
    assert Total([b, c, d, e]) == b + c + d + e;
    assert [a, b, c, d, e][1..] == [b, c, d, e];
  }

  /** All six allocations of a batch of n points succeed with this much room. */
  ghost predicate PippengerFits(z: Sizes, n: size_t, room: nat)
    requires z.Valid()
  {
    TotalRounded(PippengerPieces(z, n)) <= room
  }

  /** In full. */
  lemma PippengerFitsMeans(z: Sizes, n: size_t, room: nat)
    requires z.Valid()
    ensures PippengerFits(z, n, room) <==>
              var (e, w) := (2 * n + 2, BucketWindow(n));
              Rounded(Bytes(e, z.ge)) + Rounded(Bytes(e, z.scalar)) + Rounded(z.pippengerState) + Rounded(Bytes(e, z.pippengerPoint))
              + Rounded(Bytes(Bytes(e, WnafSize(w + 1)), z.word)) + Rounded(Bytes(z.gej, Pow2(w))) <= room
  {
    var (e, w) := (2 * n + 2, BucketWindow(n));
    hide BucketWindow, WnafSize, Pow2, Rounded, TotalRounded;
    BytesCommute(Pow2(w), z.gej);
    RoundedSumOfSix(Bytes(e, z.ge), Bytes(e, z.scalar), z.pippengerState, Bytes(e, z.pippengerPoint),
                    Bytes(Bytes(e, WnafSize(w + 1)), z.word), Bytes(Pow2(w), z.gej));
  }

  lemma BytesCommute(x: nat, y: nat)
    ensures Bytes(x, y) == Bytes(y, x) == x * y
  {
  }

  lemma RoundedSumOfSix(a: nat, b: nat, c: nat, d: nat, e: nat, f: nat)
    ensures TotalRounded([a, b, c, d, e, f]) == Rounded(a) + Rounded(b) + Rounded(c) + Rounded(d) + Rounded(e) + Rounded(f)
  {
    hide Rounded;
    RoundedSumOfFive(b, c, d, e, f);
    assert [a, b, c, d, e, f][1..] == [b, c, d, e, f];
  }

  lemma RoundedSumOfFive(a: nat, b: nat, c: nat, d: nat, e: nat)
    ensures TotalRounded([a, b, c, d, e]) == Rounded(a) + Rounded(b) + Rounded(c) + Rounded(d) + Rounded(e)
  {
    hide Rounded;
    var none: seq<nat> := [];
    assert TotalRounded(none) == 0;
    assert [e][1..] == none;
    assert TotalRounded([e]) == Rounded(e);
    assert [d, e][1..] == [e];
    assert TotalRounded([d, e]) == Rounded(d) + Rounded(e);
    assert [c, d, e][1..] == [d, e];
    assert TotalRounded([c, d, e]) == Rounded(c) + Rounded(d) + Rounded(e);
    assert [b, c, d, e][1..] == [c, d, e];
    assert TotalRounded([b, c, d, e]) == Rounded(b) + Rounded(c) + Rounded(d) + Rounded(e);
    assert [a, b, c, d, e][1..] == [b, c, d, e];
  }

  lemma FitsImplies(scratch: ScratchSpace, z: Sizes, n: size_t)
    requires scratch.Valid() && z.Valid()
    requires Fits(z, BucketWindow(n), n, scratch.MaxAllocation(PIPPENGER_SCRATCH_OBJECTS))
    ensures PippengerFits(z, n, scratch.Room())
  {
    PiecesTotal(z, n);
    PiecesFit(scratch, PippengerPieces(z, n));
  }

  /** After the windows below w have been found to fit in full. */
  ghost predicate WindowsFit(z: Sizes, w: nat, room: nat)
    requires z.Valid() && w <= PIPPENGER_MAX_BUCKET_WINDOW + 1
  {
    forall v: nat :: 1 <= v < w ==> Fits(z, v, BucketWindowInv(v), room)
  }

  lemma PointsFit(z: Sizes, w: nat, res: size_t, room: nat, n: size_t)
    requires z.Valid() && 1 <= w <= PIPPENGER_MAX_BUCKET_WINDOW + 1 && WindowsFit(z, w, room)
    requires w <= PIPPENGER_MAX_BUCKET_WINDOW && res > (if w == 1 then 0 else BucketWindowInv(w - 1)) ==>
      Fits(z, w, res, room) && res <= BucketWindowInv(w)
    requires w > PIPPENGER_MAX_BUCKET_WINDOW ==> res <= BucketWindowInv(w - 1)
    requires n <= res && (n > 0 || w > 1 || res > 0)
    ensures Fits(z, BucketWindow(n), n, room)
  {
    var b := BucketWindow(n);
    BucketWindowInverse(n, b);
    if w > 1 { BucketWindowInverse(n, w - 1); }
    if b < w {
      FitsFewer(z, b, BucketWindowInv(b), n, room);
    } else {
      if w <= PIPPENGER_MAX_BUCKET_WINDOW { BucketWindowInverse(n, w); }
      FitsFewer(z, w, res, n, room);
    }
  }

  /** The accounting behind the result: n points fit with their own window, and every smaller
      window fits in full. */
  ghost predicate AllFit(z: Sizes, n: size_t, room: nat)
    requires z.Valid()
  {
    Fits(z, BucketWindow(n), n, room) && WindowsFit(z, BucketWindow(n), room)
  }

  lemma AllFitMeans(z: Sizes, n: size_t, room: nat)
    requires z.Valid()
    ensures AllFit(z, n, room) <==>
              Fits(z, BucketWindow(n), n, room)
              && forall v: nat :: 1 <= v < BucketWindow(n) ==> Fits(z, v, BucketWindowInv(v), room)
  {
  }

  /** Where the search stops, the result is the last number for which the accounting works out. */
  lemma MaxPointsExact(z: Sizes, w: nat, res: size_t, room: nat, n: size_t)
    requires z.Valid() && 1 <= w <= PIPPENGER_MAX_BUCKET_WINDOW + 1 && WindowsFit(z, w, room) && n > 0
    requires w > PIPPENGER_MAX_BUCKET_WINDOW ==> res == BucketWindowInv(w - 1)
    requires w <= PIPPENGER_MAX_BUCKET_WINDOW ==> StopsAt(z, w, res, room)
    ensures n <= res <==> AllFit(z, n, room)
  {
    hide Fits, BucketWindow, BucketWindowInv;
    var b := BucketWindow(n);
    BucketWindowInverse(n, b);
    if w > 1 { BucketWindowInverse(n, w - 1); }
    if w <= PIPPENGER_MAX_BUCKET_WINDOW { BucketWindowInverse(n, w); }
    if b < w {
      FitsFewer(z, b, BucketWindowInv(b), n, room);
    }
  }

  /** Window w does not fit in full, and res is what fits of it, or else all that fit before. */
  ghost predicate StopsAt(z: Sizes, w: nat, res: size_t, room: nat)
    requires z.Valid() && 1 <= w <= PIPPENGER_MAX_BUCKET_WINDOW
  {
    && !Fits(z, w, BucketWindowInv(w), room)
    && (if w == 1 then 0 else BucketWindowInv(w - 1)) <= res <= BucketWindowInv(w)
    && forall n: size_t :: n > (if w == 1 then 0 else BucketWindowInv(w - 1)) ==> (n <= res <==> Fits(z, w, n, room))
  }

  lemma StopsWithout(z: Sizes, w: nat, res: size_t, room: nat)
    requires z.Valid() && 1 <= w <= PIPPENGER_MAX_BUCKET_WINDOW && Overhead(z, w) > room
    requires res == (if w == 1 then 0 else BucketWindowInv(w - 1))
    ensures StopsAt(z, w, res, room)
  {
    hide Overhead, EntrySize, BucketWindowInv;
    InvMonotone(w);
    forall n: size_t ensures !Fits(z, w, n, room) { MulMono(0, n, EntrySize(z, w)); }
  }

  lemma StopsWithin(z: Sizes, w: nat, points: size_t, res: size_t, room: nat)
    requires z.Valid() && 1 <= w <= PIPPENGER_MAX_BUCKET_WINDOW && Overhead(z, w) <= room
    requires points == (room - Overhead(z, w)) / EntrySize(z, w) && points < BucketWindowInv(w)
    requires res == Max(points, if w == 1 then 0 else BucketWindowInv(w - 1))
    ensures StopsAt(z, w, res, room)
  {
    hide Overhead, EntrySize, BucketWindowInv;
    InvMonotone(w);
    forall n: size_t ensures n <= points <==> Fits(z, w, n, room) {
      CountedFit(room - Overhead(z, w), EntrySize(z, w), n);
    }
  }

  lemma CountedFit(space: nat, e: nat, n: nat)
    requires e > 0
    ensures n <= space / e <==> n * e <= space
  {
    var q := space / e;
    assert space == q * e + space % e;
    if n <= q { MulMono(n, q, e); } else { MulMono(q + 1, n, e); }
  }

  /** The number of points a scratch space is good for: with any smaller number (and with none,
      unless the result is zero) all allocations of a batch succeed too, although a smaller
      number of points may take another window. */
  method PippengerMaxPoints(scratch: ScratchSpace, z: Sizes) returns (res: size_t)
    requires scratch.Valid() && z.Valid()
    ensures forall n: size_t :: n <= res && res > 0 ==> PippengerFits(z, n, scratch.Room())
    ensures forall n: size_t :: n > 0 ==> (n <= res <==> AllFit(z, n, AfterRounding(scratch.Room(), 6)))
  {
    hide PippengerFits, WindowsFit, BucketWindow, BucketWindowInv, StopsAt, AllFit;
    var maxAlloc := scratch.MaxAllocation(PIPPENGER_SCRATCH_OBJECTS);
    res := 0;
    var w := 1;
    NoWindows(z, maxAlloc);
    while w <= PIPPENGER_MAX_BUCKET_WINDOW
      invariant 1 <= w <= PIPPENGER_MAX_BUCKET_WINDOW + 1
      invariant WindowsFit(z, w, maxAlloc)
      invariant res == (if w == 1 then 0 else BucketWindowInv(w - 1))
    {
      var maxPoints := BucketWindowInv(w);
      var entrySize: size_t := EntrySize(z, w);
      var overhead: size_t := Overhead(z, w);
      if overhead > maxAlloc {
        StopsWithout(z, w, res, maxAlloc);
        break;
      }
      var space: size_t := maxAlloc - overhead;
      SpaceForPoints(z, w, space, maxAlloc);
      var points: size_t := space / entrySize;
      if points > maxPoints {
        FitsFewer(z, w, points, maxPoints, maxAlloc);
        points := maxPoints;
      }
      InvMonotone(w);
      if points > res { res := points; }
      if points < maxPoints {
        StopsWithin(z, w, points, res, maxAlloc);
        ExactForAll(z, w, res, maxAlloc);
        AllSmallerFit(scratch, z, w, res, maxAlloc);
        return;
      }
      MoreWindows(z, w, maxAlloc);
      w := w + 1;
    }
    ExactForAll(z, w, res, maxAlloc);
    AllSmallerFit(scratch, z, w, res, maxAlloc);
  }

  lemma ExactForAll(z: Sizes, w: nat, res: size_t, room: nat)
    requires z.Valid() && 1 <= w <= PIPPENGER_MAX_BUCKET_WINDOW + 1 && WindowsFit(z, w, room)
    requires w > PIPPENGER_MAX_BUCKET_WINDOW ==> res == BucketWindowInv(w - 1)
    requires w <= PIPPENGER_MAX_BUCKET_WINDOW ==> StopsAt(z, w, res, room)
    ensures forall n: size_t :: n > 0 ==> (n <= res <==> AllFit(z, n, room))
  {
    hide Fits, BucketWindow, BucketWindowInv, WindowsFit, AllFit, StopsAt;
    forall n: size_t | n > 0 ensures n <= res <==> AllFit(z, n, room) { MaxPointsExact(z, w, res, room, n); }
  }

  lemma NoWindows(z: Sizes, room: nat)
    requires z.Valid()
    ensures WindowsFit(z, 1, room)
  {
  }

  lemma MoreWindows(z: Sizes, w: nat, room: nat)
    requires z.Valid() && 1 <= w <= PIPPENGER_MAX_BUCKET_WINDOW && WindowsFit(z, w, room)
    requires Fits(z, w, BucketWindowInv(w), room)
    ensures WindowsFit(z, w + 1, room)
  {
  }

  lemma InvMonotone(w: nat)
    requires 1 <= w <= PIPPENGER_MAX_BUCKET_WINDOW
    ensures BucketWindowInv(w) > 0
    ensures w > 1 ==> BucketWindowInv(w - 1) <= BucketWindowInv(w)
  {
  }

  lemma SpaceForPoints(z: Sizes, w: nat, space: nat, room: nat)
    requires z.Valid() && w <= PIPPENGER_MAX_BUCKET_WINDOW && Overhead(z, w) + space == room
    ensures 0 <= space / EntrySize(z, w) <= space && Fits(z, w, space / EntrySize(z, w), room)
  {
    hide EntrySize, Overhead;
    QuotientRange(space, EntrySize(z, w));
    DivisionBelow(space, EntrySize(z, w));
  }

  lemma DivisionBelow(x: nat, e: nat)
    requires e > 0
    ensures (x / e) * e <= x
  {
  }

  lemma AllSmallerFit(scratch: ScratchSpace, z: Sizes, w: nat, res: size_t, room: nat)
    requires scratch.Valid() && z.Valid() && room == scratch.MaxAllocation(PIPPENGER_SCRATCH_OBJECTS)
    requires 1 <= w <= PIPPENGER_MAX_BUCKET_WINDOW + 1 && WindowsFit(z, w, room)
    requires w <= PIPPENGER_MAX_BUCKET_WINDOW && res > (if w == 1 then 0 else BucketWindowInv(w - 1)) ==>
      Fits(z, w, res, room) && res <= BucketWindowInv(w)
    requires w > PIPPENGER_MAX_BUCKET_WINDOW ==> res <= BucketWindowInv(w - 1)
    ensures forall n: size_t :: n <= res && res > 0 ==> PippengerFits(z, n, scratch.Room())
  {
    hide PippengerFits, WindowsFit, Fits, BucketWindow, BucketWindowInv;
    forall n: size_t | n <= res && res > 0 ensures PippengerFits(z, n, scratch.Room()) {
      PointsFit(z, w, res, room, n);
      FitsImplies(scratch, z, n);
    }
  }

  // ----- Strauss -----

  function StraussPointSize(z: Sizes): (n: nat)
    requires z.Valid()
    ensures 0 < n < 0x100_0000
  {
    (z.ge + z.fe) * TABLE_SIZE_A + z.straussPoint + z.gej + z.scalar
  }

  /** The five pieces that `strauss_batch` allocates for n points, in order. */
  function StraussPieces(z: Sizes, n: size_t): (pieces: seq<nat>)
    requires z.Valid()
    ensures |pieces| == 5
  {
    [n * z.gej, n * z.scalar, n * TABLE_SIZE_A * z.fe, n * TABLE_SIZE_A * z.ge, n * z.straussPoint]
  }

  ghost predicate StraussFits(z: Sizes, n: size_t, room: nat)
    requires z.Valid()
  {
    TotalRounded(StraussPieces(z, n)) <= room
  }

  /** In full: every point has a table of eight multiples, with their x under the endomorphism. */
  lemma StraussFitsMeans(z: Sizes, n: size_t, room: nat)
    requires z.Valid()
    ensures StraussFits(z, n, room) <==>
              Rounded(Bytes(n, z.gej)) + Rounded(Bytes(n, z.scalar)) + Rounded(Bytes(8 * n, z.fe)) + Rounded(Bytes(8 * n, z.ge))
              + Rounded(Bytes(n, z.straussPoint)) <= room
  {
    hide Rounded, TotalRounded;
    RoundedSumOfFive(n * z.gej, n * z.scalar, n * TABLE_SIZE_A * z.fe, n * TABLE_SIZE_A * z.ge, n * z.straussPoint);
  }

  lemma StraussTotal(z: Sizes, n: size_t)
    requires z.Valid()
    ensures Total(StraussPieces(z, n)) == n * StraussPointSize(z)
    ensures StraussPointSize(z) == 8 * (z.ge + z.fe) + z.straussPoint + z.gej + z.scalar
  {
    SumOfFive(n * z.gej, n * z.scalar, n * TABLE_SIZE_A * z.fe, n * TABLE_SIZE_A * z.ge, n * z.straussPoint);
    hide Total;
    StraussAlgebra(n, z.ge, z.fe, z.straussPoint, z.gej, z.scalar);
  }

  lemma StraussAlgebra(n: nat, ge: nat, fe: nat, p: nat, gej: nat, s: nat)
    ensures n * gej + n * s + n * 8 * fe + n * 8 * ge + n * p == n * ((ge + fe) * 8 + p + gej + s)
  {
  }

  lemma PiecesFitStrauss(scratch: ScratchSpace, z: Sizes, n: size_t)
    requires scratch.Valid() && z.Valid()
    requires 0 < Total(StraussPieces(z, n)) <= scratch.MaxAllocation(STRAUSS_SCRATCH_OBJECTS)
    ensures StraussFits(z, n, scratch.Room())
  {
    PiecesFit(scratch, StraussPieces(z, n));
  }

  method StraussMaxPoints(scratch: ScratchSpace, z: Sizes) returns (res: size_t)
    requires scratch.Valid() && z.Valid()
    ensures forall n: size_t :: 0 < n <= res ==> StraussFits(z, n, scratch.Room())
    ensures forall n: size_t :: n <= res <==> Bytes(n, StraussPointSize(z)) <= AfterRounding(scratch.Room(), 5)
  {
    hide StraussFits, StraussPieces, StraussPointSize, Total, TotalRounded;
    var room := scratch.MaxAllocation(STRAUSS_SCRATCH_OBJECTS);
    var e := StraussPointSize(z);
    QuotientRange(room, e);
    res := room / e;
    forall n: size_t | 0 < n <= res ensures StraussFits(z, n, scratch.Room()) {
      StraussTotal(z, n);
      QuotientFits(room, e, n);
      PiecesFitStrauss(scratch, z, n);
    }
    forall n: size_t ensures n <= res <==> Bytes(n, e) <= room {
      CountedFit(room, e, n);
    }
  }

  lemma QuotientRange(x: nat, e: nat)
    requires e > 0
    ensures 0 <= x / e <= x
  {
    var q := x / e;
    assert x == q * e + x % e;
    if q < 0 { MulMono(q, -1, e); }
    if q > x { MulMono(x + 1, q, e); MulMono(1, e, x + 1); }
  }

  lemma QuotientFits(x: nat, e: nat, n: nat)
    requires e > 0 && 0 < n <= x / e
    ensures 0 < n * e <= x
  {
    assert x == (x / e) * e + x % e;
    MulMono(n, x / e, e);
    MulMono(1, n, e);
  }
}
