/** Single-word steps of Algorithm D: a 2-by-1-word division out of half-word divisions, and
    the quotient estimate from the top three and two words. */
module WordDivision {
  import opened Arith
  import opened Digits
  import opened WordOps
  import opened Shifts
  import M = MachineInts

  const HALF := 0x1_0000_0000

  type HalfWord = x: int | 0 <= x < HALF

  function High(x: Word): HalfWord { x / HALF }

  function Low(x: Word): HalfWord { x % HALF }

  /** `&<<` by half a word: the high half is lost. */
  function Upshifted(x: Word): Word { (x * HALF) % BASE }

  /** A divisor with its top bit set. */
  predicate Normalized(v: Word) { 2 * v >= BASE }

  /** Half-word quotient of the three half words (uh, ul) by vn: the estimate from the high half
      of vn is at most 2 too large, and the two tests find out by how much. */
  function HalfQuotient(uh: Word, ul: HalfWord, vn: Word): (q: HalfWord)
    requires uh < vn && Normalized(vn)
    ensures q == (uh * HALF + ul) / vn
  {
    EstimateBound(uh, vn);
    UpshiftedHalf(uh % High(vn));
    hide High, Low, Upshifted, Normalized;
    var (vn1, vn0) := (High(vn), Low(vn));
    var (q, r) := (uh / vn1, uh % vn1);
    HalfQuotientExact(uh * HALF + ul, vn, vn1, vn0, q, r, ul);
    HighIsZero(q);
    HighIsZero(r + vn1);
    HighIsZero(q - 1);
    UpshiftedHalf(r + vn1);
    var p: Word := q * vn0;
    if High(q) == 0 && p <= Upshifted(r) + ul then q
    else
      var r2: Word := r + vn1;
      if High(r2) != 0 then q - 1
      else if High(q - 1) == 0 && p - vn0 <= Upshifted(r2) + ul then q - 1
      else q - 2
  }

  lemma HighIsZero(x: int)
    ensures 0 <= x < BASE ==> (High(x) == 0 <==> x < HALF)
  {
  }

  lemma UpshiftedHalf(x: int)
    ensures 0 <= x < HALF ==> Upshifted(x) == x * HALF
  {
  }

  lemma EstimateBound(uh: Word, vn: Word)
    requires uh < vn && Normalized(vn)
    ensures 2 * High(vn) >= HALF && High(vn) > 0
    ensures 0 <= uh / High(vn) <= HALF + 1
    ensures uh == (uh / High(vn)) * High(vn) + uh % High(vn)
    ensures vn == High(vn) * HALF + Low(vn)
  {
    var a, q := High(vn), uh / High(vn);
    assert uh == q * a + uh % a;
    if q > HALF + 1 { MulMono(HALF + 2, q, a); }
    if q < 0 { MulMono(q, -1, a); }
  }

  /** What each branch of `HalfQuotient` rests on. */
  lemma HalfQuotientExact(n: int, vn: int, a: int, b: int, q: int, r: int, ul: int)
    requires vn == a * HALF + b && 2 * a >= HALF && 0 <= b < HALF
    requires n == (q * a + r) * HALF + ul && 0 <= r < a && 0 <= ul < HALF && 0 <= q <= HALF + 1
    requires n < vn * HALF
    ensures 0 <= q * b < BASE && 0 <= n / vn < HALF
    ensures q * b <= r * HALF + ul && q < HALF ==> n / vn == q
    ensures q * b > r * HALF + ul || q >= HALF ==>
      q >= 1 && (q - 1) * b == q * b - b && (r + a >= HALF ==> n / vn == q - 1)
    ensures (q * b > r * HALF + ul || q >= HALF) && r + a < HALF ==>
      n / vn == (if q - 1 < HALF && q * b - b <= (r + a) * HALF + ul then q - 1 else q - 2)
  {
    MulNat(q * a, HALF);
    MulNat(q, a);
    QuotientRange(n, vn, HALF);
    MulMono(q, HALF + 1, b);
    MulNat(q, b);
    Refinement(n, vn, a, b, q, r, ul, HALF);
    NextProduct(n, vn, q, r, a, b, ul);
    PickQuotient(n, vn, q);
  }

  lemma PickQuotient(n: int, v: int, q: int)
    requires v > 0 && n < (q + 1) * v && (q - 2) * v <= n
    ensures q * v <= n ==> n / v == q
    ensures q * v > n ==> n / v < q && n / v == (if (q - 1) * v <= n then q - 1 else q - 2)
  {
    QuotientFrom(n, v, q);
    QuotientFrom(n, v, q - 1);
    QuotientFrom(n, v, q - 2);
  }

  /** In base h, with the divisor a*h + b: the single-digit tests decide whether q and q-1 fit,
      and q-2 fits in any case. */
  lemma Refinement(n: int, v: int, a: int, b: int, q: int, r: int, ul: int, h: int)
    requires 2 * a >= h > 0 && 0 <= b < h && r >= 0 && ul >= 0 && q <= h + 1
    requires n == (q * a + r) * h + ul && v == a * h + b
    ensures q * b <= r * h + ul <==> q * v <= n
    ensures (q - 1) * b == q * b - b
    ensures q * b - b <= (r + a) * h + ul <==> (q - 1) * v <= n
    ensures r + a >= h ==> (q - 1) * v <= n
    ensures (q - 2) * v <= n
  {
    Estimate(n, a, b, q, q, r, ul, h);
    Estimate(n, a, b, q, q - 1, r + a, ul, h);
    Estimate(n, a, b, q, q - 2, r + 2 * a, ul, h);
    StepDown(q, b);
    MulMono(q - 1, h, b);
    MulMono(q - 2, h, b);
    MulMono(b, h, h);
    MulMono(h, r + 2 * a, h);
    if r + a >= h { MulMono(h, r + a, h); }
  }

  lemma StepDown(q: int, b: int)
    ensures (q - 1) * b == q * b - b && (q - 2) * b == q * b - 2 * b
  {
  }

  /** n - k*vn, seen through the upper and lower digit of the divisor. */
  lemma Estimate(n: int, a: int, b: int, q: int, k: int, r: int, ul: int, h: int)
    requires n == (q * a + r - (q - k) * a) * h + ul
    ensures n - k * (a * h + b) == r * h + ul - k * b
  {
    assert q * a - (q - k) * a == k * a;
    assert k * (a * h + b) == (k * a) * h + k * b;
  }

  lemma QuotientRange(n: int, v: int, h: int)
    requires v > 0 && h > 0 && 0 <= n < v * h
    ensures 0 <= n / v < h
  {
    var q := n / v;
    assert n == q * v + n % v;
    if q >= h { MulMono(h, q, v); }
    if q < 0 { MulMono(q, -1, v); }
  }

  lemma NextProduct(n: int, vn: int, q: int, r: int, a: int, b: int, ul: int)
    requires vn == a * HALF + b
    requires n == (q * a + r) * HALF + ul
    requires 0 <= r < a && 0 <= ul < HALF && 0 <= b && q >= 0
    ensures n < (q + 1) * vn
  {
    assert (q + 1) * (a * HALF + b) == (q * a + a) * HALF + (q + 1) * b;
    MulNat(q + 1, b);
  }

  /** Bounds on a quotient from products. */
  lemma QuotientFrom(n: int, v: int, k: int)
    requires v > 0
    ensures k * v <= n ==> k <= n / v
    ensures k * v > n ==> n / v < k
    ensures n < (k + 1) * v ==> n / v <= k
  {
    var q := n / v;
    assert n == q * v + n % v;
    if q < k { MulMono(q + 1, k, v); assert (q + 1) * v == q * v + v; }
    if q >= k { MulMono(k, q, v); }
    if q > k { MulMono(k + 1, q, v); }
  }

  /** Wrapping multiplication and subtraction give the exact remainder all the same. */
  function HalfDivide(uh: Word, ul: HalfWord, v: Word): (r: (HalfWord, Word))
    requires uh < v && Normalized(v)
    ensures r.0 == (uh * HALF + ul) / v && r.1 == (uh * HALF + ul) % v
  {
    var q := HalfQuotient(uh, ul, v);
    WrappedRemainder(uh, ul, q, v);
    (q, ((Upshifted(uh) + ul) - (q * v) % BASE) % BASE)
  }

  lemma WrappedRemainder(uh: Word, ul: HalfWord, q: int, v: Word)
    requires v > 0 && q == (uh * HALF + ul) / v
    ensures ((Upshifted(uh) + ul) - (q * v) % BASE) % BASE == (uh * HALF + ul) % v
  {
    var n := uh * HALF + ul;
    assert n == q * v + n % v;
    var r := n % v;
    var k := (uh * HALF) / BASE;
    assert Upshifted(uh) == uh * HALF - k * BASE;
    var l := (q * v) / BASE;
    assert (q * v) % BASE == q * v - l * BASE;
    DivModUnique((Upshifted(uh) + ul) - (q * v) % BASE, l - k, r, BASE);
  }

  /** Divide the double word (high, low) by v. */
  function FastDividingFullWidth(v: Word, high: Word, low: Word): (r: (Word, Word))
    requires high < v
    ensures r.0 == (high * BASE + low) / v && r.1 == (high * BASE + low) % v
  {
    var z := WordLeadingZeros(v);
    NormalizeDividend(v, high, low, z);
    hide WordLeadingZeros, Normalized, High, Low, Upshifted, UpperWord, WordShiftLeft, WordShiftRight, Pow2;
    var vn := WordShiftLeft(v, z);
    var un32: Word := UpperWord(high, low, z);
    var un10 := WordShiftLeft(low, z);
    var (un1, un0) := (High(un10), Low(un10));
    var (q1, un21) := HalfDivide(un32, un1, vn);
    var (q0, rn) := HalfDivide(un21, un0, vn);
    Halves(un10);
    TwoHalves(un32, un1, un0, vn, q1, un21, q0, rn);
    Denormalize(v, high * BASE + low, z, q1 * HALF + q0, rn);
    UpshiftedHalf(q1);
    var mod := WordShiftRight(rn, z);
    var div := Upshifted(q1) + q0;
    (div, mod)
  }

  lemma Halves(x: Word)
    ensures x == High(x) * HALF + Low(x)
  {
  }

  /** Two 3-by-2 half-word divisions make one 4-by-2 division. */
  lemma TwoHalves(uh: int, u1: int, u0: int, vn: int, q1: int, m: int, q0: int, r: int)
    requires vn > 0
    requires q1 == (uh * HALF + u1) / vn && m == (uh * HALF + u1) % vn
    requires q0 == (m * HALF + u0) / vn && r == (m * HALF + u0) % vn
    ensures uh * BASE + u1 * HALF + u0 == (q1 * HALF + q0) * vn + r && 0 <= r < vn
  {
    assert uh * HALF + u1 == q1 * vn + m;
    assert m * HALF + u0 == q0 * vn + r;
    assert (q1 * HALF + q0) * vn == q1 * vn * HALF + q0 * vn;
  }

  /** Undoing the normalization of the remainder. */
  lemma Denormalize(v: Word, n: nat, z: nat, q: int, r: Word)
    requires v > 0 && n * Pow2(z) == q * (v * Pow2(z)) + r && r < v * Pow2(z)
    ensures n / v == q && n % v == WordShiftRight(r, z)
  {
    hide Pow2;
    ScaledRemainder(v, n, Pow2(z), q, r);
  }

  lemma ScaledRemainder(v: int, n: int, p: int, q: int, r: int)
    requires v > 0 && p > 0 && n * p == q * (v * p) + r && 0 <= r < v * p
    ensures n / v == q && n % v == r / p
  {
    var m := n - q * v;
    assert m * p == n * p - q * (v * p) by { assert q * (v * p) == (q * v) * p; }
    DivModUnique(r, m, 0, p);
    if m < 0 { MulMono(m, -1, p); }
    if m >= v { MulMono(v, m, p); }
    DivModUnique(n, q, m, v);
  }

  /** The dividend's upper word after normalization. */
  function UpperWord(high: Word, low: Word, z: nat): nat
    requires z <= WIDTH
  {
    if z == 0 then high else M.BitOr(WordShiftLeft(high, z), WordShiftRight(low, WIDTH - z))
  }

  /** No bit of the dividend is lost. */
  lemma NormalizeDividend(v: Word, high: Word, low: Word, z: nat)
    requires high < v && z == WordLeadingZeros(v)
    ensures z < WIDTH
    ensures Normalized(WordShiftLeft(v, z)) && WordShiftLeft(v, z) == v * Pow2(z)
    ensures UpperWord(high, low, z) < WordShiftLeft(v, z)
    ensures UpperWord(high, low, z) * BASE + WordShiftLeft(low, z) == (high * BASE + low) * Pow2(z)
  {
    assert z < WIDTH by { assert Pow2(0) == 1; }
    var p, q := Pow2(z), Pow2(WIDTH - z);
    PowerSplit(z);
    assert q == 2 * Pow2(WIDTH - 1 - z);
    NormalizedWord(v, p, q);
    if z == 0 {
      assert Pow2(0) == 1;
    } else {
      hide Pow2, WordLeadingZeros, Normalized;
      NormalizeUp(v, high, low, z, p, q);
    }
  }

  lemma NormalizeUp(v: Word, high: Word, low: Word, z: nat, p: nat, q: nat)
    requires high < v < q && 0 < z < WIDTH && p == Pow2(z) && q == Pow2(WIDTH - z)
    ensures UpperWord(high, low, z) < v * p
    ensures UpperWord(high, low, z) * BASE + WordShiftLeft(low, z) == (high * BASE + low) * p
  {
    PowerSplit(z);
    var h, l := low / q, low % q;
    assert low == h * q + l;
    hide Pow2, UpperWord;
    UpAlgebra(low, h, l, p, q);
    DivModUnique(low * p, h, l * p, BASE);
    QuotientRange(low, q, p);
    DivModUnique(high, 0, high, q);
    WordUp(high, h, z);
    MulMono(high + 1, v, p);
    assert (high + 1) * p == high * p + p;
    assert UpperWord(high, low, z) == p * high + h by { UpperIs(high, low, z, h); }
    UpperAlgebra(high, low, h, l, p);
  }

  lemma UpperIs(high: Word, low: Word, z: nat, h: Word)
    requires 0 < z < WIDTH && h == WordShiftRight(low, WIDTH - z)
    ensures UpperWord(high, low, z) == M.BitOr(WordShiftLeft(high, z), h)
  {
    hide M.BitOr, Pow2, WordShiftLeft, WordShiftRight;
  }

  lemma UpperAlgebra(high: int, low: int, h: int, l: int, p: int)
    requires low * p == h * BASE + l * p
    ensures (p * high + h) * BASE + l * p == (high * BASE + low) * p
  {
    assert (high * BASE + low) * p == high * p * BASE + low * p;
  }

  lemma NormalizedWord(v: Word, p: nat, q: nat)
    requires p * q == BASE && 0 < v < q && q <= 2 * v
    ensures v * p < BASE <= 2 * (v * p) && (v * p) % BASE == v * p
  {
    MulMono(v + 1, q, p);
    assert (v + 1) * p == v * p + p;
    MulMono(q, 2 * v, p);
    assert 2 * v * p == 2 * (v * p);
  }

  /** The quotient, or the largest word when that is smaller. */
  function CappedQuotient(n: int, d: int): int
  {
    if d <= 0 then 0 else Min(n / d, BASE - 1)
  }

  lemma CappedMeans(n: int, d: int)
    requires d > 0
    ensures CappedQuotient(n, d) == (if n / d < BASE then n / d else BASE - 1)
  {
  }

  /** Estimate the quotient of three words by two: exact whenever it fits in a word. */
  function ApproximateQuotient(x0: Word, x1: Word, x2: Word, y0: Word, y1: Word): (q: Word)
    requires Normalized(y0) && x0 <= y0
    ensures q == CappedQuotient((x0 * BASE + x1) * BASE + x2, y0 * BASE + y1)
  {
    hide Normalized, CappedQuotient;
    if x0 == y0 then
      var (s, o) := AddingReportingOverflow(x0, x1);
      MaximalQuotient(x0, x1, x2, y1);
      if o then BASE - 1 else RefineQuotient(BASE - 1, s, x2, y0, y1)
    else
      var (q, r) := FastDividingFullWidth(y0, x0, x1);
      NextTriple(x0 * BASE + x1, x2, y0, y1, q, r);
      RefineQuotient(q, r, x2, y0, y1)
  }

  /** Lower an estimate q, which is either an upper bound or the largest word, until it fits. */
  function RefineQuotient(q: Word, r: Word, x2: Word, y0: Word, y1: Word): (q': Word)
    requires Normalized(y0)
    requires q == BASE - 1 || ((q * y0 + r) * BASE + x2) / (y0 * BASE + y1) <= q
    ensures q' == CappedQuotient((q * y0 + r) * BASE + x2, y0 * BASE + y1)
  {
    RefineExact(q, r, x2, y0, y1);
    hide Normalized;
    var (ph, pl) := MultipliedFullWidth(q, y1);
    if ph < r || (ph == r && pl <= x2) then q
    else
      var (r1, ro) := AddingReportingOverflow(r, y0);
      if ro then q - 1
      else
        var (pl1, so) := SubtractingReportingOverflow(pl, y1);
        var ph1: Word := if so then ph - 1 else ph;
        if ph1 < r1 || (ph1 == r1 && pl1 <= x2) then q - 1 else q - 2
  }

  lemma RefineExact(q: Word, r: Word, x2: Word, y0: Word, y1: Word)
    requires Normalized(y0)
    requires q == BASE - 1 || ((q * y0 + r) * BASE + x2) / (y0 * BASE + y1) <= q
    ensures var n := ((q * y0 + r) * BASE + x2) / (y0 * BASE + y1);
      && n >= 0 && 0 <= q * y1
      && (q * y1 <= r * BASE + x2 ==> Min(n, BASE - 1) == q)
      && (q * y1 > r * BASE + x2 ==>
            && q >= 1 && q * y1 - y1 >= 0
            && (r + y0 >= BASE ==> n == q - 1)
            && n == (if q * y1 - y1 <= (r + y0) * BASE + x2 then q - 1 else q - 2))
  {
    var n, vn := (q * y0 + r) * BASE + x2, y0 * BASE + y1;
    MulNat(q, y0);
    MulNat(q, y1);
    Refinement(n, vn, y0, y1, q, r, x2, BASE);
    assert q == 0 ==> q * y1 == 0;
    if q >= 1 { MulNat(q - 1, y1); }
    hide *;
    QuotientFrom(n, vn, 0);
    QuotientFrom(n, vn, q);
    QuotientFrom(n, vn, q - 1);
    QuotientFrom(n, vn, q - 2);
  }

  lemma MaximalQuotient(x0: Word, x1: Word, x2: Word, y1: Word)
    requires Normalized(x0)
    ensures (x0 * BASE + x1) * BASE + x2 == ((BASE - 1) * x0 + (x0 + x1)) * BASE + x2
    ensures x0 + x1 >= BASE ==> CappedQuotient((x0 * BASE + x1) * BASE + x2, x0 * BASE + y1) == BASE - 1
  {
    if x0 + x1 >= BASE {
      QuotientFrom((x0 * BASE + x1) * BASE + x2, x0 * BASE + y1, BASE - 1);
    }
  }

  lemma NextTriple(x: nat, x2: Word, y0: Word, y1: Word, q: int, r: int)
    requires y0 > 0 && q == x / y0 && r == x % y0
    ensures (q * y0 + r) * BASE + x2 == x * BASE + x2
    ensures (x * BASE + x2) / (y0 * BASE + y1) <= q
  {
    assert x == q * y0 + r;
    QuotientFrom(x, y0, 0);
    TripleBound(x, x2, y0, y1, q, r, BASE);
    var d := y0 * BASE + y1;
    QuotientFrom(x * BASE + x2, d, q);
  }

  lemma TripleBound(x: int, x2: int, y0: int, y1: nat, q: nat, r: int, base: nat)
    requires x == q * y0 + r && r < y0 && x2 < base
    ensures x * base + x2 < (q + 1) * (y0 * base + y1)
  {
    MulNeighbours(q, y0);
    MulMono(x + 1, (q + 1) * y0, base);
    MulNeighbours(x, base);
    MulNat(q + 1, y1);
    assert (q + 1) * (y0 * base + y1) == (q + 1) * y0 * base + (q + 1) * y1;
  }
}
