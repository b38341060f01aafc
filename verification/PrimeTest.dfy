/** The strong probable prime test, and the primality test built on it. */
module PrimeTest {
  import opened Arith
  import opened Digits
  import opened BigUInts
  import opened Shifts
  import opened BitCounts
  import opened Comparison
  import opened Subtraction
  import opened Addition
  import opened Multiplication
  import opened Division
  import opened Exponentiation
  import N = NumberTheory

  /** n - 1 = d * 2^r with d odd (r = 0 and d = 0 for n = 1). */
  ghost predicate OddPart(n: nat, r: nat, d: nat)
    requires n > 0
  {
    && d == (n - 1) / Pow2(r)
    && (n == 1 ==> r == 0)
    && (n > 1 ==> TrailingZeroBits(n - 1, r))
  }

  /** base^(d * 2^i) modulo n. */
  function PowerAt(n: nat, base: nat, d: nat, i: nat): nat
    requires n > 0
  {
    Pow(base, d * Pow2(i)) % n
  }

  /** The test as it is defined: base^d is 1, or some base^(d * 2^i), i < r, is -1. */
  ghost predicate Passes(n: nat, base: nat, r: nat, d: nat)
    requires n > 0
  {
    || PowerAt(n, base, d, 0) == 1
    || PowerAt(n, base, d, 0) == n - 1
    || exists i: nat :: 1 <= i < r && PowerAt(n, base, d, i) == n - 1
  }

  ghost predicate StrongProbablePrime(n: nat, base: nat)
    requires n > 0
  {
    forall r: nat, d: nat {:trigger OddPart(n, r, d)} :: OddPart(n, r, d) ==> Passes(n, base, r, d)
  }

  lemma OddPartUnique(n: nat, base: nat, r: nat, d: nat)
    requires n > 0 && OddPart(n, r, d)
    ensures StrongProbablePrime(n, base) <==> Passes(n, base, r, d)
  {
    forall r': nat, d': nat | OddPart(n, r', d') ensures r' == r && d' == d {
      if n > 1 { TrailingZeroUnique(n - 1, r, r'); }
    }
  }

  /** The definition, for the one way to write n - 1 as d * 2^r with d odd. */
  lemma StrongProbablePrimeIs(n: nat, base: nat, r: nat, d: nat)
    requires n > 1 && n - 1 == d * Pow2(r) && d % 2 == 1
    ensures StrongProbablePrime(n, base) <==>
              Pow(base, d) % n == 1 || exists i: nat :: (i == 0 || i < r) && Pow(base, d * Pow2(i)) % n == n - 1
  {
    hide StrongProbablePrime, Pow;
    OddPartFrom(n, r, d);
    OddPartUnique(n, base, r, d);
    PowerAtZero(n, base, d);
    hide OddPart, Pow2;
    PassesMeans(n, base, r, d);
  }

  lemma OddPartFrom(n: nat, r: nat, d: nat)
    requires n > 1 && n - 1 == d * Pow2(r) && d % 2 == 1
    ensures OddPart(n, r, d)
  {
    hide Pow2;
    DivModUnique(n - 1, d, 0, Pow2(r));
  }

  lemma PassesMeans(n: nat, base: nat, r: nat, d: nat)
    requires n > 0 && PowerAt(n, base, d, 0) == Pow(base, d) % n
    ensures Passes(n, base, r, d) <==>
              Pow(base, d) % n == 1 || exists i: nat :: (i == 0 || i < r) && Pow(base, d * Pow2(i)) % n == n - 1
  {
    hide Pow, Pow2;
    if PowerAt(n, base, d, 0) == n - 1 { assert Pow(base, d * Pow2(0)) % n == n - 1; }
    if i: nat :| 1 <= i < r && PowerAt(n, base, d, i) == n - 1 { assert Pow(base, d * Pow2(i)) % n == n - 1; }
    if i: nat :| (i == 0 || i < r) && Pow(base, d * Pow2(i)) % n == n - 1 { assert PowerAt(n, base, d, i) == n - 1; }
  }

  /** Squaring moves one place up the sequence. */
  lemma PowerAtNext(n: nat, base: nat, d: nat, i: nat)
    requires n > 0
    ensures PowerAt(n, base, d, i + 1) == (PowerAt(n, base, d, i) * PowerAt(n, base, d, i)) % n
  {
    var e := d * Pow2(i);
    assert d * Pow2(i + 1) == e + e;
    PowAdd(base, e, e);
    hide Pow;
    ModMul(Pow(base, e), Pow(base, e), n);
  }

  lemma PowerAtZero(n: nat, base: nat, d: nat)
    requires n > 0
    ensures PowerAt(n, base, d, 0) == Pow(base, d) % n
  {
    assert d * Pow2(0) == d;
  }

  /** Once the sequence is at 1 it stays there, so the test may stop. */
  lemma {:induction false} StaysOne(n: nat, base: nat, d: nat, i: nat, j: nat)
    requires n > 1 && i <= j && PowerAt(n, base, d, i) == 1
    ensures PowerAt(n, base, d, j) == 1
  {
    if i < j {
      StaysOne(n, base, d, i, j - 1);
      hide PowerAt;
      PowerAtNext(n, base, d, j - 1);
      DivModUnique(1, 0, 1, n);
    }
  }

  /** Going down from a 1 modulo a prime, the sequence meets -1 or reaches 1 at the start. */
  lemma {:induction false} DownFromOne(n: nat, base: nat, d: nat, i: nat)
    requires N.Prime(n) && PowerAt(n, base, d, i) == 1
    ensures PowerAt(n, base, d, 0) == 1 || exists j: nat :: j < i && PowerAt(n, base, d, j) == n - 1
  {
    if i > 0 {
      hide PowerAt;
      var y := PowerAt(n, base, d, i - 1);
      PowerAtNext(n, base, d, i - 1);
      PowerAtRange(n, base, d, i - 1);
      N.RootsOfOne(n, y);
      if y == 1 { DownFromOne(n, base, d, i - 1); }
    }
  }

  lemma PowerAtRange(n: nat, base: nat, d: nat, i: nat)
    requires n > 0
    ensures PowerAt(n, base, d, i) < n
  {
  }

  /** No prime is rejected, whatever the base. */
  lemma PrimePasses(n: nat, base: nat)
    requires N.Prime(n) && !N.Divides(n, base)
    ensures StrongProbablePrime(n, base)
  {
    hide Passes, Pow, Pow2;
    forall r: nat, d: nat {:trigger OddPart(n, r, d)} | OddPart(n, r, d) ensures Passes(n, base, r, d) {
      PrimePassesAt(n, base, r, d);
    }
  }

  lemma PrimePassesAt(n: nat, base: nat, r: nat, d: nat)
    requires N.Prime(n) && !N.Divides(n, base) && OddPart(n, r, d)
    ensures Passes(n, base, r, d)
  {
    hide Pow, Pow2, N.Divides;
    N.Fermat(n, base);
    OddPartTimes(n, r, d);
    assert PowerAt(n, base, d, r) == 1;
    hide PowerAt, OddPart, N.Prime;
    DownFromOne(n, base, d, r);
  }

  lemma OddPartTimes(n: nat, r: nat, d: nat)
    requires n > 1 && OddPart(n, r, d)
    ensures d * Pow2(r) == n - 1
  {
    hide Pow2;
  }

  /** One strong probable prime test: the result is exactly the definition. */
  method IsStrongProbablePrime(n: BigUInt, base: BigUInt) returns (result: bool)
    requires n.Valid() && base.Valid() && base.Value() > 1 && n.Value() > 0
    ensures result <==> StrongProbablePrime(n.Value(), base.Value())
  {
    hide BigUInt.Valid, BigUInt.Value, BigUInt.Words, BigUInt.Count, Pow, Pow2, StrongProbablePrime, Passes, PowerAt, OddPart,
         LeadingZeroBitCount, TrailingZeroBits;
    var one := new BigUInt.FromWord(1);
    var dec := Difference(n, one);
    var r := TrailingZeroBitCount(dec);
    var d := ShiftedRight(dec, r);
    ghost var nv, a, dv := n.Value(), base.Value(), d.Value();
    OddPartIs(nv, r, dv);
    OddPartUnique(nv, a, r, dv);
    var test := PowerMod(base, d, n);
    PowerAtZero(nv, a, dv);
    var isOne := Equal(test, one);
    var isDec := Equal(test, dec);
    if isOne || isDec {
      PassesNow(nv, a, r, dv, 0);
      return true;
    }
    result := false;
    if r > 0 {
      result := SquareUp(n, test, one, dec, r, a, dv);
    } else {
      NeverPasses(nv, a, r, dv);
    }
  }

  lemma OddPartIs(n: nat, r: nat, d: nat)
    requires n > 0 && d == (n - 1) / Pow2(r)
    requires n == 1 ==> r == 0
    requires n > 1 ==> TrailingZeroBits(n - 1, r)
    ensures OddPart(n, r, d)
    ensures r > 0 ==> n > 2
  {
    if r > 0 && n == 2 {
      Pow2Mono(1, r);
      assert Pow2(1) == 2;
      DivModUnique(1, 0, 1, Pow2(r));
      assert false;
    }
  }

  lemma PassesNow(n: nat, a: nat, r: nat, d: nat, i: nat)
    requires n > 0 && (i == 0 || i < r)
    requires PowerAt(n, a, d, i) == n - 1 || (i == 0 && PowerAt(n, a, d, 0) == 1)
    ensures Passes(n, a, r, d)
  {
  }

  lemma NeverPasses(n: nat, a: nat, r: nat, d: nat)
    requires n > 0 && PowerAt(n, a, d, 0) != 1
    requires forall j: nat :: j == 0 || j < r ==> PowerAt(n, a, d, j) != n - 1
    ensures !Passes(n, a, r, d)
  {
  }

  /** The squaring loop: false as soon as 1 is met, true as soon as -1 is. */
  method SquareUp(n: BigUInt, test0: BigUInt, one: BigUInt, dec: BigUInt, r: nat, ghost a: nat, ghost d: nat)
    returns (result: bool)
    requires n.Valid() && test0.Valid() && one.Valid() && dec.Valid() && one.Value() == 1 && n.Value() > 2
    requires dec.Value() == n.Value() - 1 && r > 0
    requires test0.Value() == PowerAt(n.Value(), a, d, 0) != 1 && test0.Value() != n.Value() - 1
    ensures result <==> Passes(n.Value(), a, r, d)
  {
    hide BigUInt.Valid, BigUInt.Value, BigUInt.Words, BigUInt.Count, Pow2, Passes, PowerAt, LeadingZeroBitCount;
    var normalized, shift := NormalizedForm(n);
    var test := new BigUInt.Copy(test0);
    ghost var nv := n.Value();
    for i := 1 to r
      invariant test.Valid() && fresh(test) && test != normalized && normalized.Valid()
      invariant NormalizedFor(normalized, shift, nv)
      invariant test.Value() == PowerAt(nv, a, d, i - 1)
      invariant forall j: nat :: j < i ==> PowerAt(nv, a, d, j) != nv - 1
    {
      PowerAtNext(nv, a, d, i - 1);
      test := MultiplyBy(test, test);
      FormRemainder(test, normalized, shift);
      var isOne := Equal(test, one);
      if isOne {
        forall j: nat | j < r ensures PowerAt(nv, a, d, j) != nv - 1 {
          if i <= j { StaysOne(nv, a, d, i, j); }
        }
        NeverPasses(nv, a, r, d);
        return false;
      }
      var isDec := Equal(test, dec);
      if isDec {
        PassesNow(nv, a, r, d, i);
        return true;
      }
    }
    NeverPasses(nv, a, r, d);
    return false;
  }

  const PRIMES: seq<Word> := [2, 3, 5, 7, 11, 13, 17, 19, 23, 29, 31, 37, 41]

  /** Bounds below which the first bases are taken to decide; what they rest on is a table. */
  const PSEUDO_PRIMES: seq<nat> := [
    2_047, 1_373_653, 25_326_001, 3_215_031_751, 2_152_302_898_747, 3_474_749_660_383,
    341_550_071_728_321, 341_550_071_728_321, 3_825_123_056_546_413_051, 3_825_123_056_546_413_051,
    3_825_123_056_546_413_051, 318665857834031151167461, 3317044064679887385961981
  ]

  const LAST_PSEUDO_PRIME: nat := 3317044064679887385961981

  /** The table holds exactly the primes up to 41. */
  lemma TablePrimes(p: nat)
    requires p <= 41
    ensures N.Prime(p) <==> p in PRIMES
  {
    N.PrimeIff(p);
    forall d: nat | 1 < d < p && p % d == 0 ensures p % 2 == 0 || p % 3 == 0 || p % 5 == 0 { SmallDivisor(p, d); }
    if p >= 2 && p !in PRIMES { assert p % 2 == 0 || p % 3 == 0 || p % 5 == 0; }
    if p in PRIMES && p <= 5 {
      forall d: nat | 1 < d < p ensures p % d != 0 { assert d == 2 || d == 3 || d == 4; }
    }
  }

  /** A divisor or its cofactor is at most 6. */
  lemma SmallDivisor(p: nat, d: nat)
    requires 1 < d < p <= 41 && p % d == 0
    ensures p % 2 == 0 || p % 3 == 0 || p % 5 == 0
  {
    var k := p / d;
    assert p == k * d;
    if k <= 1 { MulMono(k, 1, d); }
    if d <= 6 {
      assert d == 2 || d == 3 || d == 4 || d == 5 || d == 6;
    } else {
      if k >= 6 { MulMono(6, k, d); }
      assert k == 2 || k == 3 || k == 4 || k == 5;
    }
  }

  /** The bounds of the table, as it is published. */
  lemma TableBounds()
    ensures |PRIMES| == |PSEUDO_PRIMES| == 13 && PSEUDO_PRIMES[12] == LAST_PSEUDO_PRIME == 3317044064679887385961981
    ensures PSEUDO_PRIMES[0] == 2047 && PSEUDO_PRIMES[1] == 1373653 && PSEUDO_PRIMES[2] == 25326001
    ensures PSEUDO_PRIMES[3] == 3215031751 && PSEUDO_PRIMES[4] == 2152302898747 && PSEUDO_PRIMES[5] == 3474749660383
    ensures PSEUDO_PRIMES[6] == PSEUDO_PRIMES[7] == 341550071728321
    ensures PSEUDO_PRIMES[8] == PSEUDO_PRIMES[9] == PSEUDO_PRIMES[10] == 3825123056546413051
    ensures PSEUDO_PRIMES[11] == 318665857834031151167461
  {
  }

  /** Base j is tried when all bounds before it are too small. */
  ghost predicate BaseTried(n: nat, j: nat)
  {
    j < |PRIMES| && forall i: nat :: i < j ==> PSEUDO_PRIMES[i] <= n
  }

  ghost predicate FixedBasesPass(n: nat)
    requires n > 0
  {
    forall j: nat :: BaseTried(n, j) ==> StrongProbablePrime(n, PRIMES[j])
  }

  ghost predicate DrawnBasesPass(n: nat, draws: seq<nat>)
    requires n > 0
  {
    forall j: nat :: j < |draws| ==> StrongProbablePrime(n, draws[j] + 2)
  }

  /** No odd prime of the table divides n. */
  ghost predicate NoSmallFactor(n: nat)
  {
    forall i: nat :: 1 <= i < |PRIMES| ==> n % PRIMES[i] != 0
  }

  ghost predicate InTable(n: nat)
  {
    exists i: nat :: i < |PRIMES| && n == PRIMES[i]
  }

  /** What the test accepts, for the given random draws. */
  ghost predicate Accepted(n: nat, draws: seq<nat>)
  {
    || InTable(n)
    || (n > 3 && n % 2 == 1 && NoSmallFactor(n)
        && (if n < LAST_PSEUDO_PRIME then FixedBasesPass(n) else DrawnBasesPass(n, draws)))
  }

  /** The table index of a factor of a small odd number. */
  function SmallFactor(n: nat): (i: nat)
    requires 3 < n <= 41 && n % 2 == 1
    ensures 1 <= i < |PRIMES| && n % PRIMES[i] == 0
  {
    if n % 3 == 0 then 1
    else if n % 5 == 0 then 2
    else if n % 7 == 0 then 3
    else if n == 11 then 4
    else if n == 13 then 5
    else if n == 17 then 6
    else if n == 19 then 7
    else if n == 23 then 8
    else if n == 29 then 9
    else if n == 31 then 10
    else if n == 37 then 11
    else 12
  }

  lemma SmallNumbers(n: nat)
    requires 3 < n <= 41 && n % 2 == 1
    ensures !NoSmallFactor(n)
  {
    assert n % PRIMES[SmallFactor(n)] == 0;
  }

  lemma PrimeNotDivides(n: nat, base: nat)
    requires N.Prime(n) && 0 < base < n
    ensures StrongProbablePrime(n, base)
  {
    if N.Divides(n, base) {
      N.DividesAtMost(n, base);
    } else {
      PrimePasses(n, base);
    }
  }

  /** A prime is accepted for every choice of random draws. */
  lemma PrimeAccepted(n: nat, draws: seq<nat>)
    requires N.Prime(n)
    requires n >= LAST_PSEUDO_PRIME ==> forall j: nat :: j < |draws| ==> draws[j] < n - 2
    ensures Accepted(n, draws)
  {
    if !InTable(n) {
      assert PRIMES[0] == 2 && PRIMES[1] == 3;
      assert n % 2 == 1 by {
        if n % 2 == 0 { PrimeFactor(n, 2); }
      }
      forall i: nat | 1 <= i < |PRIMES| ensures n % PRIMES[i] != 0 {
        if n % PRIMES[i] == 0 { PrimeFactor(n, PRIMES[i]); }
      }
      if n <= 41 { SmallNumbers(n); }
      hide StrongProbablePrime;
      if n < LAST_PSEUDO_PRIME {
        forall j: nat | BaseTried(n, j) ensures StrongProbablePrime(n, PRIMES[j]) {
          PrimeNotDivides(n, PRIMES[j]);
        }
      } else {
        forall j: nat | j < |draws| ensures StrongProbablePrime(n, draws[j] + 2) {
          PrimeNotDivides(n, draws[j] + 2);
        }
      }
    }
  }

  lemma PrimeFactor(n: nat, p: nat)
    requires N.Prime(n) && p >= 2 && n % p == 0
    ensures p == n
  {
    N.DividesMod(p, n);
  }

  datatype Verdict = Accept | Reject | Undecided

  method TrialDivision(n: BigUInt) returns (verdict: Verdict)
    requires n.Valid() && n.Value() > 3 && n.Value() % 2 == 1
    ensures verdict == Accept ==> InTable(n.Value())
    ensures verdict == Reject ==> !InTable(n.Value()) && !NoSmallFactor(n.Value())
    ensures verdict == Undecided ==> !InTable(n.Value()) && NoSmallFactor(n.Value())
  {
    hide BigUInt.Valid, BigUInt.Value, BigUInt.Words, BigUInt.Count, Weight, Digit, DigitCount, Tried;
    ghost var nv := n.Value();
    TriedStart(nv);
    for i := 1 to |PRIMES|
      invariant Tried(nv, i)
    {
      var p := PRIMES[i];
      IsWord(nv, n.Count(), p);
      if n.Count() == 1 && n.Get(0) == p {
        TableEntry(nv, i);
        return Accept;
      }
      var q := new BigUInt.Copy(n);
      var remainder := DivideByWord(q, p);
      TriedNext(nv, i);
      if remainder == 0 {
        return Reject;
      }
    }
    TriedAll(nv);
    return Undecided;
  }

  ghost predicate Tried(n: nat, i: nat)
  {
    1 <= i <= |PRIMES| && n > 3 && n % 2 == 1
    && forall k: nat :: 1 <= k < i ==> n % PRIMES[k] != 0 && n != PRIMES[k]
  }

  lemma TriedStart(n: nat)
    requires n > 3 && n % 2 == 1
    ensures Tried(n, 1)
  {
  }

  lemma TableEntry(n: nat, i: nat)
    requires i < |PRIMES| && n == PRIMES[i]
    ensures InTable(n)
  {
  }

  lemma TriedNext(n: nat, i: nat)
    requires i < |PRIMES| && Tried(n, i) && n != PRIMES[i]
    ensures n % PRIMES[i] == 0 ==> !InTable(n) && !NoSmallFactor(n)
    ensures n % PRIMES[i] != 0 ==> Tried(n, i + 1)
  {
    if n % PRIMES[i] == 0 {
      forall k: nat | k < |PRIMES| ensures n != PRIMES[k] {
        if i < k { PrimesApart(i, k); }
      }
    }
  }

  lemma PrimesApart(i: nat, k: nat)
    requires 1 <= i < k < |PRIMES|
    ensures PRIMES[k] % PRIMES[i] != 0
  {
    assert PRIMES == [2, 3, 5, 7, 11, 13, 17, 19, 23, 29, 31, 37, 41];
  }

  lemma TriedAll(n: nat)
    requires Tried(n, |PRIMES|)
    ensures !InTable(n) && NoSmallFactor(n)
  {
    assert PRIMES[0] == 2;
  }

  lemma IsWord(v: nat, c: nat, p: Word)
    requires DigitCount(v, c)
    ensures p > 0 ==> (v == p <==> c == 1 && Digit(v, 0) == p)
  {
    OneDigit(v, c);
  }

  lemma OneDigit(v: nat, c: nat)
    requires DigitCount(v, c)
    ensures c <= 1 ==> v == Digit(v, 0)
    ensures c > 1 ==> v >= BASE
    ensures c == 0 <==> v == 0
    ensures Digit(v, 0) % 2 == v % 2
  {
    LowDigit(v);
    assert Weight(0) == 1 && Weight(1) == BASE;
    hide Digit;
    SmallCounts(v, c);
    hide Weight;
    if c > 1 { WeightMono(1, c - 1); }
  }

  lemma LowDigit(v: nat)
    ensures Digit(v, 0) == v % BASE && Digit(v, 0) % 2 == v % 2
  {
    assert Weight(0) == 1 && v / 1 == v;
    CongIntro(v, v % BASE, v / BASE * (BASE / 2), 2);
  }

  method PseudoPrime(i: nat) returns (r: BigUInt)
    requires i < |PSEUDO_PRIMES|
    ensures fresh(r) && r.Valid() && r.Value() == PSEUDO_PRIMES[i]
  {
    var v := PSEUDO_PRIMES[i];
    PseudoPrimeBound(i);
    r := new BigUInt.FromLowHigh(v % BASE, v / BASE);
  }

  lemma PseudoPrimeBound(i: nat)
    requires i < |PSEUDO_PRIMES|
    ensures PSEUDO_PRIMES[i] <= LAST_PSEUDO_PRIME
    ensures i == 12 ==> PSEUDO_PRIMES[i] == LAST_PSEUDO_PRIME
  {
  }

  method FixedBasesTest(n: BigUInt) returns (result: bool)
    requires n.Valid() && 0 < n.Value() < LAST_PSEUDO_PRIME
    ensures result <==> FixedBasesPass(n.Value())
  {
    hide BigUInt.Valid, BigUInt.Value, BigUInt.Words, BigUInt.Count, StrongProbablePrime;
    ghost var nv := n.Value();
    for i := 0 to |PSEUDO_PRIMES|
      invariant i > 0 ==> PSEUDO_PRIMES[i - 1] <= nv
      invariant forall k: nat :: k < i ==> PSEUDO_PRIMES[k] <= nv
      invariant forall j: nat :: j < i ==> StrongProbablePrime(nv, PRIMES[j])
    {
      var base := new BigUInt.FromWord(PRIMES[i]);
      BaseIsTried(nv, i);
      var passed := IsStrongProbablePrime(n, base);
      if !passed { return false; }
      var bound := PseudoPrime(i);
      PseudoPrimeBound(i);
      var below := Less(n, bound);
      if below {
        LastBase(nv, i);
        return true;
      }
    }
    return false;
  }

  lemma BaseIsTried(n: nat, i: nat)
    requires i < |PRIMES| && forall k: nat :: k < i ==> PSEUDO_PRIMES[k] <= n
    ensures BaseTried(n, i) && PRIMES[i] > 1
  {
  }

  lemma LastBase(n: nat, i: nat)
    requires 0 < n && i < |PRIMES| && n < PSEUDO_PRIMES[i]
    requires forall j: nat :: j <= i ==> StrongProbablePrime(n, PRIMES[j])
    ensures FixedBasesPass(n)
  {
    hide StrongProbablePrime;
    forall j: nat | BaseTried(n, j) ensures StrongProbablePrime(n, PRIMES[j]) {
      assert j <= i;
    }
  }

  method DrawnBasesTest(n: BigUInt, draws: seq<BigUInt>, ghost values: seq<nat>) returns (result: bool)
    requires n.Valid() && n.Value() > 0 && |values| == |draws|
    requires forall j: nat :: j < |draws| ==> draws[j].Valid() && draws[j].Value() == values[j]
    ensures result <==> DrawnBasesPass(n.Value(), values)
  {
    hide BigUInt.Valid, BigUInt.Value, BigUInt.Words, BigUInt.Count, StrongProbablePrime;
    var two := new BigUInt.FromWord(2);
    for i := 0 to |draws|
      invariant two.Valid() && two.Value() == 2
      invariant forall j: nat :: j < i ==> StrongProbablePrime(n.Value(), values[j] + 2)
    {
      var random := Addition.Sum(draws[i], two);
      var passed := IsStrongProbablePrime(n, random);
      if !passed { return false; }
    }
    return true;
  }

  /** The primality test. `draws` are the random integers below n - 2 that the rounds use: the
      theorem is about all of them. */
  method IsPrime(n: BigUInt, draws: seq<BigUInt>, ghost values: seq<nat>) returns (result: bool)
    requires n.Valid() && |values| == |draws|
    requires forall j: nat :: j < |draws| ==> draws[j].Valid() && draws[j].Value() == values[j]
    requires n.Value() >= LAST_PSEUDO_PRIME ==> forall j: nat :: j < |values| ==> values[j] < n.Value() - 2
    ensures result <==> Accepted(n.Value(), values)
    ensures result <==>
      || (exists i: nat :: i < |PRIMES| && n.Value() == PRIMES[i])
      || (n.Value() > 41 && (forall i: nat :: i < |PRIMES| ==> n.Value() % PRIMES[i] != 0)
          && (n.Value() < LAST_PSEUDO_PRIME ==>
                forall i: nat :: i < |PRIMES| && (i == 0 || PSEUDO_PRIMES[i - 1] <= n.Value()) ==> StrongProbablePrime(n.Value(), PRIMES[i]))
          && (n.Value() >= LAST_PSEUDO_PRIME ==> forall j: nat :: j < |values| ==> StrongProbablePrime(n.Value(), values[j] + 2)))
    ensures N.Prime(n.Value()) ==> result
  {
    AcceptedMeans(n.Value(), values);
    result := Decide(n, draws, values);
  }

  /** The bounds go up, so only the last one before a base counts. */
  lemma BaseTriedMeans(n: nat, j: nat)
    requires j < |PRIMES|
    ensures BaseTried(n, j) <==> j == 0 || PSEUDO_PRIMES[j - 1] <= n
  {
    if j > 0 && PSEUDO_PRIMES[j - 1] <= n {
      forall i: nat | i < j ensures PSEUDO_PRIMES[i] <= n { BoundsSorted(i, j - 1); }
    }
  }

  lemma {:induction false} BoundsSorted(i: nat, j: nat)
    requires i <= j < |PSEUDO_PRIMES|
    ensures PSEUDO_PRIMES[i] <= PSEUDO_PRIMES[j]
  {
    if i < j { BoundsSorted(i, j - 1); }
  }

  lemma AcceptedMeans(n: nat, draws: seq<nat>)
    ensures Accepted(n, draws) <==>
      || (exists i: nat :: i < |PRIMES| && n == PRIMES[i])
      || (n > 41 && (forall i: nat :: i < |PRIMES| ==> n % PRIMES[i] != 0)
          && (n < LAST_PSEUDO_PRIME ==>
                forall i: nat :: i < |PRIMES| && (i == 0 || PSEUDO_PRIMES[i - 1] <= n) ==> StrongProbablePrime(n, PRIMES[i]))
          && (n >= LAST_PSEUDO_PRIME ==> forall j: nat :: j < |draws| ==> StrongProbablePrime(n, draws[j] + 2)))
  {
    hide StrongProbablePrime;
    forall j: nat | j < |PRIMES| ensures BaseTried(n, j) <==> j == 0 || PSEUDO_PRIMES[j - 1] <= n { BaseTriedMeans(n, j); }
    hide BaseTried;
    assert PRIMES[0] == 2;
    if 3 < n <= 41 && n % 2 == 1 { SmallNumbers(n); }
  }

  method Decide(n: BigUInt, draws: seq<BigUInt>, ghost values: seq<nat>) returns (result: bool)
    requires n.Valid() && |values| == |draws|
    requires forall j: nat :: j < |draws| ==> draws[j].Valid() && draws[j].Value() == values[j]
    requires n.Value() >= LAST_PSEUDO_PRIME ==> forall j: nat :: j < |values| ==> values[j] < n.Value() - 2
    ensures result <==> Accepted(n.Value(), values)
    ensures N.Prime(n.Value()) ==> result
  {
    hide BigUInt.Valid, BigUInt.Value, BigUInt.Words, BigUInt.Count, Weight, Digit, DigitCount, InTable, NoSmallFactor,
         FixedBasesPass, DrawnBasesPass;
    ghost var nv := n.Value();
    OneDigit(nv, n.Count());
    TableRange(nv);
    if N.Prime(nv) { PrimeAccepted(nv, values); }
    if n.Count() <= 1 && n.Get(0) < 2 { return false; }
    if n.Count() == 1 && n.Get(0) < 4 { return true; }
    if n.Get(0) % 2 == 0 { return false; }
    var verdict := TrialDivision(n);
    if verdict == Accept { return true; }
    if verdict == Reject { return false; }
    var last := PseudoPrime(|PSEUDO_PRIMES| - 1);
    PseudoPrimeBound(12);
    var below := Less(n, last);
    if below {
      result := FixedBasesTest(n);
    } else {
      result := DrawnBasesTest(n, draws, values);
    }
  }

  lemma TableRange(n: nat)
    ensures InTable(n) ==> n >= 2 && (n % 2 == 1 || n == 2)
    ensures n == 2 || n == 3 ==> InTable(n)
  {
    assert PRIMES == [2, 3, 5, 7, 11, 13, 17, 19, 23, 29, 31, 37, 41];
    assert PRIMES[0] == 2 && PRIMES[1] == 3;
  }
}
