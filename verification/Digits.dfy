/** Base-2^64 digit sequences, least significant first, read as if extended by zeros. */
module Digits {
  import opened Arith

  const BASE := 0x1_0000_0000_0000_0000

  type Word = x: int | 0 <= x < BASE

  /** The weight BASE^i of the digit at index i. */
  function Weight(i: nat): (r: nat)
    ensures r > 0
  {
    if i == 0 then 1 else BASE * Weight(i - 1)
  }

  lemma {:induction false} WeightAdd(i: nat, j: nat)
    ensures Weight(i + j) == Weight(i) * Weight(j)
  {
    if i > 0 {
      WeightAdd(i - 1, j);
      MulAssoc(BASE, Weight(i - 1), Weight(j));
    } else {
      assert Weight(i) == 1;
    }
  }

  lemma WeightMono(i: nat, j: nat)
    requires i <= j
    ensures Weight(i) <= Weight(j)
  {
    WeightAdd(i, j - i);
    MulMono(1, Weight(j - i), Weight(i));
  }

  lemma WeightStep(i: nat)
    ensures Weight(i + 1) == BASE * Weight(i)
  {
  }

  /** The digit at index i, zero beyond the stored ones. */
  function At(w: seq<Word>, i: nat): Word
  {
    if i < |w| then w[i] else 0
  }

  /** The number denoted by the first n digits. */
  function Sum(w: seq<Word>, n: nat): nat
  {
    if n == 0 then 0 else MulNat(At(w, n - 1), Weight(n - 1)); Sum(w, n - 1) + At(w, n - 1) * Weight(n - 1)
  }

  function Nat(w: seq<Word>): nat { Sum(w, |w|) }

  /** The i-th base-2^64 digit of a number. */
  function Digit(v: nat, i: nat): Word
  {
    (v / Weight(i)) % BASE
  }

  /** v with the digit at index i replaced by d. */
  function Put(v: nat, i: nat, d: Word): int
  {
    v + (d - Digit(v, i)) * Weight(i)
  }

  /** c is the number of digits of v without leading zeros. */
  ghost predicate DigitCount(v: nat, c: nat)
  {
    v < Weight(c) && (c > 0 ==> Weight(c - 1) <= v)
  }

  lemma DigitCountMeans(v: nat, c: nat)
    ensures DigitCount(v, c) <==> v < Weight(c) && (c == 0 || v >= Weight(c - 1))
  {
    hide Weight;
  }

  predicate Canonical(w: seq<Word>) { w == [] || w[|w| - 1] != 0 }

  lemma NextDigitBound(s: int, d: int, p: int)
    requires 0 <= s < p && 0 <= d < BASE
    ensures 0 <= s + d * p < BASE * p
  {
    MulMono(d, BASE - 1, p);
    MulMono(0, d, p);
  }

  lemma {:induction false} SumBound(w: seq<Word>, n: nat)
    ensures Sum(w, n) < Weight(n)
  {
    if n > 0 {
      SumBound(w, n - 1);
      WeightStep(n - 1);
      NextDigitBound(Sum(w, n - 1), At(w, n - 1), Weight(n - 1));
    }
  }

  lemma {:induction false} SumCongruent(w: seq<Word>, w': seq<Word>, n: nat)
    requires forall i :: 0 <= i < n ==> At(w, i) == At(w', i)
    ensures Sum(w, n) == Sum(w', n)
  {
    if n > 0 { SumCongruent(w, w', n - 1); }
  }

  lemma {:induction false} SumBeyond(w: seq<Word>, n: nat)
    requires n >= |w|
    ensures Sum(w, n) == Nat(w)
  {
    if n > |w| { SumBeyond(w, n - 1); }
  }

  lemma HighStep(h: int, d: int, p: int, q: int, s: int, x: int)
    requires x == s + h * p
    ensures x + d * (p * q) == s + (h + d * q) * p
  {
  }

  /** The digits from i on are a multiple of BASE^i. */
  lemma {:induction false} SumHigh(w: seq<Word>, i: nat, n: nat) returns (h: nat)
    requires i <= n
    ensures Sum(w, n) == Sum(w, i) + h * Weight(i)
  {
    if i == n {
      h := 0;
    } else {
      var h0 := SumHigh(w, i, n - 1);
      WeightAdd(i, n - 1 - i);
      MulNat(At(w, n - 1), Weight(n - 1 - i));
      h := h0 + At(w, n - 1) * Weight(n - 1 - i);
      HighStep(h0, At(w, n - 1), Weight(i), Weight(n - 1 - i), Sum(w, i), Sum(w, n - 1));
    }
  }

  lemma AtSplit(s: int, d: int, h: int, p: int)
    ensures (s + d * p) + h * (BASE * p) == s + (h * BASE + d) * p
  {
  }

  lemma DigitOf(v: nat, i: nat, s: int, d: Word, h: int)
    requires 0 <= s < Weight(i) && v == (s + d * Weight(i)) + h * (BASE * Weight(i))
    ensures Digit(v, i) == d && v % Weight(i) == s
  {
    AtSplit(s, d, h, Weight(i));
    DivModUnique(v, h * BASE + d, s, Weight(i));
    DivModUnique(h * BASE + d, h, d, BASE);
  }

  lemma SumStep(w: seq<Word>, i: nat)
    ensures Sum(w, i + 1) == Sum(w, i) + At(w, i) * Weight(i)
  {
  }

  /** The stored digits are the digits of the number. */
  lemma AtIsDigit(w: seq<Word>, i: nat)
    ensures At(w, i) == Digit(Nat(w), i)
    ensures Sum(w, i) == Nat(w) % Weight(i)
  {
    hide Sum, Weight, At, Digit, Nat;
    var n := if i < |w| then |w| else i + 1;
    SumBeyond(w, n);
    var h := SumHigh(w, i + 1, n);
    SumBound(w, i);
    WeightStep(i);
    SumStep(w, i);
    DigitOf(Nat(w), i, Sum(w, i), At(w, i), h);
  }

  /** Changing one digit changes the number by that digit's weight. */
  lemma {:induction false} SumSet(w: seq<Word>, w': seq<Word>, i: nat, x: Word, n: nat)
    requires forall j: nat :: At(w', j) == (if j == i then x else At(w, j))
    ensures Sum(w', n) == Sum(w, n) + (if i < n then (x - At(w, i)) * Weight(i) else 0)
  {
    if n > 0 {
      SumSet(w, w', i, x, n - 1);
      if i == n - 1 {
        SetWeight(x, At(w, i), Weight(i));
      }
    }
  }

  lemma SetWeight(x: int, y: int, p: int)
    ensures x * p == y * p + (x - y) * p
  {
  }

  lemma NatSet(w: seq<Word>, w': seq<Word>, i: nat, x: Word)
    requires forall j: nat :: At(w', j) == (if j == i then x else At(w, j))
    ensures Nat(w') == Nat(w) + (x - At(w, i)) * Weight(i)
  {
    var n := |w| + |w'| + i + 1;
    SumBeyond(w, n);
    SumBeyond(w', n);
    SumSet(w, w', i, x, n);
  }

  /** Two digit sequences that read alike denote the same number. */
  lemma NatCongruent(w: seq<Word>, w': seq<Word>)
    requires forall j: nat :: At(w, j) == At(w', j)
    ensures Nat(w) == Nat(w')
  {
    var n := |w| + |w'|;
    SumBeyond(w, n);
    SumBeyond(w', n);
    SumCongruent(w, w', n);
  }

  /** Without leading zeros the length is the digit count. */
  lemma CanonicalCount(w: seq<Word>)
    requires Canonical(w)
    ensures DigitCount(Nat(w), |w|)
  {
    SumBound(w, |w|);
    if w != [] {
      var n := |w| - 1;
      PowPositive(BASE, n);
      MulMono(1, At(w, n), Weight(n));
    }
  }

  lemma CountBelow(v: nat, c: nat)
    requires DigitCount(v, c)
    ensures v < Weight(c)
  {
  }

  lemma CountAtMost(v: nat, c: nat, n: nat)
    requires DigitCount(v, c) && v < Weight(n)
    ensures c <= n
  {
    if n < c { WeightMono(n, c - 1); }
  }

  /** A number has only one digit count. */
  lemma CountUnique(v: nat, c: nat, c': nat)
    requires DigitCount(v, c) && DigitCount(v, c')
    ensures c == c'
  {
    if c < c' { WeightMono(c, c' - 1); }
    if c' < c { WeightMono(c', c - 1); }
  }

  /** Peeling the digit at i off a number. */
  lemma DigitSplit(v: nat, i: nat)
    ensures Weight(i + 1) == BASE * Weight(i)
    ensures v % Weight(i + 1) == v % Weight(i) + Digit(v, i) * Weight(i)
    ensures v / Weight(i) == (v / Weight(i + 1)) * BASE + Digit(v, i)
    ensures v == v % Weight(i) + (v / Weight(i)) * Weight(i)
  {
    WeightStep(i);
    var p := Weight(i);
    var y, s := v / p, v % p;
    var d, h := y % BASE, y / BASE;
    assert v == s + y * p && y == h * BASE + d;
    assert Digit(v, i) == d;
    hide Weight, Digit;
    AtSplit(s, d, h, p);
    NextDigitBound(s, d, p);
    DivModUnique(v, h, s + d * p, BASE * p);
  }

  lemma DigitBeyond(v: nat, c: nat, i: nat)
    requires v < Weight(c) && i >= c
    ensures Digit(v, i) == 0 && v / Weight(i) == 0 && v % Weight(i) == v
  {
    WeightMono(c, i);
    DivModUnique(v, 0, v, Weight(i));
  }

  /** Digits of the part of a number from index lo on. */
  lemma {:induction false} ShiftedSum(w: seq<Word>, r: seq<Word>, lo: nat, n: nat)
    requires forall j: nat :: j < n ==> At(r, j) == At(w, lo + j)
    ensures Sum(w, lo + n) == Sum(w, lo) + Sum(r, n) * Weight(lo)
  {
    if n > 0 {
      ShiftedSum(w, r, lo, n - 1);
      WeightAdd(lo, n - 1);
      assert lo + n - 1 == lo + (n - 1);
      ShiftedStep(Sum(r, n - 1), At(r, n - 1), Weight(lo), Weight(n - 1));
    } else {
      assert Sum(r, 0) * Weight(lo) == 0;
    }
  }

  lemma ShiftedStep(s: int, d: int, p: int, q: int)
    ensures s * p + d * (p * q) == (s + d * q) * p
  {
  }

  /** Reading r off w at lo .. lo+n gives (Nat(w) / BASE^lo) mod BASE^n. */
  lemma NatOfRange(w: seq<Word>, r: seq<Word>, lo: nat, n: nat)
    requires forall j: nat :: At(r, j) == (if j < n then At(w, lo + j) else 0)
    ensures Nat(r) == (Nat(w) / Weight(lo)) % Weight(n)
  {
    hide Sum, Weight, At, Nat;
    var m := |w| + |r| + lo + n;
    SumBeyond(w, m);
    SumBeyond(r, n + |r|);
    SumZeros(r, n, n + |r|);
    var h := SumHigh(w, lo + n, m);
    ShiftedSum(w, r, lo, n);
    WeightAdd(lo, n);
    SumBound(w, lo);
    SumBound(r, n);
    RangeSplit(Sum(w, lo), Sum(r, n), h, Weight(lo), Weight(n), Nat(w));
  }

  lemma {:induction false} SumZeros(r: seq<Word>, n: nat, m: nat)
    requires n <= m && forall j: nat :: j >= n ==> At(r, j) == 0
    ensures Sum(r, m) == Sum(r, n)
  {
    if n < m { SumZeros(r, n, m - 1); }
  }

  lemma RangeSplit(s: int, r: int, h: int, p: int, q: int, v: int)
    requires 0 <= s < p && 0 <= r < q && v == (s + r * p) + h * (p * q)
    ensures (v / p) % q == r
  {
    RangeFactor(s, r, h, p, q);
    DivModUnique(v, h * q + r, s, p);
    DivModUnique(h * q + r, h, r, q);
  }

  lemma RangeFactor(s: int, r: int, h: int, p: int, q: int)
    ensures (s + r * p) + h * (p * q) == (h * q + r) * p + s
  {
    assert h * (p * q) == (h * q) * p;
  }
}
