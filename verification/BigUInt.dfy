/** The storage of arbitrary-precision integers: two inline words, a slice of a word array,
    or a whole word array, all read as one zero-extended digit sequence. */
module BigUInts {
  import opened Arith
  import opened Digits

  datatype Kind =
    | Inline(w0: Word, w1: Word)
    | Slice(from: nat, to: nat)
    | Array

  /** Drop leading zero digits. */
  function Trim(w: seq<Word>): (r: seq<Word>)
    ensures Canonical(r) && |r| <= |w|
    ensures forall j: nat :: At(r, j) == At(w, j)
  {
    if w == [] || w[|w| - 1] != 0 then w else Trim(w[..|w| - 1])
  }

  class BigUInt {
    var kind: Kind
    var storage: seq<Word>

    /** Representation invariant: no leading zero digit, inline values own no storage, and a
        slice lies inside its storage and is longer than what fits inline. */
    predicate Valid()
      reads this
    {
      match kind
      case Inline(_, _) => storage == []
      case Slice(from, to) => from + 3 <= to <= |storage| && storage[to - 1] != 0
      case Array => Canonical(storage)
    }

    /** The digits, without leading zeros. */
    ghost function Words(): (w: seq<Word>)
      requires Valid()
      reads this
      ensures Canonical(w)
    {
      match kind
      case Inline(w0, w1) => Trim([w0, w1])
      case Slice(from, to) => storage[from..to]
      case Array => storage
    }

    /** The number. */
    ghost function Value(): nat
      requires Valid()
      reads this
    {
      Nat(Words())
    }

    constructor ()
      ensures Valid() && Value() == 0 && Words() == []
    {
      kind := Inline(0, 0);
      storage := [];
    }

    constructor FromWord(w: Word)
      ensures Valid() && Words() == Trim([w]) && Value() == w
    {
      kind := Inline(w, 0);
      storage := [];
      new;
      TrimLow(w, 0);
    }

    constructor FromLowHigh(low: Word, high: Word)
      ensures Valid() && Words() == Trim([low, high]) && Value() == low + high * BASE
    {
      kind := Inline(low, high);
      storage := [];
      new;
      PairValue(low, high);
    }

    constructor FromWords(words: seq<Word>)
      ensures Valid() && Words() == Trim(words)
    {
      kind := Array;
      storage := words;
      new;
      Normalize();
    }

    constructor FromSlice(words: seq<Word>, from: nat, to: nat)
      requires from <= to <= |words|
      ensures Valid() && Words() == Trim(words[from..to])
      ensures from + 3 <= to && to - from < |words| && words[to - 1] != 0 ==> kind == Slice(from, to)
    {
      kind := Slice(from, to);
      storage := words;
      new;
      Normalize();
    }

    /** A Swift value copy. */
    constructor Copy(x: BigUInt)
      requires x.Valid()
      ensures Valid() && Words() == x.Words() && Value() == x.Value()
    {
      kind := x.kind;
      storage := x.storage;
    }

    predicate IsZero()
      requires Valid()
      reads this
      ensures IsZero() <==> Value() == 0
    {
      ZeroValue(Words());
      match kind
      case Inline(w0, w1) => TrimPair(w0, w1); w0 == 0 && w1 == 0
      case Slice(_, _) => false
      case Array => storage == []
    }

    function Count(): (c: nat)
      requires Valid()
      reads this
      ensures c == |Words()| && DigitCount(Value(), c)
    {
      CanonicalCount(Words());
      match kind
      case Inline(w0, w1) => TrimPair(w0, w1); if w1 != 0 then 2 else if w0 != 0 then 1 else 0
      case Slice(from, to) => to - from
      case Array => |storage|
    }

    /** The subscript getter. */
    function Get(index: nat): (w: Word)
      requires Valid()
      reads this
      ensures w == At(Words(), index) && w == Digit(Value(), index)
    {
      AtIsDigit(Words(), index);
      match kind
      case Inline(w0, w1) => if index == 0 then w0 else if index == 1 then w1 else 0
      case Slice(from, to) => if index < to - from then storage[from + index] else 0
      case Array => if index < |storage| then storage[index] else 0
    }

    /** `x = y` on values. */
    method Assign(x: BigUInt)
      requires x.Valid()
      modifies this
      ensures Valid() && Words() == old(x.Words()) && Value() == old(x.Value())
    {
      kind, storage := x.kind, x.storage;
    }

    method EnsureArray()
      requires Valid()
      modifies this
      ensures Valid() && kind == Array && storage == old(Words())
    {
      match kind {
        case Inline(w0, w1) =>
          kind := Array;
          storage := if w1 != 0 then [w0, w1] else if w0 != 0 then [w0] else [];
          TrimPair(w0, w1);
        case Slice(from, to) =>
          kind := Array;
          storage := storage[from..to];
        case Array =>
      }
    }

    /** Only the digits matter here: the requested capacity is not modelled. */
    method ReserveCapacity(minimumCapacity: nat)
      requires Valid()
      modifies this
      ensures Valid() && kind == Array && storage == old(Words())
    {
      match kind {
        case Inline(w0, w1) =>
          kind := Array;
          TrimPair(w0, w1);
          if w1 != 0 {
            storage := storage + [w0];
            storage := storage + [w1];
          } else if w0 != 0 {
            storage := storage + [w0];
          }
        case Slice(from, to) =>
          kind := Array;
          storage := storage[from..to];
        case Array =>
      }
    }

    /** Where the digits of a slice end, without its leading zeros. */
    method SliceEnd(start: nat, to0: nat) returns (to: nat)
      requires start <= to0 <= |storage|
      ensures start <= to <= to0 && Trim(storage[start..to]) == Trim(storage[start..to0])
      ensures start < to ==> storage[to - 1] != 0
    {
      to := to0;
      while start < to && storage[to - 1] == 0
        invariant start <= to <= to0
        invariant Trim(storage[start..to]) == Trim(storage[start..to0])
      {
        TrimDrop(storage, start, to);
        to := to - 1;
      }
    }

    /** Drop the leading zeros of an array. */
    method DropZeros()
      modifies this`storage
      ensures storage == Trim(old(storage))
    {
      ghost var w := storage;
      while storage != [] && storage[|storage| - 1] == 0
        invariant Trim(storage) == Trim(w)
        decreases |storage|
      {
        storage := storage[..|storage| - 1];
      }
    }

    /** Drop leading zeros; turn slices of at most two digits into inline values. */
    method Normalize()
      requires kind.Inline? ==> storage == []
      requires kind.Slice? ==> kind.from <= kind.to <= |storage|
      modifies this
      ensures Valid()
      ensures old(kind).Inline? ==> Words() == old(Trim([kind.w0, kind.w1]))
      ensures old(kind).Slice? ==> Words() == old(Trim(storage[kind.from..kind.to]))
      ensures old(kind).Array? ==> Words() == Trim(old(storage)) && kind == Array
      ensures old(Valid() && kind.Slice? && kind.to - kind.from < |storage|) ==> kind == old(kind)
    {
      match kind {
        case Slice(start, to0) =>
          var to := SliceEnd(start, to0);
          SliceSettled(storage, start, to);
          if to - start == 0 {
            kind := Inline(0, 0);
            storage := [];
          } else if to - start == 1 {
            kind := Inline(storage[start], 0);
            storage := [];
          } else if to - start == 2 {
            kind := Inline(storage[start], storage[start + 1]);
            storage := [];
          } else if to - start == |storage| {
            kind := Array;
          } else {
            kind := Slice(start, to);
          }
        case Array =>
          DropZeros();
        case Inline(_, _) =>
      }
    }

    /** Set this integer to x, keeping an array representation when there is one. */
    method Load(x: BigUInt)
      requires Valid() && x.Valid() && x != this
      modifies this
      ensures Valid() && Words() == old(x.Words()) && Value() == old(x.Value())
    {
      match kind {
        case Inline(_, _) => kind, storage := x.kind, x.storage;
        case Slice(_, _) => kind, storage := x.kind, x.storage;
        case Array => storage := x.CopyWords();
      }
    }

    /** The digits as an array, as the `words` collection yields them. */
    method CopyWords() returns (w: seq<Word>)
      requires Valid()
      ensures w == Words()
    {
      w := [];
      for i := 0 to Count()
        invariant w == Words()[..i]
      {
        w := w + [Get(i)];
      }
    }

    method Replace(index: nat, word: Word)
      requires Valid() && index < |Words()|
      modifies this
      ensures Valid()
      ensures forall j: nat :: At(Words(), j) == (if j == index then word else old(At(Words(), j)))
    {
      EnsureArray();
      storage := storage[index := word];
      if word == 0 && index == |storage| - 1 {
        Normalize();
      }
    }

    method Extend(index: nat, word: Word)
      requires Valid() && index >= |Words()|
      modifies this
      ensures Valid()
      ensures forall j: nat :: At(Words(), j) == (if j == index then word else old(At(Words(), j)))
    {
      if word == 0 { return; }
      ReserveCapacity(index + 1);
      storage := storage + seq(index - |storage|, _ => 0);
      storage := storage + [word];
    }

    /** The subscript setter: whatever the kind, one digit of the zero-extended sequence
        changes, and so the number changes by that digit's weight. */
    method Set(index: nat, word: Word)
      requires Valid()
      modifies this
      ensures Valid()
      ensures forall j: nat :: At(Words(), j) == (if j == index then word else old(At(Words(), j)))
      ensures Value() == Put(old(Value()), index, word)
    {
      ghost var w := Words();
      if kind.Inline? && index == 0 {
        kind := Inline(word, kind.w1);
      } else if kind.Inline? && index == 1 {
        kind := Inline(kind.w0, word);
      } else if kind.Slice? && index < kind.to - kind.from {
        Replace(index, word);
      } else if kind.Array? && index < |storage| {
        Replace(index, word);
      } else {
        Extend(index, word);
      }
      NatSet(w, Words(), index, word);
      AtIsDigit(w, index);
    }

    /** The integer made of the digits lo .. hi-1. */
    method Extract(lo: nat, hi: nat) returns (r: BigUInt)
      requires Valid() && lo <= hi
      ensures fresh(r) && r.Valid()
      ensures IsRange(Words(), r.Words(), lo, hi)
      ensures r.Value() == (Value() / Weight(lo)) % Weight(hi - lo)
    {
      hide IsRange, Trim, Nat, Canonical, Weight;
      if kind.Inline? {
        var l, h := Min(lo, 2), Min(hi, 2);
        if l == 0 && h == 2 {
          r := new BigUInt.FromLowHigh(kind.w0, kind.w1);
        } else if l == 0 && h == 1 {
          r := new BigUInt.FromWord(kind.w0);
        } else if l == 1 && h == 2 {
          r := new BigUInt.FromWord(kind.w1);
        } else {
          r := new BigUInt();
        }
        RangeOfPair(kind.w0, kind.w1, r.Words(), lo, hi);
      } else if kind.Slice? {
        var s := Min(kind.to, kind.from + lo);
        var e := if hi > kind.to - kind.from then kind.to else kind.from + hi;
        e := if e < s then s else e;
        r := new BigUInt.FromSlice(storage, s, e);
        RangeOfSlice(storage, kind.from, kind.to, s, e, lo, hi);
      } else {
        var l, h := Min(lo, |storage|), Min(hi, |storage|);
        r := new BigUInt.FromSlice(storage, l, h);
        assert storage[0..|storage|] == storage;
        RangeOfSlice(storage, 0, |storage|, l, h, lo, hi);
      }
      RangeValue(Words(), r.Words(), lo, hi);
    }

    /** Index of the digit in the middle. */
    function MiddleIndex(): (m: nat)
      requires Valid()
      reads this
      ensures m == (Count() + 1) / 2
    {
      (Count() + 1) / 2
    }

    /** Low and high half: low + high * BASE^mid is the number again. */
    method Split() returns (high: BigUInt, low: BigUInt)
      requires Valid() && Count() > 1
      ensures fresh(high) && fresh(low) && high.Valid() && low.Valid() && high != low
      ensures low.Value() == Value() % Weight(MiddleIndex())
      ensures high.Value() == Value() / Weight(MiddleIndex())
      ensures Value() == low.Value() + high.Value() * Weight(MiddleIndex())
      ensures low.Count() <= MiddleIndex() && high.Count() == Count() - MiddleIndex()
    {
      hide Weight, IsRange, Nat, At, Digit, Canonical, DigitCount, Words, Valid;
      var mid := MiddleIndex();
      high := Extract(mid, Count());
      low := Extract(0, mid);
      CountBounds();
      SplitValue(Value(), mid, Count());
      SplitCounts(Words(), high.Words(), low.Words(), mid);
    }

    lemma CountBounds()
      requires Valid()
      ensures Value() < Weight(Count())
      ensures Count() == |Words()|
    {
    }

    /** Divide by BASE^amount. For a slice the amount must leave a digit: the code otherwise
        resets the kind but not the storage, and the result breaks the invariant. */
    method ShiftRightWords(amount: nat)
      requires Valid()
      modifies this
      ensures Valid() <==> (old(kind.Slice?) && amount > 0 ==> amount < old(Count()))
      ensures Valid() ==> forall j: nat :: At(Words(), j) == old(At(Words(), amount + j))
      ensures Valid() ==> Value() == old(Value()) / Weight(amount)
    {
      ghost var w := Words();
      ShiftedDown(w, amount);
      if amount == 0 { return; }
      match kind {
        case Inline(_, w1) =>
          if amount == 1 {
            kind := Inline(w1, 0);
          } else {
            kind := Inline(0, 0);
          }
        case Slice(from, to) =>
          var s := from + amount;
          if s >= to {
            kind := Inline(0, 0);
            return;
          } else {
            kind := Slice(s, to);
            Normalize();
          }
        case Array =>
          if amount >= |storage| {
            storage := [];
          } else {
            storage := storage[amount..];
          }
      }
      ShiftedDownNat(w, Words(), amount);
    }

    /** Multiply by BASE^amount. */
    method ShiftLeftWords(amount: nat)
      requires Valid()
      modifies this
      ensures Valid()
      ensures forall j: nat :: At(Words(), j) == (if j < amount then 0 else old(At(Words(), j - amount)))
      ensures Value() == old(Value()) * Weight(amount)
    {
      ghost var w := Words();
      if amount == 0 || IsZero() {
        ShiftedUpTrivial(w, amount);
        return;
      }
      match kind {
        case Inline(w0, w1) =>
          if w1 == 0 && amount == 1 {
            kind := Inline(0, w0);
          } else {
            TrimPair(w0, w1);
            storage := storage + seq(amount, _ => 0);
            storage := storage + [w0];
            if w1 != 0 {
              storage := storage + [w1];
            }
            kind := Array;
          }
        case Slice(from, to) =>
          storage := seq(amount, _ => 0) + storage[from..to];
          kind := Array;
        case Array =>
          storage := seq(amount, _ => 0) + storage;
      }
      ShiftedUpNat(w, Words(), amount);
    }
  }

  // ----- digit-sequence facts -----

  lemma TrimDrop(w: seq<Word>, from: nat, to: nat)
    requires from < to <= |w| && w[to - 1] == 0
    ensures Trim(w[from..to]) == Trim(w[from..to - 1])
  {
    var s := w[from..to];
    assert s[|s| - 1] == 0;
    assert s[..|s| - 1] == w[from..to - 1];
  }

  /** What each case of `Normalize` stores, once a slice does not end in zero. */
  lemma SliceSettled(w: seq<Word>, from: nat, to: nat)
    requires from <= to <= |w| && (from < to ==> w[to - 1] != 0)
    ensures Trim(w[from..to]) == w[from..to]
    ensures to - from == 0 ==> Trim([0, 0]) == w[from..to]
    ensures to - from == 1 ==> Trim([w[from], 0]) == w[from..to]
    ensures to - from == 2 ==> Trim([w[from], w[from + 1]]) == w[from..to]
    ensures to - from == |w| ==> w == w[from..to]
  {
    var s := w[from..to];
    assert s != [] ==> s[|s| - 1] == w[to - 1];
    if to - from == 0 {
      TrimPair(0, 0);
    } else if to - from == 1 {
      TrimPair(w[from], 0);
      assert s == [w[from]];
    } else if to - from == 2 {
      assert s == [w[from], w[from + 1]];
    }
  }

  lemma TrimPair(w0: Word, w1: Word)
    ensures Trim([w0, w1]) == (if w1 != 0 then [w0, w1] else if w0 != 0 then [w0] else [])
  {
    assert [w0, w1][..1] == [w0];
    assert [w0][..0] == [];
  }

  lemma TrimLow(w0: Word, w1: Word)
    ensures Trim([w0]) == Trim([w0, 0]) && Nat(Trim([w0])) == w0
  {
    TrimPair(w0, 0);
    assert [w0][..0] == [];
    assert Sum([w0], 1) == Sum([w0], 0) + At([w0], 0) * Weight(0);
  }

  lemma PairValue(w0: Word, w1: Word)
    ensures Nat(Trim([w0, w1])) == w0 + w1 * BASE
  {
    var w := [w0, w1];
    NatCongruent(Trim(w), w);
    assert Weight(0) == 1 && Weight(1) == BASE;
    assert Sum(w, 2) == Sum(w, 1) + At(w, 1) * Weight(1);
    assert Sum(w, 1) == Sum(w, 0) + At(w, 0) * Weight(0);
  }

  lemma ZeroValue(w: seq<Word>)
    requires Canonical(w)
    ensures Nat(w) == 0 <==> w == []
  {
    CanonicalCount(w);
  }

  lemma QuotientBelow(v: int, p: int, q: int)
    requires 0 <= v < p * q && p > 0 && q > 0
    ensures 0 <= v / p < q
    ensures (v / p) % q == v / p
    ensures v == v % p + (v / p) * p
  {
    var y := v / p;
    assert v == y * p + v % p;
    if y < 0 { MulMono(y, -1, p); }
    if y >= q { MulMono(q, y, p); }
    DivModUnique(y, 0, y, q);
  }

  lemma SplitValue(v: nat, mid: nat, c: nat)
    requires mid <= c && v < Weight(c)
    ensures (v / Weight(mid)) % Weight(c - mid) == v / Weight(mid)
    ensures (v / Weight(0)) % Weight(mid - 0) == v % Weight(mid)
    ensures v == v % Weight(mid) + (v / Weight(mid)) * Weight(mid)
  {
    assert Weight(0) == 1;
    hide Weight;
    WeightAdd(mid, c - mid);
    assert mid + (c - mid) == c;
    QuotientBelow(v, Weight(mid), Weight(c - mid));
  }

  lemma LengthFrom(w: seq<Word>, n: nat)
    requires Canonical(w) && forall j: nat :: j >= n ==> At(w, j) == 0
    ensures |w| <= n
  {
    if |w| > 0 { assert At(w, |w| - 1) != 0; }
  }

  lemma SplitCounts(w: seq<Word>, high: seq<Word>, low: seq<Word>, mid: nat)
    requires Canonical(w) && Canonical(high) && Canonical(low) && 0 < mid < |w|
    requires IsRange(w, high, mid, |w|) && IsRange(w, low, 0, mid)
    ensures |high| == |w| - mid && |low| <= mid
  {
    LengthFrom(high, |w| - mid);
    LengthFrom(low, mid);
    assert At(high, |w| - mid - 1) != 0;
  }

  /** The state that `ShiftRightWords` warns about can be reached: a slice shifted by its whole
      length becomes inline but keeps its storage. */
  method ShiftWholeSlice() returns (x: BigUInt)
    ensures fresh(x) && !x.Valid()
  {
    x := new BigUInt.FromSlice([1, 1, 1, 1], 0, 3);
    x.ShiftRightWords(x.Count());
  }

  /** r reads as the digits lo .. hi-1 of w. */
  ghost predicate IsRange(w: seq<Word>, r: seq<Word>, lo: nat, hi: nat)
  {
    forall j: nat :: At(r, j) == (if lo + j < hi then At(w, lo + j) else 0)
  }

  lemma RangeOfPair(w0: Word, w1: Word, r: seq<Word>, lo: nat, hi: nat)
    requires lo <= hi
    requires lo == 0 && hi >= 2 ==> r == Trim([w0, w1])
    requires lo == 0 && hi == 1 ==> r == Trim([w0])
    requires lo == 1 && hi >= 2 ==> r == Trim([w1])
    requires lo == hi || lo >= 2 ==> r == []
    ensures IsRange(Trim([w0, w1]), r, lo, hi)
  {
    forall j: nat
      ensures At(r, j) == (if lo + j < hi then At(Trim([w0, w1]), lo + j) else 0)
    {
      PairAt(w0, w1, lo + j);
      if lo == 0 && hi >= 2 {
      } else if lo == hi || lo >= 2 {
      } else if lo == 0 {
        assert At(Trim([w0]), j) == At([w0], j);
      } else {
        assert At(Trim([w1]), j) == At([w1], j);
      }
    }
  }

  lemma PairAt(w0: Word, w1: Word, j: nat)
    ensures At(Trim([w0, w1]), j) == (if j == 0 then w0 else if j == 1 then w1 else 0)
  {
    assert At(Trim([w0, w1]), j) == At([w0, w1], j);
  }

  lemma RangeOfSlice(storage: seq<Word>, from: nat, to: nat, s: nat, e: nat, lo: nat, hi: nat)
    requires from <= to <= |storage| && lo <= hi
    requires s == Min(to, from + lo)
    requires e == (if hi > to - from then if to < s then s else to else if from + hi < s then s else from + hi)
    ensures s <= e <= to
    ensures IsRange(storage[from..to], Trim(storage[s..e]), lo, hi)
  {
    forall j: nat
      ensures At(Trim(storage[s..e]), j) == (if lo + j < hi then At(storage[from..to], lo + j) else 0)
    {
      assert At(Trim(storage[s..e]), j) == At(storage[s..e], j);
      SliceAt(storage, s, e, j);
      SliceAt(storage, from, to, lo + j);
    }
  }

  lemma SliceAt(w: seq<Word>, from: nat, to: nat, j: nat)
    requires from <= to <= |w|
    ensures At(w[from..to], j) == (if from + j < to then w[from + j] else 0)
  {
  }

  lemma RangeValue(w: seq<Word>, r: seq<Word>, lo: nat, hi: nat)
    requires lo <= hi && IsRange(w, r, lo, hi)
    ensures Nat(r) == (Nat(w) / Weight(lo)) % Weight(hi - lo)
  {
    NatOfRange(w, r, lo, hi - lo);
  }

  lemma ShiftedDown(w: seq<Word>, amount: nat)
    ensures amount == 0 ==> Nat(w) / Weight(amount) == Nat(w)
  {
    assert Weight(0) == 1;
  }

  lemma ShiftedDownNat(w: seq<Word>, r: seq<Word>, amount: nat)
    requires forall j: nat :: At(r, j) == At(w, amount + j)
    ensures Nat(r) == Nat(w) / Weight(amount)
  {
    var n := |w| + |r|;
    var m := if |w| < amount then amount else |w|;
    assert forall j: nat :: j >= n ==> At(r, j) == 0;
    NatOfRange(w, r, amount, n);
    SumBeyond(w, amount + n);
    SumBound(w, amount + n);
    SplitValue(Nat(w), amount, amount + n);
  }

  lemma ShiftedUpTrivial(w: seq<Word>, amount: nat)
    requires amount == 0 || w == []
    ensures Nat(w) == Nat(w) * Weight(amount)
  {
  }

  lemma ShiftedUpNat(w: seq<Word>, r: seq<Word>, amount: nat)
    requires forall j: nat :: At(r, j) == (if j < amount then 0 else At(w, j - amount))
    ensures Nat(r) == Nat(w) * Weight(amount)
  {
    var n := |w| + |r|;
    assert forall j: nat :: j < n ==> At(w, j) == At(r, amount + j);
    ShiftedSum(r, w, amount, n);
    SumBeyond(w, n);
    SumBeyond(r, amount + n);
    LowZeros(r, amount);
  }

  lemma {:induction false} LowZeros(r: seq<Word>, n: nat)
    requires forall j: nat :: j < n ==> At(r, j) == 0
    ensures Sum(r, n) == 0
  {
    if n > 0 { LowZeros(r, n - 1); }
  }
}
