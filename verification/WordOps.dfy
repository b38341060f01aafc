/** Single-word operations and the one invariant that all carry loops share. */
module WordOps {
  import opened Arith
  import opened Digits

  function AddingReportingOverflow(x: Word, y: Word): (r: (Word, bool))
    ensures x + y == r.0 + (if r.1 then BASE else 0)
  {
    if x + y < BASE then (x + y, false) else (x + y - BASE, true)
  }

  function SubtractingReportingOverflow(x: Word, y: Word): (r: (Word, bool))
    ensures x - y == r.0 - (if r.1 then BASE else 0)
  {
    if x < y then (x - y + BASE, true) else (x - y, false)
  }

  /** High and low word of the product. */
  function MultipliedFullWidth(x: Word, y: Word): (r: (Word, Word))
    ensures x * y == r.0 * BASE + r.1 && r.0 < BASE - 1
  {
    ProductBound(x, y);
    assert x * y == (x * y) / BASE * BASE + (x * y) % BASE;
    ((x * y) / BASE, (x * y) % BASE)
  }

  lemma ProductBound(x: Word, y: Word)
    ensures 0 <= x * y <= (BASE - 1) * (BASE - 1)
  {
    MulMono(0, x, y);
    MulMono(x, BASE - 1, y);
    MulMono(y, BASE - 1, BASE - 1);
  }

  /** A carry loop at digit i: v is v0 plus y times the low i digits of x, moved up by `shift`
      digits, except that c units of digit shift+i are still to be added. Addition has y = 1,
      subtraction y = -1 with c the negated borrow, multiplication the word itself. The digits
      from shift+i on have not been touched. */
  ghost predicate Carried(v: nat, v0: int, x: nat, y: int, shift: nat, i: nat, c: int)
  {
    v == v0 + y * (x % Weight(i)) * Weight(shift) - c * Weight(shift + i)
  }

  lemma CarriedStart(v: nat, x: nat, y: int, shift: nat)
    ensures Carried(v, v, x, y, shift, 0, 0)
  {
    assert x % Weight(0) == 0;
  }

  lemma CarriedStartWord(v: nat, word: nat, shift: nat)
    ensures Carried(v, v + word * Weight(shift), 0, 0, shift, 0, word)
  {
  }

  lemma StepAlgebra(v0: int, y: int, s: int, xd: int, c: int, c': int, p: int, ps: int, pw: int, a: int, d: int)
    requires ps == p * pw
    requires d == a + y * xd + c - c' * BASE
    ensures (v0 + y * s * pw - c * ps) + (d - a) * ps == v0 + y * (s + xd * p) * pw - c' * (BASE * ps)
  {
    assert y * (s + xd * p) * pw == y * s * pw + y * xd * ps by {
      assert y * (s + xd * p) == y * s + y * (xd * p);
      assert (y * s + y * (xd * p)) * pw == y * s * pw + y * (xd * p) * pw;
      assert y * (xd * p) * pw == (y * xd) * (p * pw);
    }
    assert (d - a) * ps == (y * xd + c - c' * BASE) * ps;
    assert (y * xd + c - c' * BASE) * ps == y * xd * ps + c * ps - c' * BASE * ps;
    assert c' * (BASE * ps) == c' * BASE * ps;
  }

  /** One digit: writing d where a was, with d = a + y*x_i + c - c'*BASE, moves the loop on. */
  lemma CarriedNext(v: nat, v0: int, x: nat, y: int, shift: nat, i: nat, c: int, c': int, d: Word)
    requires Carried(v, v0, x, y, shift, i, c) && Put(v, shift + i, d) >= 0
    requires d == Digit(v, shift + i) + y * Digit(x, i) + c - c' * BASE
    ensures Carried(Put(v, shift + i, d), v0, x, y, shift, i + 1, c')
  {
    hide Weight, Digit;
    DigitSplit(x, i);
    WeightAdd(i, shift);
    WeightStep(shift + i);
    assert shift + i + 1 == shift + (i + 1) && i + shift == shift + i;
    StepAlgebra(v0, y, x % Weight(i), Digit(x, i), c, c', Weight(i), Weight(shift + i), Weight(shift),
                Digit(v, shift + i), d);
  }

  /** Replacing a digit leaves the digits above and below alone, and the result is a number. */
  lemma PutKeeps(v: nat, i: nat, d: Word)
    ensures Put(v, i, d) >= 0
    ensures Put(v, i, d) / Weight(i + 1) == v / Weight(i + 1)
    ensures Put(v, i, d) % Weight(i) == v % Weight(i)
    ensures Put(v, i, d) / Weight(i) == v / Weight(i + 1) * BASE + d
  {
    hide Weight, Digit;
    DigitSplit(v, i);
    WeightStep(i);
    var p, s, h, a := Weight(i), v % Weight(i), v / Weight(i + 1), Digit(v, i);
    SetAlgebra(s, h * BASE, a, d, p);
    Placed(s, h, d, p, BASE);
  }

  lemma Placed(s: nat, h: nat, d: nat, p: nat, base: nat)
    requires s < p && d < base
    ensures var v := (h * base + d) * p + s;
      v >= 0 && v / (base * p) == h && v % p == s && v / p == h * base + d
  {
    MulNat(h, base);
    MulNat(h * base + d, p);
    var v := (h * base + d) * p + s;
    DivModUnique(v, h * base + d, s, p);
    NextDigitRange(s, d, p, base);
    DivModUnique(v, h, s + d * p, base * p);
  }

  lemma NextDigitRange(s: nat, d: nat, p: nat, base: nat)
    requires s < p && d < base
    ensures 0 <= s + d * p < base * p
  {
    MulNat(d, p);
    MulMono(d + 1, base, p);
  }

  lemma SetAlgebra(s: int, g: int, a: int, d: int, p: int)
    ensures s + (g + a) * p + (d - a) * p == (g + d) * p + s
  {
  }

  /** The digits from i on are those of v0. */
  ghost predicate Untouched(v: nat, v0: nat, i: nat)
  {
    v / Weight(i) == v0 / Weight(i)
  }

  lemma UntouchedStart(v: nat, i: nat)
    ensures Untouched(v, v, i)
  {
  }

  lemma UntouchedNext(v: nat, v0: nat, i: nat, d: Word)
    requires Untouched(v, v0, i)
    ensures Put(v, i, d) >= 0 && Untouched(Put(v, i, d), v0, i + 1)
  {
    hide Weight, Digit, Put;
    PutKeeps(v, i, d);
    DigitSplit(v, i);
    DigitSplit(v0, i);
  }

  /** The loop has consumed x and nothing is left to carry. */
  lemma CarriedEnd(v: nat, v0: int, x: nat, y: int, shift: nat, i: nat, n: nat, c: int)
    requires Carried(v, v0, x, y, shift, i, c)
    requires x < Weight(n) && n <= i
    ensures v == v0 + y * x * Weight(shift) - c * Weight(shift + i)
  {
    DigitBeyond(x, n, i);
  }

  /** A positive carry cannot run past both operands: this bounds the loops that go on while
      there is a carry. */
  lemma CarryReach(v: nat, v0: nat, x: nat, y: int, shift: nat, i: nat, n: nat, m: nat, c: int)
    requires Carried(v, v0, x, y, shift, i, c)
    requires x < Weight(n) && 0 <= y < BASE && v0 < Weight(m) && n <= i
    requires c > 0
    ensures shift + i <= n + shift + 1 || shift + i <= m
  {
    hide Weight;
    if shift + i > n + shift + 1 && shift + i > m {
      var t := shift + i - 1;
      assert t + 1 == shift + i;
      WeightStep(t);
      WeightMono(m, t);
      WeightMono(n + 1 + shift, t);
      WeightAdd(n + 1, shift);
      WeightStep(n);
      MulMono(1, c, Weight(shift + i));
      ProductBelow(x, y, Weight(n), Weight(shift));
      CarriedEnd(v, v0, x, y, shift, i, n, c);
      assert false;
    }
  }

  lemma ProductBelow(x: int, y: int, p: int, q: int)
    requires 0 <= x < p && 0 <= y < BASE && q > 0
    ensures 0 <= y * x * q < (BASE * p) * q
  {
    MulMono(0, x, y);
    MulMono(x, p - 1, y);
    MulMono(y, BASE, p - 1);
    assert y * x < BASE * p;
    MulMono(y * x + 1, BASE * p, q);
    MulMono(0, y * x, q);
    assert (y * x + 1) * q == y * x * q + q;
  }

  /** A loop from the top digit down, at digit i: the digits of v0 from i on have been divided
      by p and moved down by ext, over whatever `under` holds below; s is what the division has
      left over. Right shifts and division by a word are such loops. */
  ghost predicate DividedFrom(v: nat, v0: nat, under: nat, ext: nat, i: nat, p: nat, s: nat)
    requires ext <= i && p > 0
  {
    && v == TopQuotient(v0, i, p) * Weight(i - ext) + under % Weight(i - ext)
    && s == TopRemainder(v0, i, p)
  }

  /** The digits from i on, divided by p. */
  function TopQuotient(v0: nat, i: nat, p: nat): int
    requires p > 0
  {
    (v0 / Weight(i)) / p
  }

  function TopRemainder(v0: nat, i: nat, p: nat): int
    requires p > 0
  {
    (v0 / Weight(i)) % p
  }

  lemma TopNext(v0: nat, i: nat, p: nat)
    requires p > 0
    ensures var n := TopRemainder(v0, i + 1, p) * BASE + Digit(v0, i);
      && TopQuotient(v0, i, p) == TopQuotient(v0, i + 1, p) * BASE + n / p
      && TopRemainder(v0, i, p) == n % p
  {
    hide Weight, Digit;
    DigitSplit(v0, i);
    DivideNext(v0 / Weight(i + 1), Digit(v0, i), p);
  }

  lemma DividedStart(v0: nat, under: nat, ext: nat, c: nat, p: nat)
    requires ext <= c && v0 < Weight(c) && under < Weight(c - ext) && p > 0
    ensures DividedFrom(under, v0, under, ext, c, p, 0)
  {
    DigitBeyond(v0, c, c);
    DigitBeyond(under, c - ext, c - ext);
    DivModUnique(0, 0, 0, p);
  }

  lemma DivideNext(y: nat, w: Word, p: nat)
    requires p > 0
    ensures (y * BASE + w) / p == (y / p) * BASE + ((y % p) * BASE + w) / p
    ensures (y * BASE + w) % p == ((y % p) * BASE + w) % p
  {
    var a, s := y / p, y % p;
    var n := s * BASE + w;
    var h, l := n / p, n % p;
    assert y == a * p + s && n == h * p + l;
    assert (a * BASE + h) * p == (a * p) * BASE + h * p;
    DivModUnique(y * BASE + w, a * BASE + h, l, p);
  }

  lemma PutUnder(v: nat, a: nat, under: nat, j: nat, d: Word)
    requires v == a * Weight(j + 1) + under % Weight(j + 1)
    ensures Put(v, j, d) == (a * BASE + d) * Weight(j) + under % Weight(j)
    ensures Digit(v, j) == Digit(under, j)
  {
    DigitSplit(under, j);
    var p, s, g := Weight(j), under % Weight(j), Digit(under, j);
    assert v == a * (BASE * p) + (s + g * p);
    hide Weight;
    assert v == (s + g * p) + a * (BASE * p);
    DigitOf(v, j, s, g, a);
    assert Put(v, j, d) == v + (d - g) * p;
    AtSplit(s, g, a, p);
    SetAlgebra(s, a * BASE, g, d, p);
  }

  lemma DividedNext(v: nat, v0: nat, under: nat, ext: nat, i: nat, p: nat, s: nat, d: Word)
    requires ext <= i && p > 0 && DividedFrom(v, v0, under, ext, i + 1, p, s)
    requires d == (s * BASE + Digit(v0, i)) / p
    ensures Put(v, i - ext, d) >= 0
    ensures DividedFrom(Put(v, i - ext, d), v0, under, ext, i, p, (s * BASE + Digit(v0, i)) % p)
  {
    hide Weight, Digit, Put, TopQuotient, TopRemainder;
    var j := i - ext;
    assert i + 1 - ext == j + 1;
    TopNext(v0, i, p);
    TopIsNat(v0, i + 1, p);
    PutUnder(v, TopQuotient(v0, i + 1, p), under, j, d);
    PutKeeps(v, j, d);
  }

  lemma TopIsNat(v0: nat, i: nat, p: nat)
    requires p > 0
    ensures TopQuotient(v0, i, p) >= 0
  {
    var y := v0 / Weight(i);
    assert v0 == y * Weight(i) + v0 % Weight(i);
    if y < 0 { MulMono(y, -1, Weight(i)); }
    assert y == (y / p) * p + y % p;
    if y / p < 0 { MulMono(y / p, -1, p); }
  }

  /** The digits below i are still those of `under`. */
  lemma DividedGet(v: nat, v0: nat, under: nat, ext: nat, i: nat, p: nat, s: nat)
    requires ext <= i && p > 0 && DividedFrom(v, v0, under, ext, i + 1, p, s)
    ensures Digit(v, i - ext) == Digit(under, i - ext)
  {
    hide TopQuotient, Weight;
    assert i + 1 - ext == i - ext + 1;
    TopIsNat(v0, i + 1, p);
    PutUnder(v, TopQuotient(v0, i + 1, p), under, i - ext, 0);
  }

  lemma DividedEnd(v: nat, v0: nat, under: nat, ext: nat, p: nat, s: nat)
    requires p > 0 && DividedFrom(v, v0, under, ext, ext, p, s)
    ensures v == (v0 / Weight(ext)) / p && s == (v0 / Weight(ext)) % p
  {
    assert Weight(0) == 1;
  }
}
