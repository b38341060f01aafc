/** The batched division steps of modinv64_impl.h: word-level loops that return the
    counter and the transition matrix of 62 (59) single steps. */
module ModInvBatch {
  import opened Arith
  import opened MachineInts
  import opened DivSteps

  lemma U64Scale(u: uint64, x: int, p: nat)
    requires u == U64(x)
    ensures U64(u * p) == U64(p * x)
  {
    ModMul(x, p, TWO64);
  }

  lemma U64AddMul(q: uint64, u: uint64, w: int, x: int, y: int)
    requires q == U64(x) && u == U64(y)
    ensures U64(q + u * w) == U64(x + w * y)
  {
    ModTwice(x, TWO64);
    ModTwice(y, TWO64);
    CongMul(u, y, w, w, TWO64);
    CongAdd(q, x, u * w, y * w, TWO64);
  }

  lemma CongAddMul(g: int, f: int, w: int, gg: int, ff: int, m: int)
    requires m > 0 && g % m == gg % m && f % m == ff % m
    ensures (g + f * w) % m == (gg + w * ff) % m
  {
    CongMul(f, ff, w, w, m);
    CongAdd(g, gg, f * w, ff * w, m);
  }

  lemma CongNeg(f: int, ff: int, m: int)
    requires m > 0 && f % m == ff % m
    ensures (-f) % m == (-ff) % m
  {
    CongAdd(0, 0, f, ff, m);
  }

  lemma MulCancel(x: int, y: int, a: int)
    requires a > 0 && x * a == y * a
    ensures x == y
  {
    assert (x - y) * a == 0;
  }

  /** Dropping z zero bits keeps the agreement on the bits above them. */
  lemma ShiftCong(g: int, gg: int, z: nat, j: nat)
    requires g % Pow2(z + j) == gg % Pow2(z + j) && g % Pow2(z) == 0
    ensures gg % Pow2(z) == 0 && (g / Pow2(z)) % Pow2(j) == (gg / Pow2(z)) % Pow2(j)
  {
    CongPow2(g, gg, z + j, z);
    Pow2Add(z, j);
    QuotientCong(g, gg, Pow2(z), Pow2(j));
  }

  lemma QuotientCong(g: int, gg: int, a: int, b: int)
    requires a > 0 && b > 0 && a * b > 0 && g % (a * b) == gg % (a * b) && g % a == 0 && gg % a == 0
    ensures (g / a) % b == (gg / a) % b
  {
    var k := CongElim(g, gg, a * b);
    var x, y := g / a, gg / a;
    assert g == x * a && gg == y * a;
    assert k * (a * b) == (k * b) * a;
    assert x * a == (y + k * b) * a;
    MulCancel(x, y + k * b, a);
    CongIntro(x, y, k, b);
  }

  lemma EvenBelow(z: nat, m: nat, g: int)
    requires z < m && g % Pow2(m) == 0
    ensures (g / Pow2(z)) % 2 == 0
  {
    Pow2Add(z, m - z);
    DivDiv(g, Pow2(z), Pow2(m - z));
    Pow2Add(1, m - z - 1);
    assert Pow2(1) == 2;
    DivDiv(g / Pow2(z), 2, Pow2(m - z - 1));
  }

  /** If m low bits of g are known to be zero, the zero count up to i is at least m. */
  lemma CountAtLeast(z: nat, m: nat, g: int, i: nat)
    requires g >= 0 && m <= i && g % Pow2(m) == 0 && TrailingZeros(z, g, i)
    ensures m <= z
  {
    if z < m { EvenBelow(z, m, g); }
  }

  /** The multiple of f that the code adds to g: six-bit formula after a swap ... */
  function SixBitMultiple(f: uint64, g: uint64, k: nat): (w: nat)
    ensures w < Pow2(k)
  {
    U64(f * g * (f * f - 2)) % Pow2(k)
  }

  /** ... and the four-bit one otherwise, with the 32-bit arithmetic of `w`. */
  function FourBitMultiple(f: uint64, g: uint64, k: nat): (w: nat)
    ensures w < Pow2(k)
  {
    var w: uint32 := U32(f + 2 * (if U64(f + 1) / 4 % 2 == 1 then 4 else 0));
    U64(U32(0 - w) * g) % Pow2(k)
  }

  lemma SixBitClears(f: uint64, g: uint64, k: nat)
    requires f % 2 == 1 && k <= 6
    ensures (g + SixBitMultiple(f, g, k) * f) % Pow2(k) == 0
  {
    var x := f * g * (f * f - 2);
    U64Cong(x, k);
    ModTwice(U64(x), Pow2(k));
    CongAddMul(g, SixBitMultiple(f, g, k), f, g, x, Pow2(k));
    SixBitFormula(f, g, k);
  }

  lemma NegatedWordCong(i: int, g: uint64, k: nat)
    requires k <= 32
    ensures U64(U32(0 - U32(i)) * g) % Pow2(k) == (-i * g) % Pow2(k)
  {
    var m := Pow2(k);
    var w: uint32 := U32(i);
    U32Cong(i, k);
    U32Cong(0 - w, k);
    CongNeg(w, i, m);
    CongMul(U32(0 - w), -i, g, g, m);
    U64Cong(U32(0 - w) * g, k);
  }

  lemma FourBitMultipleCong(f: uint64, g: uint64, k: nat)
    requires f % 2 == 1 && k <= 4
    ensures FourBitMultiple(f, g, k) % Pow2(k) == (-FourBitInverse(f) * g) % Pow2(k)
  {
    var i := FourBitInverse(f);
    assert U64(f + 1) / 4 % 2 == (f + 1) / 4 % 2;
    NegatedWordCong(i, g, k);
    ModTwice(U64(U32(0 - U32(i)) * g), Pow2(k));
  }

  lemma FourBitClears(f: uint64, g: uint64, k: nat)
    requires f % 2 == 1 && k <= 4
    ensures (g + FourBitMultiple(f, g, k) * f) % Pow2(k) == 0
  {
    FourBitMultipleCong(f, g, k);
    CongAddMul(g, FourBitMultiple(f, g, k), f, g, -FourBitInverse(f) * g, Pow2(k));
    FourBitFormula(f, g, k);
  }

  /** The six words the loop updates. */
  datatype Words = Words(f: uint64, g: uint64, u: uint64, v: uint64, q: uint64, r: uint64)

  /** The machine words track the reference state: f and g modulo 2^j, the matrix modulo 2^64. */
  ghost predicate Agrees(j: nat, s: State, x: Words)
  {
    && s.f % 2 == 1
    && x.f % Pow2(j) == s.f % Pow2(j) && x.g % Pow2(j) == s.g % Pow2(j)
    && MatrixAgrees(s.t, x)
  }

  ghost predicate MatrixAgrees(t: Trans2x2, x: Words)
  {
    x.u == U64(t.u) && x.v == U64(t.v) && x.q == U64(t.q) && x.r == U64(t.r)
  }

  /** The next m steps from the reference state after n steps are a plain shift of s. */
  ghost predicate Pending(start: State, n: nat, m: nat, s: State)
  {
    s.g % Pow2(m) == 0 && Steps(1, n + m, start) == Shift(m, s)
  }

  lemma PendingShift(start: State, n: nat, m: nat, z: nat, s: State)
    requires Pending(start, n, m, s) && m <= z && s.g % Pow2(z) == 0
    ensures Steps(1, n + z, start) == Shift(z, s)
  {
    ShiftShift(m, z - m, s);
    StepsCompose(1, n + m, z - m, start);
    assert n + m + (z - m) == n + z;
    StepsOnMultiple(1, z - m, Shift(m, s));
  }

  /** A 64-bit word shifted left, and a multiply-add of words. */
  function ShiftUp(u: uint64, z: nat): uint64 { U64(u * Pow2(z)) }

  function MulAdd(a: uint64, b: uint64, w: nat): uint64 { U64(a + b * w) }

  function ShiftWords(z: nat, x: Words): Words
  {
    x.(g := U64(x.g / Pow2(z)), u := ShiftUp(x.u, z), v := ShiftUp(x.v, z))
  }

  function SwapWords(x: Words): Words
  {
    Words(x.g, U64(0 - x.f), x.q, x.r, U64(0 - x.u), U64(0 - x.v))
  }

  function AddWords(x: Words, w: nat): Words
  {
    x.(g := MulAdd(x.g, x.f, w), q := MulAdd(x.q, x.u, w), r := MulAdd(x.r, x.v, w))
  }

  lemma QuotientFits(g: uint64, p: int)
    requires p > 0
    ensures U64(g / p) == g / p
  {
    var y := g / p;
    assert g == y * p + g % p;
    if y < 0 { MulMono(y, -1, p); }
    if y > 0 { MulMono(1, p, y); }
  }

  lemma AgreesShift(z: nat, j: nat, s: State, x: Words)
    requires Agrees(z + j, s, x) && x.g % Pow2(z) == 0
    ensures s.g % Pow2(z) == 0
    ensures Agrees(j, Shift(z, s), ShiftWords(z, x))
  {
    ShiftCong(x.g, s.g, z, j);
    CongPow2(x.f, s.f, z + j, j);
    QuotientFits(x.g, Pow2(z));
    U64Scale(x.u, s.t.u, Pow2(z));
    U64Scale(x.v, s.t.v, Pow2(z));
  }

  lemma AgreesAddRow(j: nat, w: nat, s: State, x: Words)
    requires j <= 64 && Agrees(j, s, x)
    ensures Agrees(j, AddRow(s, w), AddWords(x, w))
  {
    CongAddMul(x.g, x.f, w, s.g, s.f, Pow2(j));
    U64Cong(x.g + x.f * w, j);
    U64AddMul(x.q, x.u, w, s.t.q, s.t.u);
    U64AddMul(x.r, x.v, w, s.t.r, s.t.v);
  }

  lemma U64Neg(u: uint64, x: int)
    requires u == U64(x)
    ensures U64(0 - u) == U64(-x)
  {
    ModTwice(x, TWO64);
    CongNeg(u, x, TWO64);
  }

  lemma AgreesSwap(j: nat, s: State, x: Words)
    requires j <= 64 && Agrees(j, s, x) && s.g % 2 == 1
    ensures Agrees(j, Swap(s), SwapWords(x))
  {
    hide Pow2, U64;
    CongNeg(x.f, s.f, Pow2(j));
    U64Cong(0 - x.f, j);
    U64Neg(x.u, s.t.u);
    U64Neg(x.v, s.t.v);
  }

  /** The cancelling multiple chosen from the machine words also clears the reference g. */
  lemma ClearsReference(k: nat, j: nat, w: nat, f: int, g: int, ff: int, gg: int)
    requires k <= j && f % Pow2(j) == ff % Pow2(j) && g % Pow2(j) == gg % Pow2(j)
    requires (g + w * f) % Pow2(k) == 0
    ensures (gg + w * ff) % Pow2(k) == 0
  {
    CongPow2(f, ff, j, k);
    CongPow2(g, gg, j, k);
    CongAddMul(g, f, w, gg, ff, Pow2(k));
  }

  lemma OddFromAgreement(g: int, gg: int, j: nat)
    requires j > 0 && g % Pow2(j) == gg % Pow2(j)
    ensures g % 2 == gg % 2
  {
    CongPow2(g, gg, j, 1);
    assert Pow2(1) == 2;
  }

  lemma MatrixIsSigned(t: Trans2x2)
    requires Abs(t.u) + Abs(t.v) <= TWO62 && Abs(t.q) + Abs(t.r) <= TWO62
    ensures S64(U64(t.u)) == t.u && S64(U64(t.v)) == t.v
    ensures S64(U64(t.q)) == t.q && S64(U64(t.r)) == t.r
  {
    SignedOfWrapped(t.u);
    SignedOfWrapped(t.v);
    SignedOfWrapped(t.q);
    SignedOfWrapped(t.r);
  }

  /** Loop invariant of the batched loop with i steps still to do, m of them already prepared. */
  ghost predicate BatchInv(start: State, i: nat, m: nat, s: State, x: Words)
  {
    m <= i <= 62 && Agrees(i + 2, s, x) && Pending(start, 62 - i, m, s)
  }

  /** The same after the zero bits have been shifted out. */
  ghost predicate ShiftedInv(start: State, i: nat, s: State, x: Words)
  {
    && i <= 62 && Agrees(i + 2, s, x) && Steps(1, 62 - i, start) == s
    && x.f % 2 == 1 && (i > 0 ==> x.g % 2 == 1 && s.g % 2 == 1)
  }

  lemma ShiftPhase(start: State, i: nat, m: nat, z: nat, s: State, x: Words)
    requires BatchInv(start, i, m, s, x) && TrailingZeros(z, x.g, i)
    ensures m <= z <= i && ShiftedInv(start, i - z, Shift(z, s), ShiftWords(z, x))
    ensures U64(x.g / Pow2(z)) == x.g / Pow2(z) && Shift(z, s).eta == s.eta - z
  {
    CongPow2(x.g, s.g, i + 2, m);
    CountAtLeast(z, m, x.g, i);
    AgreesShift(z, i - z + 2, s, x);
    PendingShift(start, 62 - i, m, z, s);
    assert 62 - i + z == 62 - (i - z);
    OddFromAgreement(x.f, s.f, i + 2);
    QuotientFits(x.g, Pow2(z));
    OddFromAgreement(ShiftWords(z, x).g, Shift(z, s).g, i - z + 2);
  }

  lemma CancelPhase(start: State, i: nat, bits: nat, w: nat, s: State, y: State, x: Words)
    requires bits <= i <= 62 && Agrees(i + 2, y, x) && Steps(1, 62 - i, start) == s
    requires (x.g + w * x.f) % Pow2(bits) == 0
    requires (y.g + w * y.f) % Pow2(bits) == 0 ==> Steps(1, bits, s) == Shift(bits, AddRow(y, w))
    ensures BatchInv(start, i, bits, AddRow(y, w), AddWords(x, w))
  {
    AgreesAddRow(i + 2, w, y, x);
    CancelPending(start, i, bits, w, s, y, x);
    hide Agrees, Pending, Steps, Shift, AddRow, AddWords, Pow2;
  }

  lemma CancelPending(start: State, i: nat, bits: nat, w: nat, s: State, y: State, x: Words)
    requires bits <= i <= 62 && Agrees(i + 2, y, x) && Steps(1, 62 - i, start) == s
    requires (x.g + w * x.f) % Pow2(bits) == 0
    requires (y.g + w * y.f) % Pow2(bits) == 0 ==> Steps(1, bits, s) == Shift(bits, AddRow(y, w))
    ensures Pending(start, 62 - i, bits, AddRow(y, w))
  {
    hide Pow2, Steps, Shift, MatrixAgrees;
    ClearsReference(bits, i + 2, w, x.f, x.g, y.f, y.g);
    StepsCompose(1, 62 - i, bits, start);
  }

  lemma SwapPhase(start: State, i: nat, bits: nat, s: State, x: Words)
    requires ShiftedInv(start, i, s, x) && s.eta < 0 && 0 < bits <= Min(Min(-s.eta + 1, i), 6)
    ensures var x1 := SwapWords(x);
            var w := SixBitMultiple(x1.f, x1.g, bits);
            BatchInv(start, i, bits, AddRow(Swap(s), w), AddWords(x1, w)) && AddRow(Swap(s), w).eta == -s.eta
  {
    var x1 := SwapWords(x);
    var w := SixBitMultiple(x1.f, x1.g, bits);
    AgreesSwap(i + 2, s, x);
    SixBitClears(x1.f, x1.g, bits);
    var y := Swap(s);
    if (y.g + w * y.f) % Pow2(bits) == 0 { CancelBitsSwapped(bits, w, s); }
    CancelPhase(start, i, bits, w, s, y, x1);
  }

  lemma PlainPhase(start: State, i: nat, bits: nat, s: State, x: Words)
    requires ShiftedInv(start, i, s, x) && s.eta >= 0 && 0 < bits <= Min(Min(s.eta + 1, i), 4)
    ensures var w := FourBitMultiple(x.f, x.g, bits);
            BatchInv(start, i, bits, AddRow(s, w), AddWords(x, w)) && AddRow(s, w).eta == s.eta
  {
    var w := FourBitMultiple(x.f, x.g, bits);
    FourBitClears(x.f, x.g, bits);
    if (s.g + w * s.f) % Pow2(bits) == 0 { CancelBits(1, bits, w, s); }
    CancelPhase(start, i, bits, w, s, s, x);
  }

  lemma BatchStart(eta: int, f: uint64, g: uint64)
    requires f % 2 == 1
    ensures BatchInv(Start(eta, f, g), 62, 0, Start(eta, f, g), Words(f, g, 1, 0, 0, 1))
  {
    assert Pow2(0) == 1;
  }

  lemma SignedResult(eta: int, f0: uint64, g0: uint64, s: State, x: Words)
    requires f0 % 2 == 1 && ShiftedInv(Start(eta, f0, g0), 0, s, x)
    ensures s == Steps(1, 62, Start(eta, f0, g0))
    ensures Trans2x2(S64(x.u), S64(x.v), S64(x.q), S64(x.r)) == s.t
  {
    StepsTracked(1, 62, eta, f0, g0);
    PowersOfTwo();
    MatrixIsSigned(s.t);
  }

  /** 62 division steps at once, several bits of g at a time. */
  method DivSteps62Var(eta0: int64, f0: uint64, g0: uint64) returns (eta: int64, t: Trans2x2)
    requires f0 % 2 == 1 && Abs(eta0) < 0x4000_0000
    ensures eta == Steps(1, 62, Start(eta0, f0, g0)).eta
    ensures t == Steps(1, 62, Start(eta0, f0, g0)).t
  {
    hide ShiftUp, MulAdd, BatchInv, ShiftedInv, SixBitMultiple, FourBitMultiple, U64, S64, Ctz, BitOr, Pow2, Steps, Shift, AddRow, Swap, TrailingZeros, Agrees, MatrixAgrees, Pending;
    var u: uint64, v: uint64, q: uint64, r: uint64 := 1, 0, 0, 1;
    var f: uint64, g: uint64 := f0, g0;
    var i: nat := 62;
    eta := eta0;
    ghost var start := Start(eta0, f0, g0);
    ghost var s, m: nat := start, 0;
    ghost var x := Words(f, g, u, v, q, r);
    BatchStart(eta0, f0, g0);
    while true
      invariant 0 < i
      invariant s.eta == eta && Abs(eta) <= Abs(eta0) + 62 - i
      invariant x == Words(f, g, u, v, q, r) && BatchInv(start, i, m, s, x)
      decreases i, if m == 0 then 1 else 0
    {
      CtzSentinel(g, i, 64);
      PowersOfTwo();
      var zeros := Ctz(BitOr(g, TWO64 - Pow2(i)));
      ShiftPhase(start, i, m, zeros, s, x);
      g := g / Pow2(zeros);
      u := ShiftUp(u, zeros);
      v := ShiftUp(v, zeros);
      eta := eta - zeros;
      i := i - zeros;
      s := Shift(zeros, s);
      x := ShiftWords(zeros, x);
      if i == 0 { break; }
      var w: nat;
      if eta < 0 {
        eta := -eta;
        f, g := g, U64(0 - f);
        u, q := q, U64(0 - u);
        v, r := r, U64(0 - v);
        var limit := Min(eta + 1, i);
        var bits: nat := Min(limit, 6);
        w := SixBitMultiple(f, g, bits);
        SwapPhase(start, i, bits, s, x);
        m := bits;
        s := AddRow(Swap(s), w);
        x := SwapWords(x);
      } else {
        var limit := Min(eta + 1, i);
        var bits: nat := Min(limit, 4);
        w := FourBitMultiple(f, g, bits);
        PlainPhase(start, i, bits, s, x);
        m := bits;
        s := AddRow(s, w);
      }
      g := MulAdd(g, f, w);
      q := MulAdd(q, u, w);
      r := MulAdd(r, v, w);
      x := AddWords(x, w);
    }
    SignedResult(eta0, f0, g0, s, x);
    t := Trans2x2(S64(u), S64(v), S64(q), S64(r));
  }

  // ----- the constant-time batch of 59 steps -----

  function Scale(k: int, t: Trans2x2): Trans2x2
  {
    Trans2x2(k * t.u, k * t.v, k * t.q, k * t.r)
  }

  /** The steps act linearly on the matrix. */
  lemma {:induction false} StepsScale(c: int, n: nat, k: int, s: State)
    ensures Steps(c, n, s.(t := Scale(k, s.t))) == Steps(c, n, s).(t := Scale(k, Steps(c, n, s).t))
  {
    if n > 0 {
      StepsScale(c, n - 1, k, s);
      StepScale(c, k, Steps(c, n - 1, s));
    }
  }

  lemma StepScale(c: int, k: int, s: State)
    ensures Step(c, s.(t := Scale(k, s.t))) == Step(c, s).(t := Scale(k, Step(c, s).t))
  {
    var Trans2x2(u, v, q, r) := s.t;
    assert 2 * (k * u) == k * (2 * u) && 2 * (k * v) == k * (2 * v) && 2 * (k * q) == k * (2 * q) && 2 * (k * r) == k * (2 * r);
    assert k * q - k * u == k * (q - u) && k * r - k * v == k * (r - v);
    assert k * q + k * u == k * (q + u) && k * r + k * v == k * (r + v);
  }

  /** x negated when c is set, as `(x ^ mask) - mask` does. */
  function CondNeg(x: uint64, c: bool): uint64 { if c then U64(0 - x) else x }

  /** One branch-free step on the machine words, with neg for zeta < 0. */
  function StepWords(neg: bool, x: Words): Words
  {
    var odd := x.g % 2 == 1;
    var g1 := if odd then U64(x.g + CondNeg(x.f, neg)) else x.g;
    var q1 := if odd then U64(x.q + CondNeg(x.u, neg)) else x.q;
    var r1 := if odd then U64(x.r + CondNeg(x.v, neg)) else x.r;
    var f1 := if odd && neg then U64(x.f + g1) else x.f;
    var u1 := if odd && neg then U64(x.u + q1) else x.u;
    var v1 := if odd && neg then U64(x.v + r1) else x.v;
    Words(f1, g1 / 2, U64(2 * u1), U64(2 * v1), q1, r1)
  }

  lemma U64Sum(a: uint64, b: uint64, x: int, y: int)
    requires a == U64(x) && b == U64(y)
    ensures U64(a + b) == U64(x + y)
  {
    ModTwice(x, TWO64);
    ModTwice(y, TWO64);
    CongAdd(a, x, b, y, TWO64);
  }

  lemma CondNegCong(a: uint64, x: int, c: bool, j: nat)
    requires j <= 64 && a % Pow2(j) == x % Pow2(j)
    ensures CondNeg(a, c) % Pow2(j) == (if c then -x else x) % Pow2(j)
  {
    CongNeg(a, x, Pow2(j));
    U64Cong(0 - a, j);
  }

  lemma U64SumCong(a: uint64, b: uint64, x: int, y: int, j: nat)
    requires j <= 64 && a % Pow2(j) == x % Pow2(j) && b % Pow2(j) == y % Pow2(j)
    ensures U64(a + b) % Pow2(j) == (x + y) % Pow2(j)
  {
    CongAdd(a, x, b, y, Pow2(j));
    U64Cong(a + b, j);
  }

  lemma MatrixStep(neg: bool, odd: bool, u: uint64, q: uint64, x: int, y: int)
    requires u == U64(x) && q == U64(y)
    ensures var q1 := if odd then U64(q + CondNeg(u, neg)) else q;
            var u1 := if odd && neg then U64(u + q1) else u;
            && q1 == U64(if odd && neg then y - x else if odd then y + x else y)
            && U64(2 * u1) == U64(2 * (if odd && neg then y else x))
  {
    if odd {
      if neg {
        U64Neg(u, x);
        U64Sum(q, U64(0 - u), y, -x);
        U64Sum(u, U64(q + U64(0 - u)), x, y - x);
      } else {
        U64Sum(q, u, y, x);
      }
    }
    U64Scale(u, x, 2);
    U64Scale(q, y, 2);
  }

  lemma PairStep(neg: bool, f: uint64, g: uint64, x: int, y: int, j: nat)
    requires j < 64 && f % Pow2(j + 1) == x % Pow2(j + 1) && g % Pow2(j + 1) == y % Pow2(j + 1) && x % 2 == 1
    ensures var odd := g % 2 == 1;
            var g1 := if odd then U64(g + CondNeg(f, neg)) else g;
            var f1 := if odd && neg then U64(f + g1) else f;
            && (odd <==> y % 2 == 1)
            && f1 % Pow2(j) == (if odd && neg then y else x) % Pow2(j)
            && (g1 / 2) % Pow2(j) == ((if odd && neg then y - x else if odd then y + x else y) / 2) % Pow2(j)
  {
    assert Pow2(j + 1) == 2 * Pow2(j);
    HalfCong(g, y, Pow2(j));
    CongPow2(f, x, j + 1, j);
    if g % 2 == 1 {
      CondNegCong(f, x, neg, j + 1);
      U64SumCong(g, CondNeg(f, neg), y, if neg then -x else x, j + 1);
      var g1 := U64(g + CondNeg(f, neg));
      var z := if neg then y - x else y + x;
      HalfCong(g1, z, Pow2(j));
      CongPow2(g1, z, j + 1, j);
      if neg { U64SumCong(f, g1, x, y - x, j); }
    }
  }

  lemma AgreesStep(c: int, j: nat, s: State, x: Words)
    requires j < 64 && Agrees(j + 1, s, x)
    ensures Agrees(j, Step(c, s), StepWords(s.eta < 0, x))
  {
    hide U64, CondNeg, Pow2;
    var neg, odd := s.eta < 0, x.g % 2 == 1;
    PairStep(neg, x.f, x.g, s.f, s.g, j);
    MatrixStep(neg, odd, x.u, x.q, s.t.u, s.t.q);
    MatrixStep(neg, odd, x.v, x.r, s.t.v, s.t.r);
  }

  ghost predicate ConstInv(start: State, k: nat, s: State, x: Words)
  {
    k <= 59 && s == Steps(2, k, start) && Agrees(64 - k, s, x)
  }

  lemma ConstNext(start: State, k: nat, s: State, x: Words)
    requires k < 59 && ConstInv(start, k, s, x)
    ensures ConstInv(start, k + 1, Step(2, s), StepWords(s.eta < 0, x))
    ensures Step(2, s).eta == (if x.g % 2 == 1 && s.eta < 0 then -s.eta - 2 else s.eta - 1)
  {
    AgreesStep(2, 63 - k, s, x);
    OddFromAgreement(x.g, s.g, 64 - k);
  }

  lemma ConstStart(zeta: int, f: uint64, g: uint64)
    requires f % 2 == 1
    ensures var start := State(zeta, f, g, Trans2x2(8, 0, 0, 8)); ConstInv(start, 0, start, Words(f, g, 8, 0, 0, 8))
  {
  }

  lemma ConstEnd(zeta: int, f: uint64, g: uint64, s: State, x: Words)
    requires f % 2 == 1 && ConstInv(State(zeta, f, g, Trans2x2(8, 0, 0, 8)), 59, s, x)
    ensures s.eta == Steps(2, 59, Start(zeta, f, g)).eta
    ensures Trans2x2(S64(x.u), S64(x.v), S64(x.q), S64(x.r)) == Scale(8, Steps(2, 59, Start(zeta, f, g)).t)
  {
    var s0 := Start(zeta, f, g);
    assert s0.(t := Scale(8, s0.t)) == State(zeta, f, g, Trans2x2(8, 0, 0, 8));
    StepsScale(2, 59, 8, s0);
    StepsTracked(2, 59, zeta, f, g);
    PowersOfTwo();
    Pow2Add(3, 59);
    assert Pow2(3) == 8;
    MatrixIsSigned(s.t);
  }

  /** 59 division steps in constant time; the matrix is scaled by 8 to look like 62 steps. */
  method DivSteps59(zeta0: int64, f0: uint64, g0: uint64) returns (zeta: int64, t: Trans2x2)
    requires f0 % 2 == 1 && Abs(zeta0) < 0x4000_0000
    ensures zeta == Steps(2, 59, Start(zeta0, f0, g0)).eta
    ensures t == Scale(8, Steps(2, 59, Start(zeta0, f0, g0)).t)
    ensures var s := Steps(2, 59, Start(zeta0, f0, g0)).t; t == Trans2x2(8 * s.u, 8 * s.v, 8 * s.q, 8 * s.r)
  {
    hide ConstInv, U64, S64, Steps, Step;
    var u: uint64, v: uint64, q: uint64, r: uint64 := 8, 0, 0, 8;
    var f: uint64, g: uint64 := f0, g0;
    zeta := zeta0;
    ghost var start := State(zeta0, f0, g0, Trans2x2(8, 0, 0, 8));
    ghost var s := start;
    ghost var x := Words(f, g, u, v, q, r);
    ConstStart(zeta0, f0, g0);
    for i := 3 to 62
      invariant s.eta == zeta && Abs(zeta) <= Abs(zeta0) + 2 * (i - 3)
      invariant x == Words(f, g, u, v, q, r) && ConstInv(start, i - 3, s, x)
    {
      ConstNext(start, i - 3, s, x);
      var neg, odd := zeta < 0, g % 2 == 1;
      var fx, ux, vx := CondNeg(f, neg), CondNeg(u, neg), CondNeg(v, neg);
      if odd { g, q, r := U64(g + fx), U64(q + ux), U64(r + vx); }
      zeta := if neg && odd then -zeta - 2 else zeta - 1;
      if neg && odd { f, u, v := U64(f + g), U64(u + q), U64(v + r); }
      g := g / 2;
      u := U64(2 * u);
      v := U64(2 * v);
      x := StepWords(s.eta < 0, x);
      s := Step(2, s);
    }
    ConstEnd(zeta0, f0, g0, s, x);
    t := Trans2x2(S64(u), S64(v), S64(q), S64(r));
  }
}
