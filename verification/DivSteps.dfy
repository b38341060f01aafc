/** The division steps of Bernstein and Yang on integers: the reference that the batched
    word-level loops of modinv64_impl.h are proved against.

    `eta` is the negated step counter. A swap sends it to `-eta - c`; c is 1 for the
    variable-time code (eta = -delta) and 2 for the constant-time code
    (zeta = -(delta + 1/2)). */
module DivSteps {
  import opened Arith

  datatype Trans2x2 = Trans2x2(u: int, v: int, q: int, r: int)

  datatype State = State(eta: int, f: int, g: int, t: Trans2x2)

  const IDENTITY := Trans2x2(1, 0, 0, 1)

  function Start(eta: int, f: int, g: int): State { State(eta, f, g, IDENTITY) }

  function Step(c: int, s: State): State
  {
    var Trans2x2(u, v, q, r) := s.t;
    if s.g % 2 == 1 && s.eta < 0 then
      State(-s.eta - c, s.g, (s.g - s.f) / 2, Trans2x2(2 * q, 2 * r, q - u, r - v))
    else if s.g % 2 == 1 then
      State(s.eta - 1, s.f, (s.g + s.f) / 2, Trans2x2(2 * u, 2 * v, q + u, r + v))
    else
      State(s.eta - 1, s.f, s.g / 2, Trans2x2(2 * u, 2 * v, q, r))
  }

  function Steps(c: int, n: nat, s: State): State
  {
    if n == 0 then s else Step(c, Steps(c, n - 1, s))
  }

  /** The steps start at the pair with the identity matrix, and go on one at a time. */
  lemma StepsAre(c: int, n: nat, s: State, eta: int, f: int, g: int)
    ensures Start(eta, f, g) == State(eta, f, g, Trans2x2(1, 0, 0, 1))
    ensures Steps(c, 0, s) == s && Steps(c, n + 1, s) == Step(c, Steps(c, n, s))
  {
  }

  /** The division step in the terms of its definition: with delta the counter, twice it to stay
      with integers, a swap when delta > 0 and g is odd, and half of g or of g + f otherwise. */
  lemma StepIsDivStep(c: int, s: State)
    requires 1 <= c <= 2 && s.f % 2 == 1
    ensures var delta2, r := -2 * s.eta - (c - 1), Step(c, s);
      && (delta2 > 0 && s.g % 2 == 1 ==>
            -2 * r.eta - (c - 1) == 2 - delta2 && r.f == s.g && 2 * r.g == s.g - s.f)
      && (!(delta2 > 0 && s.g % 2 == 1) ==>
            -2 * r.eta - (c - 1) == 2 + delta2 && r.f == s.f && 2 * r.g == s.g + (s.g % 2) * s.f)
  {
    if s.g % 2 == 1 {
      HalfRow(s.f, s.g, -1);
      HalfRow(s.f, s.g, 1);
    }
  }

  function Det(t: Trans2x2): int { t.u * t.r - t.v * t.q }

  /** What n steps keep: f odd, t*(f0,g0) = 2^n*(f,g), det t = 2^n, row sums at most 2^n. */
  ghost predicate Tracks(n: nat, f0: int, g0: int, s: State)
  {
    s.f % 2 == 1 && Maps(s.t, f0, g0, Pow2(n), s.f, s.g) && Det(s.t) == Pow2(n) && RowSums(s.t, Pow2(n))
  }

  /** t*(f0, g0) = p*(f, g). */
  ghost predicate Maps(t: Trans2x2, f0: int, g0: int, p: int, f: int, g: int)
  {
    t.u * f0 + t.v * g0 == p * f && t.q * f0 + t.r * g0 == p * g
  }

  ghost predicate RowSums(t: Trans2x2, p: int)
  {
    Abs(t.u) + Abs(t.v) <= p && Abs(t.q) + Abs(t.r) <= p
  }

  lemma RowStep(a: int, b: int, c: int, d: int, f0: int, g0: int, p: int, f: int, g: int, h: int, e: int)
    requires a * f0 + b * g0 == p * f && c * f0 + d * g0 == p * g
    requires 2 * h == g + e * f
    ensures (c + e * a) * f0 + (d + e * b) * g0 == (2 * p) * h
  {
    calc {
      (c + e * a) * f0 + (d + e * b) * g0;
      (c * f0 + d * g0) + e * (a * f0 + b * g0);
      p * g + e * (p * f);
      p * (g + e * f);
      p * (2 * h);
    }
  }

  lemma RowDouble(a: int, b: int, f0: int, g0: int, p: int, f: int)
    requires a * f0 + b * g0 == p * f
    ensures (2 * a) * f0 + (2 * b) * g0 == (2 * p) * f
  {
  }

  lemma DetStep(u: int, v: int, q: int, r: int, e: int)
    ensures Det(Trans2x2(2 * u, 2 * v, q + e * u, r + e * v)) == 2 * Det(Trans2x2(u, v, q, r))
    ensures Det(Trans2x2(2 * q, 2 * r, q - u, r - v)) == 2 * Det(Trans2x2(u, v, q, r))
  {
  }

  /** The second row of a step, with e times the first row added. */
  lemma HalfRow(f: int, g: int, e: int)
    requires f % 2 == 1 && g % 2 == 1 && (e == 1 || e == -1)
    ensures 2 * ((g + e * f) / 2) == g + e * f
  {
  }

  lemma StepTracksEqs(c: int, p: nat, f0: int, g0: int, s: State)
    requires s.f % 2 == 1 && Det(s.t) == p
    requires Maps(s.t, f0, g0, p, s.f, s.g)
    ensures var s' := Step(c, s); Maps(s'.t, f0, g0, 2 * p, s'.f, s'.g) && Det(s'.t) == 2 * p
  {
    hide Det;
    var Trans2x2(u, v, q, r) := s.t;
    if s.g % 2 == 1 && s.eta < 0 {
      HalfRow(s.f, s.g, -1);
      RowStep(u, v, q, r, f0, g0, p, s.f, s.g, (s.g - s.f) / 2, -1);
      DetStep(u, v, q, r, -1);
      RowDouble(q, r, f0, g0, p, s.g);
    } else if s.g % 2 == 1 {
      HalfRow(s.f, s.g, 1);
      RowStep(u, v, q, r, f0, g0, p, s.f, s.g, (s.g + s.f) / 2, 1);
      DetStep(u, v, q, r, 1);
      RowDouble(u, v, f0, g0, p, s.f);
    } else {
      RowStep(u, v, q, r, f0, g0, p, s.f, s.g, s.g / 2, 0);
      DetStep(u, v, q, r, 0);
      RowDouble(u, v, f0, g0, p, s.f);
    }
  }

  lemma StepRowSums(c: int, p: nat, s: State)
    requires RowSums(s.t, p)
    ensures RowSums(Step(c, s).t, 2 * p)
  {
  }

  lemma StepOdd(c: int, s: State)
    requires s.f % 2 == 1
    ensures Step(c, s).f % 2 == 1
  {
  }

  /** For any number of steps: the matrix sends the pair to the new one times 2^n, its determinant
      is 2^n, and its rows are small. */
  lemma StepsTrack(c: int, n: nat, eta: int, f0: int, g0: int)
    requires f0 % 2 == 1
    ensures var s := Steps(c, n, Start(eta, f0, g0));
      && s.f % 2 == 1
      && s.t.u * f0 + s.t.v * g0 == Pow2(n) * s.f
      && s.t.q * f0 + s.t.r * g0 == Pow2(n) * s.g
      && s.t.u * s.t.r - s.t.v * s.t.q == Pow2(n)
      && Abs(s.t.u) + Abs(s.t.v) <= Pow2(n)
      && Abs(s.t.q) + Abs(s.t.r) <= Pow2(n)
  {
    hide Steps;
    StepsTracked(c, n, eta, f0, g0);
  }

  lemma {:induction false} StepsTracked(c: int, n: nat, eta: int, f0: int, g0: int)
    requires f0 % 2 == 1
    ensures Tracks(n, f0, g0, Steps(c, n, Start(eta, f0, g0)))
  {
    hide Tracks, Step;
    if n == 0 {
      TracksStart(eta, f0, g0);
    } else {
      StepsTracked(c, n - 1, eta, f0, g0);
      TracksNext(c, n - 1, f0, g0, Steps(c, n - 1, Start(eta, f0, g0)));
    }
  }

  lemma TracksStart(eta: int, f0: int, g0: int)
    requires f0 % 2 == 1
    ensures Tracks(0, f0, g0, Start(eta, f0, g0))
  {
    hide Pow2, Det, Maps, RowSums;
    Pow2Zero();
    IdentityMaps(IDENTITY, f0, g0);
    IdentityDet(IDENTITY);
    IdentitySums(IDENTITY);
  }

  lemma IdentityMaps(t: Trans2x2, f0: int, g0: int)
    requires t.u == 1 && t.v == 0 && t.q == 0 && t.r == 1
    ensures Maps(t, f0, g0, 1, f0, g0)
  {
    UnitRow(t.u, t.v, f0, g0);
    UnitRow(t.r, t.q, g0, f0);
  }

  lemma IdentityDet(t: Trans2x2)
    requires t.u == 1 && t.v == 0 && t.r == 1
    ensures Det(t) == 1
  {
    UnitRow(t.u, t.v, t.r, t.q);
  }

  lemma IdentitySums(t: Trans2x2)
    requires t.u == 1 && t.v == 0 && t.q == 0 && t.r == 1
    ensures RowSums(t, 1)
  {
  }

  lemma UnitRow(u: int, v: int, x: int, y: int)
    requires u == 1 && v == 0
    ensures u * x + v * y == x && u * x - v * y == x
  {
  }

  lemma TracksNext(c: int, n: nat, f0: int, g0: int, s: State)
    requires Tracks(n, f0, g0, s)
    ensures Tracks(n + 1, f0, g0, Step(c, s))
  {
    hide Step, Det, Maps, RowSums;
    StepTracksEqs(c, Pow2(n), f0, g0, s);
    StepRowSums(c, Pow2(n), s);
    StepOdd(c, s);
  }

  /** The range -m < f <= m, -m < g < m survives every number of steps. */
  lemma {:induction false} StepsRange(c: int, n: nat, s: State, m: int)
    requires s.f % 2 == 1 && -m < s.f <= m && -m < s.g < m
    ensures Steps(c, n, s).f % 2 == 1
    ensures -m < Steps(c, n, s).f <= m && -m < Steps(c, n, s).g < m
  {
    if n > 0 {
      StepsRange(c, n - 1, s, m);
      hide Step;
      StepOdd(c, Steps(c, n - 1, s));
      StepRange(c, Steps(c, n - 1, s), m);
    }
  }

  lemma StepRange(c: int, s: State, m: int)
    requires s.f % 2 == 1 && -m < s.f <= m && -m < s.g < m
    ensures -m < Step(c, s).f <= m && -m < Step(c, s).g < m
  {
    if s.g % 2 == 1 { HalfRow(s.f, s.g, -1); }
  }

  lemma {:induction false} EtaBound(c: nat, n: nat, s: State)
    requires 1 <= c <= 2
    ensures Abs(Steps(c, n, s).eta) <= Abs(s.eta) + 2 * n
    ensures c == 1 ==> Abs(Steps(c, n, s).eta) <= Abs(s.eta) + n
  {
    if n > 0 { EtaBound(c, n - 1, s); }
  }

  lemma {:induction false} StepsCompose(c: int, m: nat, n: nat, s: State)
    ensures Steps(c, m + n, s) == Steps(c, n, Steps(c, m, s))
  {
    if n > 0 {
      StepsCompose(c, m, n - 1, s);
      assert m + n - 1 == m + (n - 1);
    }
  }

  /** With g = 0 the matrix only scales its first row. */
  lemma {:induction false} StepsOfZero(c: int, n: nat, eta: int, f: int)
    ensures var s := Steps(c, n, Start(eta, f, 0));
            s.g == 0 && s.f == f && s.t.v == 0 && s.t.q == 0
  {
    if n > 0 { StepsOfZero(c, n - 1, eta, f); }
  }

  lemma HalfCong(x: int, y: int, m: int)
    requires m > 0 && x % (2 * m) == y % (2 * m)
    ensures x % 2 == y % 2 && x % m == y % m && (x / 2) % m == (y / 2) % m
  {
    var k := CongElim(x, y, 2 * m);
    assert k * (2 * m) == 2 * (k * m) == (2 * k) * m;
    assert x / 2 == y / 2 + k * m;
    CongIntro(x / 2, y / 2, k, m);
    CongIntro(x, y, 2 * k, m);
  }

  lemma StepLowBits(c: int, m: int, a: State, b: State)
    requires m > 0 && a.eta == b.eta && a.t == b.t
    requires a.f % (2 * m) == b.f % (2 * m) && a.g % (2 * m) == b.g % (2 * m)
    ensures Step(c, a).eta == Step(c, b).eta && Step(c, a).t == Step(c, b).t
    ensures Step(c, a).f % m == Step(c, b).f % m && Step(c, a).g % m == Step(c, b).g % m
  {
    HalfCong(a.f, b.f, m);
    HalfCong(a.g, b.g, m);
    CongAdd(a.g, b.g, a.f, b.f, 2 * m);
    HalfCong(a.g + a.f, b.g + b.f, m);
    HalfCong(a.g - a.f, b.g - b.f, m);
  }

  /** n steps only look at the low n bits of f and g: the counter and the matrix agree, and
      what is left of f and g agrees on the bits not yet consumed. */
  lemma {:induction false} StepsLowBits(c: int, n: nat, k: nat, s: State, s': State)
    requires k <= n && s.eta == s'.eta && s.t == s'.t
    requires s.f % Pow2(n) == s'.f % Pow2(n) && s.g % Pow2(n) == s'.g % Pow2(n)
    ensures Steps(c, k, s).eta == Steps(c, k, s').eta && Steps(c, k, s).t == Steps(c, k, s').t
    ensures Steps(c, k, s).f % Pow2(n - k) == Steps(c, k, s').f % Pow2(n - k)
    ensures Steps(c, k, s).g % Pow2(n - k) == Steps(c, k, s').g % Pow2(n - k)
  {
    if k > 0 {
      StepsLowBits(c, n, k - 1, s, s');
      assert Pow2(n - (k - 1)) == 2 * Pow2(n - k);
      StepLowBits(c, Pow2(n - k), Steps(c, k - 1, s), Steps(c, k - 1, s'));
    }
  }

  /** Dividing g by 2^k at once, the effect of k steps on an even g. */
  function Shift(k: nat, s: State): State
  {
    var p := Pow2(k);
    State(s.eta - k, s.f, s.g / p, Trans2x2(p * s.t.u, p * s.t.v, s.t.q, s.t.r))
  }

  /** Adding w times the first row to the second. */
  function AddRow(s: State, w: int): State
  {
    State(s.eta, s.f, s.g + w * s.f, Trans2x2(s.t.u, s.t.v, s.t.q + w * s.t.u, s.t.r + w * s.t.v))
  }

  /** Replacing (f, g) by (g, -f) when eta is negative. */
  function Swap(s: State): State
  {
    State(-s.eta, s.g, -s.f, Trans2x2(s.t.q, s.t.r, -s.t.u, -s.t.v))
  }

  lemma HalveMultiple(x: int, p: int)
    requires p > 0 && x % (2 * p) == 0
    ensures x % 2 == 0 && (x / 2) % p == 0 && (x / 2) / p == x / (2 * p)
  {
    var y := x / (2 * p);
    assert x == y * (2 * p) == 2 * (y * p);
    DivModUnique(y * p, y, 0, p);
  }

  /** One step on an even g: the second row halved, by doubling the first. */
  function Halved(s: State): State
  {
    State(s.eta - 1, s.f, s.g / 2, Trans2x2(2 * s.t.u, 2 * s.t.v, s.t.q, s.t.r))
  }

  lemma ScaleTwice(p: int, u: int)
    ensures p * (2 * u) == (2 * p) * u
  {
  }

  lemma ShiftHalved(k: nat, s: State)
    requires k > 0 && s.g % Pow2(k) == 0
    ensures s.g % 2 == 0 && Halved(s).g % Pow2(k - 1) == 0
    ensures Shift(k - 1, Halved(s)) == Shift(k, s)
  {
    var p := Pow2(k - 1);
    HalveMultiple(s.g, p);
    ScaleTwice(p, s.t.u);
    ScaleTwice(p, s.t.v);
  }

  lemma StepsFront(c: int, k: nat, s: State)
    requires k > 0
    ensures Steps(c, k, s) == Steps(c, k - 1, Step(c, s))
  {
    StepsCompose(c, 1, k - 1, s);
    assert Steps(c, 1, s) == Step(c, Steps(c, 0, s));
  }

  lemma {:induction false} StepsOnMultiple(c: int, k: nat, s: State)
    requires s.g % Pow2(k) == 0
    ensures Steps(c, k, s) == Shift(k, s)
  {
    if k > 0 {
      ShiftHalved(k, s);
      assert Step(c, s) == Halved(s);
      StepsOnMultiple(c, k - 1, Halved(s));
      StepsFront(c, k, s);
    } else {
      assert Shift(0, s) == s;
    }
  }

  lemma DivDiv(x: int, a: int, b: int)
    requires a > 0 && b > 0 && a * b > 0 && x % (a * b) == 0
    ensures x % a == 0 && (x / a) % b == 0 && (x / a) / b == x / (a * b)
  {
    var y := x / (a * b);
    assert x == y * (a * b) == (y * b) * a;
    DivModUnique(x, y * b, 0, a);
    DivModUnique(y * b, y, 0, b);
  }

  lemma ShiftShift(j: nat, k: nat, s: State)
    requires s.g % Pow2(j + k) == 0
    ensures Shift(j, s).g % Pow2(k) == 0
    ensures Shift(j + k, s) == Shift(k, Shift(j, s))
  {
    Pow2Add(j, k);
    var a, b := Pow2(j), Pow2(k);
    DivDiv(s.g, a, b);
    MulAssoc(b, a, s.t.u);
    MulAssoc(b, a, s.t.v);
  }

  lemma LowBit(w: int, f: int)
    requires f % 2 == 1
    ensures (w * f) % 2 == w % 2
  {
    var h := f / 2;
    assert w * (2 * h + 1) == (w * h) * 2 + w;
    CongIntro(w * f, w, w * h, 2);
  }

  lemma SplitLow(w: int, w1: int, b: int, x: int)
    requires w == 2 * w1 + b
    ensures w * x == b * x + 2 * (w1 * x) == b * x + w1 * (2 * x)
  {
  }

  lemma OddSummand(g: int, x: int, b: int)
    requires (g + x) % 2 == 0 && x % 2 == b
    ensures g % 2 == b
  {
  }

  lemma HalfSum(g: int, y: int, z: int)
    requires (g + y) % 2 == 0
    ensures (g + y) / 2 + z == (g + y + 2 * z) / 2
  {
  }

  /** One step while the counter is not negative, as part of adding w times f. */
  lemma CancelStep(c: int, w: nat, s: State)
    requires s.f % 2 == 1 && s.eta >= 0 && (s.g + w * s.f) % 2 == 0
    ensures AddRow(Step(c, s), w / 2) == Halved(AddRow(s, w)) && Step(c, s).f == s.f && Step(c, s).eta == s.eta - 1
  {
    var Trans2x2(u, v, q, r) := s.t;
    var b, w1 := w % 2, w / 2;
    LowBit(w, s.f);
    OddSummand(s.g, w * s.f, b);
    SplitLow(w, w1, b, s.f);
    SplitLow(w, w1, b, u);
    SplitLow(w, w1, b, v);
    HalfSum(s.g, b * s.f, w1 * s.f);
    if b == 1 {
      assert Step(c, s) == State(s.eta - 1, s.f, (s.g + 1 * s.f) / 2, Trans2x2(2 * u, 2 * v, q + u, r + v));
    } else {
      assert Step(c, s) == State(s.eta - 1, s.f, (s.g + 0 * s.f) / 2, Trans2x2(2 * u, 2 * v, q, r));
    }
  }

  /** Cancelling k low bits of g at once: any multiple w < 2^k of f that clears them is the
      one the k single steps add, as long as the counter stays on one side. */
  lemma {:induction false} CancelBits(c: int, k: nat, w: nat, s: State)
    requires s.f % 2 == 1 && s.eta >= k - 1 && w < Pow2(k)
    requires (s.g + w * s.f) % Pow2(k) == 0
    ensures Steps(c, k, s) == Shift(k, AddRow(s, w))
  {
    if k == 0 {
      assert w == 0;
      assert AddRow(s, 0) == s && Shift(0, s) == s;
    } else {
      hide Step, Shift;
      ShiftHalved(k, AddRow(s, w));
      CancelStep(c, w, s);
      CancelBits(c, k - 1, w / 2, Step(c, s));
      StepsFront(c, k, s);
    }
  }

  lemma SwapStep(s: State)
    requires s.f % 2 == 1 && s.g % 2 == 1 && s.eta < 0
    ensures Step(1, Swap(s)) == Step(1, s)
  {
  }

  /** The same when the counter is negative and the pair is swapped first. */
  lemma CancelBitsSwapped(k: nat, w: nat, s: State)
    requires s.f % 2 == 1 && s.g % 2 == 1 && s.eta < 0 && 0 < k <= -s.eta + 1 && w < Pow2(k)
    requires (-s.f + w * s.g) % Pow2(k) == 0
    ensures Steps(1, k, s) == Shift(k, AddRow(Swap(s), w))
  {
    var z := Swap(s);
    CancelBits(1, k, w, z);
    SwapStep(s);
    StepsFront(1, k, s);
    StepsFront(1, k, z);
  }

  lemma EvenProduct(h: int) returns (t: int)
    ensures h * (h + 1) == 2 * t
  {
    if h % 2 == 0 {
      t := (h / 2) * (h + 1);
      MulAssoc(2, h / 2, h + 1);
    } else {
      t := h * ((h + 1) / 2);
      MulAssoc(2, (h + 1) / 2, h);
    }
  }

  lemma OddSquare(f: int) returns (t: int)
    requires f % 2 == 1
    ensures f * f == 8 * t + 1
  {
    var h := f / 2;
    t := EvenProduct(h);
    assert f == 2 * h + 1;
    assert (2 * h + 1) * (2 * h + 1) == 4 * (h * (h + 1)) + 1;
  }

  lemma ClearsPow2(x: int, z: int, i: nat, k: nat)
    requires k <= i && x == z * Pow2(i)
    ensures x % Pow2(k) == 0
  {
    Pow2Add(i - k, k);
    MulAssoc(z, Pow2(i - k), Pow2(k));
    DivModUnique(x, z * Pow2(i - k), 0, Pow2(k));
  }

  /** The closed form w = f*g*(f*f-2) clears up to six bits of g, because f*f = 1 mod 8. */
  lemma SixBitFormula(f: int, g: int, k: nat)
    requires f % 2 == 1 && k <= 6
    ensures (g + (f * g * (f * f - 2)) * f) % Pow2(k) == 0
  {
    var t := OddSquare(f);
    var ff := f * f;
    calc {
      g + (f * g * (ff - 2)) * f;
      { assert (f * g * (ff - 2)) * f == (f * f) * (g * (ff - 2)); }
      g + ff * (g * (ff - 2));
      g + (8 * t + 1) * (g * (8 * t - 1));
      64 * (g * (t * t));
    }
    assert Pow2(6) == 64;
    ClearsPow2(g + (f * g * (f * f - 2)) * f, g * (t * t), 6, k);
  }

  function FourBitInverse(f: int): int
  {
    f + 2 * (if (f + 1) / 4 % 2 == 1 then 4 else 0)
  }

  lemma FourBitInverseTable(l: int)
    requires 0 <= l < 16 && l % 2 == 1
    ensures (FourBitInverse(l) * l) % 16 == 1
  {
    assert l in {1, 3, 5, 7, 9, 11, 13, 15};
  }

  lemma InverseClears(i: int, f: int, g: int, z: int)
    requires i * f == 16 * z + 1
    ensures g + (-i * g) * f == (-z * g) * 16
  {
    assert (-i * g) * f == -((i * f) * g);
  }

  lemma FourBitInversePeriod(h: int, l: int)
    ensures FourBitInverse(16 * h + l) == FourBitInverse(l) + h * 16
  {
    assert (16 * h + l + 1) / 4 == (l + 1) / 4 + 4 * h;
    CongIntro((l + 1) / 4 + 4 * h, (l + 1) / 4, 2 * h, 2);
  }

  lemma FourBitInverseMod16(f: int)
    ensures FourBitInverse(f) % 16 == FourBitInverse(f % 16) % 16
  {
    FourBitInversePeriod(f / 16, f % 16);
    CongIntro(FourBitInverse(f), FourBitInverse(f % 16), f / 16, 16);
  }

  lemma OddMod16(f: int)
    requires f % 2 == 1
    ensures 0 <= f % 16 < 16 && (f % 16) % 2 == 1
  {
    CongIntro(f, f % 16, 8 * (f / 16), 2);
  }

  lemma InverseMod16(i: int, f: int, il: int, l: int) returns (z: int)
    requires i % 16 == il % 16 && f % 16 == l % 16 && (il * l) % 16 == 1
    ensures i * f == 16 * z + 1
  {
    CongMul(i, il, f, l, 16);
    z := (i * f) / 16;
  }

  lemma FourBitInverts(f: int) returns (z: int)
    requires f % 2 == 1
    ensures FourBitInverse(f) * f == 16 * z + 1
  {
    hide FourBitInverse;
    OddMod16(f);
    FourBitInverseTable(f % 16);
    FourBitInverseMod16(f);
    z := InverseMod16(FourBitInverse(f), f, FourBitInverse(f % 16), f % 16);
  }

  /** The simpler formula: f + (((f+1) & 4) << 1) inverts f modulo 16. */
  lemma FourBitFormula(f: int, g: int, k: nat)
    requires f % 2 == 1 && k <= 4
    ensures (g + (-FourBitInverse(f) * g) * f) % Pow2(k) == 0
  {
    hide FourBitInverse;
    var z := FourBitInverts(f);
    assert Pow2(4) == 16;
    hide Pow2;
    InverseClears(FourBitInverse(f), f, g, z);
    ClearsPow2(g + (-FourBitInverse(f) * g) * f, -z * g, 4, k);
  }
}
