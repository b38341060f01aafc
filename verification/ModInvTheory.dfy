/** Why the division steps invert: the numbers behind d, e, f, g of the extended algorithm. */
module ModInvTheory {
  import opened Arith
  import opened MachineInts
  import opened DivSteps
  import opened NumberTheory

  ghost predicate Coprime(a: int, b: int)
  {
    forall k: int :: k > 0 && Divides(k, a) && Divides(k, b) ==> k == 1
  }

  /** Every common divisor of (f, g) still divides the original pair (m, x). */
  ghost predicate KeepsDivisors(f: int, g: int, m: int, x: int)
  {
    forall k: int :: k > 0 && Divides(k, f) && Divides(k, g) ==> Divides(k, m) && Divides(k, x)
  }

  /** The invariant of the inversion loop: d*x = f, e*x = g (mod m). */
  ghost predicate Extended(d: int, e: int, f: int, g: int, m: int, x: int)
  {
    && m > 0 && m % 2 == 1
    && (d * x) % m == f % m && (e * x) % m == g % m
    && f % 2 == 1 && -m < f <= m && -m < g < m
    && KeepsDivisors(f, g, m, x)
    && (x == 0 ==> f == m && g == 0 && d % m == 0)
  }

  /** n division steps from (M, x) make g zero. */
  ghost predicate Finishes(c: int, n: nat, m: int, x: int)
  {
    Steps(c, n, Start(-1, m, x)).g == 0
  }

  ghost predicate IsInverse(r: int, x: int, m: int)
    requires m > 0
  {
    0 <= r < m && (x == 0 ==> r == 0) && (x != 0 ==> (x * r) % m == 1)
  }

  lemma InverseMeans(r: int, x: int, m: int)
    requires m > 0 && IsInverse(r, x, m)
    ensures 0 <= r < m && (x == 0 ==> r == 0) && (x != 0 ==> (x * r) % m == 1)
  {
  }

  lemma FinishesMeans(c: int, n: nat, m: int, x: int)
    ensures Finishes(c, n, m, x) <==> Steps(c, n, Start(-1, m, x)).g == 0
  {
  }

  lemma HalfDivides(m: int, y: int)
    requires m > 0 && m % 2 == 1 && (2 * y) % m == 0
    ensures y % m == 0
  {
    var j, k := m / 2, (2 * y) / m;
    assert m == 2 * j + 1 && 2 * y == k * m;
    HalfMultiple(m, j, k, y);
    DivModUnique(y, y - j * k, 0, m);
  }

  lemma HalfMultiple(m: int, j: int, k: int, y: int)
    requires m == 2 * j + 1 && 2 * y == k * m
    ensures y == (y - j * k) * m
  {
    calc {
      (y - j * k) * m;
      y * m - j * (k * m);
      y * (2 * j + 1) - j * (2 * y);
      y;
    }
  }

  /** A power of two can be cancelled modulo an odd number. */
  lemma {:induction false} OddDivides(m: int, n: nat, y: int)
    requires m > 0 && m % 2 == 1 && (Pow2(n) * y) % m == 0
    ensures y % m == 0
  {
    if n > 0 {
      MulAssoc(2, Pow2(n - 1), y);
      HalfDivides(m, Pow2(n - 1) * y);
      OddDivides(m, n - 1, y);
    }
  }

  lemma CancelPower(m: int, n: nat, a: int, b: int)
    requires m > 0 && m % 2 == 1 && (Pow2(n) * a) % m == (Pow2(n) * b) % m
    ensures a % m == b % m
  {
    hide Pow2;
    var p := Pow2(n);
    CongAdd(p * a, p * b, p * b, p * b, m);
    assert p * (a - b) == p * a - p * b;
    DivModUnique(0, 0, 0, m);
    OddDivides(m, n, a - b);
    CongAdd(a - b, 0, b, b, m);
  }

  /** One row of the update keeps d*x = f (mod m). */
  lemma RowCongruence(u: int, v: int, d: int, e: int, f: int, g: int, d': int, f': int, m: int, x: int)
    requires m > 0 && m % 2 == 1
    requires (d * x) % m == f % m && (e * x) % m == g % m
    requires (TWO62 * d') % m == (u * d + v * e) % m
    requires u * f + v * g == TWO62 * f'
    ensures (d' * x) % m == f' % m
  {
    var a := u * d + v * e;
    CongMul(TWO62 * d', a, x, x, m);
    CongMul(u, u, d * x, f, m);
    CongMul(v, v, e * x, g, m);
    CongAdd(u * (d * x), u * f, v * (e * x), v * g, m);
    RowTimes(u, v, d, e, x, d');
    PowersOfTwo();
    CancelPower(m, 62, d' * x, f');
  }

  lemma RowTimes(u: int, v: int, d: int, e: int, x: int, d': int)
    ensures (u * d + v * e) * x == u * (d * x) + v * (e * x)
    ensures (TWO62 * d') * x == TWO62 * (d' * x)
  {
  }

  /** Cramer's rule: one entry of the old pair from the new one. */
  lemma Cofactor(p: int, u: int, v: int, q: int, r: int, f: int, g: int, f': int, g': int)
    requires p > 0 && u * f + v * g == p * f' && q * f + r * g == p * g' && u * r - v * q == p
    ensures f == r * f' + (-v) * g'
  {
    calc {
      p * (r * f' + (-v) * g');
      r * (p * f') - v * (p * g');
      r * (u * f + v * g) - v * (q * f + r * g);
      (u * r - v * q) * f;
      p * f;
    }
    CancelFactor(p, r * f' + (-v) * g', f);
  }

  lemma CancelFactor(p: int, a: int, b: int)
    requires p > 0 && p * a == p * b
    ensures a == b
  {
    assert p * (a - b) == 0;
  }

  /** The adjugate of the matrix expresses the old pair by the new one, so no common
      divisor is lost or gained. */
  lemma DivisorsKept(c: int, n: nat, eta: int, f: int, g: int, m: int, x: int)
    requires f % 2 == 1 && KeepsDivisors(f, g, m, x)
    ensures var s := Steps(c, n, Start(eta, f, g)); KeepsDivisors(s.f, s.g, m, x)
  {
    var s := Steps(c, n, Start(eta, f, g));
    StepsTracked(c, n, eta, f, g);
    var Trans2x2(u, v, q, r) := s.t;
    Cofactor(Pow2(n), u, v, q, r, f, g, s.f, s.g);
    Cofactor(Pow2(n), r, q, v, u, g, f, s.g, s.f);
    forall k: int | k > 0 && Divides(k, s.f) && Divides(k, s.g)
      ensures Divides(k, m) && Divides(k, x)
    {
      DividesCombination(k, s.f, s.g, r, -v);
      DividesCombination(k, s.g, s.f, u, -q);
    }
  }

  /** A batch of steps with the matching update of d and e keeps the loop invariant. The
      matrix handed to the updates may be scaled, as in the constant-time code. */
  lemma ExtendedStep(c: int, n: nat, scale: int, eta: int, d: int, e: int, f: int, g: int, d': int, e': int, m: int, x: int)
    requires Extended(d, e, f, g, m, x) && scale * Pow2(n) == TWO62
    requires var t := Steps(c, n, Start(eta, f, g)).t;
             && (TWO62 * d') % m == ((scale * t.u) * d + (scale * t.v) * e) % m
             && (TWO62 * e') % m == ((scale * t.q) * d + (scale * t.r) * e) % m
    ensures var s := Steps(c, n, Start(eta, f, g)); Extended(d', e', s.f, s.g, m, x)
  {
    hide Steps, KeepsDivisors, Pow2;
    var s := Steps(c, n, Start(eta, f, g));
    var t := s.t;
    StepsRows(c, n, scale, eta, f, g);
    RowCongruence(scale * t.u, scale * t.v, d, e, f, g, d', s.f, m, x);
    RowCongruence(scale * t.q, scale * t.r, d, e, f, g, e', s.g, m, x);
    StepsRange(c, n, Start(eta, f, g), m);
    DivisorsKept(c, n, eta, f, g, m, x);
    if x == 0 {
      StepsOfZero(c, n, eta, f);
      ZeroRow(scale * t.u, scale * t.v, d, e, d', m);
    }
  }

  lemma StepsRows(c: int, n: nat, scale: int, eta: int, f: int, g: int)
    requires f % 2 == 1 && scale * Pow2(n) == TWO62
    ensures var s := Steps(c, n, Start(eta, f, g));
            && (scale * s.t.u) * f + (scale * s.t.v) * g == TWO62 * s.f
            && (scale * s.t.q) * f + (scale * s.t.r) * g == TWO62 * s.g
  {
    hide Steps, Pow2;
    var s := Steps(c, n, Start(eta, f, g));
    StepsTracked(c, n, eta, f, g);
    ScaledRow(scale, Pow2(n), s.t.u, s.t.v, f, g, s.f);
    ScaledRow(scale, Pow2(n), s.t.q, s.t.r, f, g, s.g);
  }

  lemma ScaledRow(scale: int, p: int, u: int, v: int, f: int, g: int, f': int)
    requires u * f + v * g == p * f' && scale * p == TWO62
    ensures (scale * u) * f + (scale * v) * g == TWO62 * f'
  {
    calc {
      (scale * u) * f + (scale * v) * g;
      scale * (u * f + v * g);
      scale * (p * f');
      (scale * p) * f';
    }
  }

  lemma ZeroRow(u: int, v: int, d: int, e: int, d': int, m: int)
    requires m > 0 && m % 2 == 1 && d % m == 0 && v == 0 && (TWO62 * d') % m == (u * d + v * e) % m
    ensures d' % m == 0
  {
    DivModUnique(0, 0, 0, m);
    CongMul(u, u, d, 0, m);
    PowersOfTwo();
    CancelPower(m, 62, d', 0);
  }

  lemma ExtendedStart(m: int, x: int)
    requires m >= 3 && m % 2 == 1 && 0 <= x < m
    ensures Extended(0, 1, m, x, m, x)
  {
    CongIntro(m, 0, 1, m);
    DivModUnique(0, 0, 0, m);
  }

  /** When g has become 0, f is a unit (or x was 0) and the signed d is the inverse. */
  lemma ExtendedEnd(d: int, e: int, f: int, m: int, x: int, r: int)
    requires m >= 3 && 0 <= x < m && Extended(d, e, f, 0, m, x) && (x == 0 || Coprime(x, m))
    requires r == (if f < 0 then -d else d) % m
    ensures IsInverse(r, x, m)
  {
    DivModUnique(0, 0, 0, m);
    if x == 0 {
      CongAdd(0, 0, d, 0, m);
    } else {
      var k := Abs(f);
      DividesIntro(k, 0, 0);
      DividesIntro(k, f, if f < 0 then -1 else 1);
      assert k == 1;
      var y := if f < 0 then -d else d;
      CongAdd(0, 0, d * x, f, m);
      assert (y * x) % m == 1 % m by { assert y == -d ==> y * x == -(d * x); }
      ModMul(y, x, m);
      DivModUnique(1, 0, 1, m);
    }
  }
}
