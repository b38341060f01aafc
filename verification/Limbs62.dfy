/** Signed 62-bit limb numbers and their in-place updates by a transition matrix. */
module Limbs62 {
  import opened Arith
  import opened MachineInts
  import opened DivSteps

  /** The number denoted by limbs, least significant first. */
  function Val(v: seq<int>): int
  {
    if v == [] then 0 else v[0] + TWO62 * Val(v[1..])
  }

  lemma {:induction false} ValSnoc(v: seq<int>, x: int)
    ensures Val(v + [x]) == Val(v) + x * Pow(TWO62, |v|)
  {
    if v == [] {
      assert v + [x] == [x];
      assert Val([x]) == x + TWO62 * Val([x][1..]);
    } else {
      assert (v + [x])[1..] == v[1..] + [x];
      ValSnoc(v[1..], x);
      var p := Pow(TWO62, |v| - 1);
      assert TWO62 * (x * p) == x * (TWO62 * p);
    }
  }

  lemma ValInit(v: seq<int>)
    requires |v| > 0
    ensures Val(v) == Val(v[..|v| - 1]) + v[|v| - 1] * Pow(TWO62, |v| - 1)
  {
    ValSnoc(v[..|v| - 1], v[|v| - 1]);
    assert v[..|v| - 1] + [v[|v| - 1]] == v;
  }

  predicate Low(x: int) { 0 <= x < TWO62 }

  predicate LowLimbs(v: seq<int>) { forall k :: 0 <= k < |v| ==> Low(v[k]) }

  /** All limbs below the top one are reduced; the top one carries the sign. */
  predicate Normal(v: seq<int>) { |v| > 0 && LowLimbs(v[..|v| - 1]) }

  /** The ranges of the limbs. */
  lemma LimbRanges(v: seq<int>)
    ensures LowLimbs(v) <==> forall k :: 0 <= k < |v| ==> 0 <= v[k] < 0x4000_0000_0000_0000
    ensures Normal(v) <==> |v| > 0 && forall k :: 0 <= k < |v| - 1 ==> 0 <= v[k] < 0x4000_0000_0000_0000
    ensures LimbsFit(v) <==> forall k :: 0 <= k < |v| ==> -0x4000_0000_0000_0000 <= v[k] <= 0x4000_0000_0000_0000
  {
    assert forall k :: 0 <= k < |v| ==> (Low(v[k]) <==> 0 <= v[k] < TWO62);
    assert Normal(v) ==> forall k :: 0 <= k < |v| - 1 ==> v[..|v| - 1][k] == v[k];
  }

  lemma {:induction false} LowRange(v: seq<int>)
    requires LowLimbs(v)
    ensures 0 <= Val(v) < Pow(TWO62, |v|)
  {
    if v != [] {
      assert Low(v[0]);
      LowRange(v[1..]);
    }
  }

  /** The top limb is the number shifted right arithmetically. */
  lemma TopLimb(v: seq<int>)
    requires Normal(v)
    ensures Pow(TWO62, |v| - 1) > 0
    ensures v[|v| - 1] == Val(v) / Pow(TWO62, |v| - 1)
    ensures v[|v| - 1] < 0 <==> Val(v) < 0
  {
    var n := |v| - 1;
    ValInit(v);
    LowRange(v[..n]);
    var p := Pow(TWO62, n);
    DivModUnique(Val(v), v[n], Val(v[..n]), p);
    if v[n] < 0 { MulMono(v[n], -1, p); } else { MulMono(0, v[n], p); }
  }

  lemma QuotientBound(t: int, p: int, r: int)
    requires 0 <= r < p && Abs(t * p + r) <= TWO62 * p
    ensures -TWO62 <= t <= TWO62
  {
    if t > TWO62 { MulMono(TWO62 + 1, t, p); }
    if t < -TWO62 { MulMono(t, -TWO62 - 1, p); }
  }

  lemma TopLimbBound(v: seq<int>)
    requires Normal(v) && Abs(Val(v)) <= Pow(TWO62, |v|)
    ensures -TWO62 <= v[|v| - 1] <= TWO62
  {
    hide Val, Pow;
    var n := |v| - 1;
    ValInit(v);
    LowRange(v[..n]);
    PowStep(TWO62, n);
    QuotientBound(v[n], Pow(TWO62, n), Val(v[..n]));
  }

  lemma ProductBound(x: int, y: int, k: int)
    requires Abs(y) <= k
    ensures 0 - Abs(x) * k <= x * y <= Abs(x) * k
  {
    if x >= 0 {
      MulMono(y, k, x);
      MulMono(-k, y, x);
    } else {
      MulMono(y, k, -x);
      MulMono(-k, y, -x);
    }
  }

  /** A matrix row with absolute sum at most 2^62 times two limbs fits a 128-bit accumulator. */
  lemma RowBound(u: int, v: int, x: int, y: int, k: int)
    requires Abs(u) + Abs(v) <= TWO62 && Abs(x) <= k && Abs(y) <= k
    ensures Abs(u * x + v * y) <= TWO62 * k
  {
    ProductBound(u, x, k);
    ProductBound(v, y, k);
    var a, b := Abs(u), Abs(v);
    hide Abs;
    MulMono(a + b, TWO62, k);
    assert (a + b) * k == a * k + b * k;
  }

  ghost predicate RowFits(u: int, v: int)
  {
    Abs(u) + Abs(v) <= TWO62
  }

  ghost predicate LimbsFit(v: seq<int>)
  {
    forall k :: 0 <= k < |v| ==> -TWO62 <= v[k] <= TWO62
  }

  /** One matrix row applied limb by limb. */
  function Row(u: int, v: int, fs: seq<int>, gs: seq<int>): seq<int>
    requires |fs| == |gs|
  {
    seq(|fs|, k requires 0 <= k < |fs| => u * fs[k] + v * gs[k])
  }

  lemma {:induction false} ValRow(u: int, v: int, fs: seq<int>, gs: seq<int>)
    requires |fs| == |gs|
    ensures Val(Row(u, v, fs, gs)) == u * Val(fs) + v * Val(gs)
  {
    if fs != [] {
      var f1, g1 := fs[1..], gs[1..];
      assert Row(u, v, fs, gs)[1..] == Row(u, v, f1, g1);
      ValRow(u, v, f1, g1);
      RowHead(u, v, fs[0], gs[0], Val(f1), Val(g1));
    }
  }

  lemma RowHead(u: int, v: int, f: int, g: int, x: int, y: int)
    ensures (u * f + v * g) + TWO62 * (u * x + v * y) == u * (f + TWO62 * x) + v * (g + TWO62 * y)
  {
  }

  const ROW_MAX := 0x4000_0000_0000_0000 * 0x1_0000_0000_0000_0000

  ghost predicate RowTerms(ps: seq<int>)
  {
    forall k :: 0 <= k < |ps| ==> Abs(ps[k]) <= ROW_MAX
  }

  /** What a carry chain over the row terms ps has produced after i of them. */
  ghost predicate Chain(ps: seq<int>, i: nat, out: seq<int>, c: int)
  {
    && 1 <= i <= |ps| && |out| == i - 1 && LowLimbs(out) && Abs(c) <= 2 * TWO64 && RowTerms(ps)
    && Val(ps[..i]) == TWO62 * (Val(out) + c * Pow(TWO62, i - 1))
  }

  lemma CarryStep(x: int, p: int, out: int, c: int, t: int)
    requires x == TWO62 * (out + c * p)
    ensures var c' := c + t;
            var w := TWO62 * p;
            x + t * w == TWO62 * ((out + (c' % TWO62) * p) + (c' / TWO62) * w)
  {
    var c' := c + t;
    var lo, hi := c' % TWO62, c' / TWO62;
    calc {
      x + t * (TWO62 * p);
      TWO62 * (out + c' * p);
      { assert c' == hi * TWO62 + lo; assert c' * p == hi * (TWO62 * p) + lo * p; }
      TWO62 * ((out + lo * p) + hi * (TWO62 * p));
    }
  }

  lemma PrefixVal(v: seq<int>, i: nat)
    requires i < |v|
    ensures Val(v[..i + 1]) == Val(v[..i]) + v[i] * Pow(TWO62, i)
  {
    assert v[..i] + [v[i]] == v[..i + 1];
    ValSnoc(v[..i], v[i]);
  }

  lemma ChainStart(ps: seq<int>)
    requires |ps| > 0 && RowTerms(ps) && ps[0] % TWO62 == 0
    ensures Abs(ps[0]) < TWO127 && Chain(ps, 1, [], ps[0] / TWO62)
  {
    PrefixVal(ps, 0);
  }

  lemma ChainNext(ps: seq<int>, i: nat, out: seq<int>, c: int)
    requires Chain(ps, i, out, c) && i < |ps|
    ensures Abs(c) <= 2 * TWO64 && Abs(c + ps[i]) < TWO127
    ensures Chain(ps, i + 1, out + [(c + ps[i]) % TWO62], (c + ps[i]) / TWO62)
  {
    PrefixVal(ps, i);
    ValSnoc(out, (c + ps[i]) % TWO62);
    CarryStep(Val(ps[..i]), Pow(TWO62, i - 1), Val(out), c, ps[i]);
  }

  lemma ChainEnd(ps: seq<int>, out: seq<int>, c: int)
    requires Chain(ps, |ps|, out, c)
    ensures TWO62 * Val(out + [c]) == Val(ps) && Normal(out + [c])
  {
    assert ps[..|ps|] == ps;
    ValSnoc(out, c);
    assert (out + [c])[..|ps| - 1] == out;
  }

  lemma RowTermsBound(u: int, v: int, fs: seq<int>, gs: seq<int>)
    requires |fs| == |gs| && RowFits(u, v) && LimbsFit(fs) && LimbsFit(gs)
    ensures RowTerms(Row(u, v, fs, gs))
  {
    forall k | 0 <= k < |fs|
      ensures Abs(u * fs[k] + v * gs[k]) <= ROW_MAX
    {
      RowBound(u, v, fs[k], gs[k], TWO62);
    }
  }

  /** Dividing a row by 2^62 keeps a common bound on the operands. */
  lemma RowKeepsBound(u: int, v: int, x: int, y: int, z: int, k: int)
    requires RowFits(u, v) && Abs(x) <= k && Abs(y) <= k && TWO62 * z == u * x + v * y
    ensures Abs(z) <= k
  {
    RowBound(u, v, x, y, k);
  }

  /** Add limb i of a row to the carry, and write the low 62 bits one limb below. */
  method EmitLimb(out: array<int>, i: nat, c: int128, term: int, ghost ps: seq<int>) returns (c': int128)
    requires 0 < i < |ps| && i <= out.Length && term == ps[i] && Chain(ps, i, out[..i - 1], c)
    modifies out
    ensures Chain(ps, i + 1, out[..i], c')
    ensures forall k :: 0 <= k < out.Length && k != i - 1 ==> out[k] == old(out[k])
  {
    hide Chain;
    ghost var o := out[..i - 1];
    ChainNext(ps, i, o, c);
    var sum: int128 := c + term;
    out[i - 1] := sum % TWO62;
    assert out[..i] == o + [sum % TWO62];
    c' := sum / TWO62;
  }

  /** update_fg_62_var (and, with len = 5, update_fg_62): (f, g) becomes t*(f, g) / 2^62. */
  method UpdateFg62Var(len: nat, f: array<int>, g: array<int>, t: Trans2x2)
    requires 0 < len <= f.Length && len <= g.Length && f != g
    requires RowFits(t.u, t.v) && RowFits(t.q, t.r) && LimbsFit(f[..len]) && LimbsFit(g[..len])
    requires Abs(Val(f[..len])) <= Pow(TWO62, len) && Abs(Val(g[..len])) <= Pow(TWO62, len)
    requires (t.u * f[0] + t.v * g[0]) % TWO62 == 0 && (t.q * f[0] + t.r * g[0]) % TWO62 == 0
    modifies f, g
    ensures TWO62 * Val(f[..len]) == t.u * old(Val(f[..len])) + t.v * old(Val(g[..len]))
    ensures TWO62 * Val(g[..len]) == t.q * old(Val(f[..len])) + t.r * old(Val(g[..len]))
    ensures Normal(f[..len]) && Normal(g[..len]) && LimbsFit(f[..len]) && LimbsFit(g[..len])
    ensures f[len..] == old(f[len..]) && g[len..] == old(g[len..])
  {
    hide Chain, Val, Normal, RowFits, LimbsFit, RowTerms, Pow;
    var Trans2x2(u, v, q, r) := t;
    ghost var fs, gs := f[..len], g[..len];
    ghost var ps, qs := Row(u, v, fs, gs), Row(q, r, fs, gs);
    RowTermsBound(u, v, fs, gs);
    RowTermsBound(q, r, fs, gs);
    ChainStart(ps);
    ChainStart(qs);
    var cf: int128 := u * f[0] + v * g[0];
    var cg: int128 := q * f[0] + r * g[0];
    cf := cf / TWO62;
    cg := cg / TWO62;
    var i := 1;
    while i < len
      invariant 1 <= i <= len
      invariant forall k :: i - 1 <= k < f.Length ==> f[k] == old(f[k])
      invariant forall k :: i - 1 <= k < g.Length ==> g[k] == old(g[k])
      invariant Chain(ps, i, f[..i - 1], cf) && Chain(qs, i, g[..i - 1], cg)
    {
      var fi, gi := f[i], g[i];
      assert fi == fs[i] && gi == gs[i];
      cf := EmitLimb(f, i, cf, u * fi + v * gi, ps);
      cg := EmitLimb(g, i, cg, q * fi + r * gi, qs);
      i := i + 1;
    }
    ghost var fo, go := f[..len - 1], g[..len - 1];
    ChainEnd(ps, fo, cf);
    ChainEnd(qs, go, cg);
    ValRow(u, v, fs, gs);
    ValRow(q, r, fs, gs);
    f[len - 1] := cf;
    g[len - 1] := cg;
    assert f[..len] == fo + [cf] && g[..len] == go + [cg];
    UpdatedLimbsFit(u, v, fs, gs, f[..len]);
    UpdatedLimbsFit(q, r, fs, gs, g[..len]);
  }

  /** Every limb written is a faithful 64-bit word. */
  lemma UpdatedLimbsFit(u: int, v: int, fs: seq<int>, gs: seq<int>, out: seq<int>)
    requires RowFits(u, v) && |out| == |fs| && Normal(out)
    requires Abs(Val(fs)) <= Pow(TWO62, |fs|) && Abs(Val(gs)) <= Pow(TWO62, |fs|)
    requires TWO62 * Val(out) == u * Val(fs) + v * Val(gs)
    ensures LimbsFit(out) && Abs(Val(out)) <= Pow(TWO62, |out|)
  {
    RowKeepsBound(u, v, Val(fs), Val(gs), Val(out), Pow(TWO62, |fs|));
    NormalFits(out);
  }

  lemma NormalFits(v: seq<int>)
    requires Normal(v) && Abs(Val(v)) <= Pow(TWO62, |v|)
    ensures LimbsFit(v)
  {
    TopLimbBound(v);
    forall k | 0 <= k < |v| - 1
      ensures Low(v[k])
    {
      assert v[k] == v[..|v| - 1][k];
    }
  }
}
