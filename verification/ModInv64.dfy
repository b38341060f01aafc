/** Modular inversion with 62-bit limbs: update_de, normalize and the two entry points
    of modinv64_impl.h. */
module ModInv64 {
  import opened Arith
  import opened MachineInts
  import opened DivSteps
  import opened Limbs62
  import opened ModInvBatch
  import opened ModInvTheory

  /** The modulus (odd, in [3, 2^256], in five signed limbs) and its inverse modulo 2^62. */
  datatype ModInfo = ModInfo(modulus: seq<int>, modulusInv62: uint64)

  ghost predicate ValidInfo(info: ModInfo)
  {
    && |info.modulus| == 5 && SignedLimbs(info.modulus)
    && Val(info.modulus) % 2 == 1 && 3 <= Val(info.modulus) <= Pow2(256)
    && (info.modulusInv62 * Val(info.modulus)) % TWO62 == 1
  }

  predicate SignedLimbs(v: seq<int>) { forall k :: 0 <= k < |v| ==> -TWO62 < v[k] < TWO62 }

  ghost predicate InRange(x: int, m: int) { -2 * m < x < m }

  // ----- low limb facts -----

  lemma ValLow(v: seq<int>)
    requires |v| > 0
    ensures Val(v) % TWO62 == v[0] % TWO62
  {
    CongIntro(Val(v), v[0], Val(v[1..]), TWO62);
  }

  lemma ModulusFitsLimbs(m: int)
    requires 0 <= m <= Pow2(256)
    ensures 4 * m <= Pow(TWO62, 5)
  {
    PowersOfTwo();
    assert Pow2(2) == 4;
    Pow2Add(2, 256);
    Pow2Mono(258, 310);
    Pow2Add(62, 62);
    Pow2Add(124, 62);
    Pow2Add(186, 62);
    Pow2Add(248, 62);
  }

  // ----- update_de_62 -----

  /** The multiple of the modulus that clears the low 62 bits of an accumulator cd. */
  function Correction(cd: int, md: int, inv: uint64): (k: nat)
    ensures k < TWO62
  {
    U64(inv * U64(cd) + U64(md)) % TWO62
  }

  lemma CorrectionClears(cd: int, md: int, inv: uint64, m: int, m0: int)
    requires (inv * m) % TWO62 == 1 && m % TWO62 == m0 % TWO62
    ensures (cd + m0 * (md - Correction(cd, md, inv))) % TWO62 == 0
  {
    var k := Correction(cd, md, inv);
    CorrectionCong(cd, md, inv);
    CongMul(m0, m, k, inv * cd + md, TWO62);
    CongMul(inv * m, 1, cd, cd, TWO62);
    CongMul(m, m0, md, md, TWO62);
    assert m * (inv * cd + md) == (inv * m) * cd + m * md;
    CongAdd((inv * m) * cd, cd, m * md, m0 * md, TWO62);
    assert (m0 * k) % TWO62 == (cd + m0 * md) % TWO62;
    CongAdd(cd + m0 * md, m0 * k, m0 * k, m0 * k, TWO62);
    assert cd + m0 * (md - k) == cd + m0 * md - m0 * k;
  }

  lemma CorrectionCong(cd: int, md: int, inv: uint64)
    ensures Correction(cd, md, inv) % TWO62 == (inv * cd + md) % TWO62
  {
    PowersOfTwo();
    U64Cong(cd, 62);
    U64Cong(md, 62);
    CongMul(inv, inv, U64(cd), cd, TWO62);
    CongAdd(inv * U64(cd), inv * cd, U64(md), md, TWO62);
    U64Cong(inv * U64(cd) + U64(md), 62);
    ModTwice(U64(inv * U64(cd) + U64(md)), TWO62);
  }

  lemma FoldSign(u: int, d: int, m: int)
    ensures u * d + m * (if d < 0 then u else 0) == u * (if d < 0 then d + m else d)
  {
  }

  lemma FoldSigns(u: int, v: int, d: int, e: int, m: int, k: int, su: int, sv: int, d1: int, e1: int)
    requires u * d + m * su == u * d1 && v * e + m * sv == v * e1
    ensures (u * d + v * e) + (su + sv - k) * m == (u * d1 + v * e1) - m * k
  {
    assert (su + sv - k) * m == m * su + m * sv - m * k;
  }

  /** The result of a corrected row stays inside (-2m, m). */
  lemma CorrectedRange(u: int, v: int, d: int, e: int, m: int, k: nat, w: int, z: int)
    requires RowFits(u, v) && m > 0 && InRange(d, m) && InRange(e, m) && k < TWO62
    requires w == (if d < 0 then u else 0) + (if e < 0 then v else 0) - k
    requires TWO62 * z == (u * d + v * e) + w * m
    ensures InRange(z, m)
  {
    var su, sv := if d < 0 then u else 0, if e < 0 then v else 0;
    var d1, e1 := if d < 0 then d + m else d, if e < 0 then e + m else e;
    FoldSign(u, d, m);
    FoldSign(v, e, m);
    FoldSigns(u, v, d, e, m, k, su, sv, d1, e1);
    FoldedRange(u, v, d1, e1, m, k, z);
  }

  lemma FoldedRange(u: int, v: int, d1: int, e1: int, m: int, k: nat, z: int)
    requires RowFits(u, v) && m > 0 && Abs(d1) <= m - 1 && Abs(e1) <= m - 1 && k < TWO62
    requires TWO62 * z == (u * d1 + v * e1) - m * k
    ensures InRange(z, m)
  {
    RowBound(u, v, d1, e1, m - 1);
    MulMono(k, TWO62 - 1, m);
    MulMono(0, k, m);
    RangeFromBounds(u * d1 + v * e1, m * k, m, z);
  }

  lemma RangeFromBounds(r: int, mk: int, m: int, z: int)
    requires m > 0 && Abs(r) <= TWO62 * (m - 1) && 0 <= mk <= (TWO62 - 1) * m && TWO62 * z == r - mk
    ensures InRange(z, m)
  {
  }

  ghost predicate RowTerms3(u: int, v: int, w: int, ds: seq<int>, es: seq<int>, ms: seq<int>, ps: seq<int>)
  {
    && |ds| == |es| == |ms| == |ps| && RowTerms(ps)
    && (forall k :: 0 <= k < |ps| ==> ps[k] == u * ds[k] + v * es[k] + ms[k] * w)
    && Val(ps) == u * Val(ds) + v * Val(es) + Val(ms) * w
  }

  /** A row extended by a multiple of the modulus limbs. */
  function Row3(u: int, v: int, w: int, ds: seq<int>, es: seq<int>, ms: seq<int>): seq<int>
    requires |ds| == |es| == |ms|
  {
    seq(|ds|, k requires 0 <= k < |ds| => u * ds[k] + v * es[k] + ms[k] * w)
  }

  lemma Row3Terms(u: int, v: int, w: int, ds: seq<int>, es: seq<int>, ms: seq<int>)
    requires |ds| == |es| == |ms| && RowFits(u, v) && LimbsFit(ds) && LimbsFit(es) && SignedLimbs(ms) && Abs(w) <= TWO63
    ensures RowTerms3(u, v, w, ds, es, ms, Row3(u, v, w, ds, es, ms))
  {
    var ps := Row3(u, v, w, ds, es, ms);
    forall k | 0 <= k < |ds|
      ensures Abs(ps[k]) <= ROW_MAX
    {
      RowBound(u, v, ds[k], es[k], TWO62);
      assert Abs(ms[k]) <= TWO62;
      ProductBound(w, ms[k], TWO62);
    }
    Row3Val(u, v, w, ds, es, ms);
  }

  lemma {:induction false} Row3Val(u: int, v: int, w: int, ds: seq<int>, es: seq<int>, ms: seq<int>)
    requires |ds| == |es| == |ms|
    ensures Val(Row3(u, v, w, ds, es, ms)) == u * Val(ds) + v * Val(es) + Val(ms) * w
  {
    if ds != [] {
      assert Row3(u, v, w, ds, es, ms)[1..] == Row3(u, v, w, ds[1..], es[1..], ms[1..]);
      Row3Val(u, v, w, ds[1..], es[1..], ms[1..]);
      Row3Head(u, v, w, ds[0], es[0], ms[0], Val(ds[1..]), Val(es[1..]), Val(ms[1..]));
    }
  }

  lemma Row3Head(u: int, v: int, w: int, d: int, e: int, m: int, x: int, y: int, z: int)
    ensures (u * d + v * e + m * w) + TWO62 * (u * x + v * y + z * w)
         == u * (d + TWO62 * x) + v * (e + TWO62 * y) + (m + TWO62 * z) * w
  {
  }

  /** The products of one limb step stay far inside the 128-bit accumulator. */
  lemma RowStepFits(u: int, v: int, w: int, ds: seq<int>, es: seq<int>, ms: seq<int>, i: nat)
    requires |ds| == |es| == |ms| && i < |ds| && RowFits(u, v) && LimbsFit(ds) && LimbsFit(es) && SignedLimbs(ms) && Abs(w) <= TWO63
    ensures Abs(u * ds[i] + v * es[i]) <= ROW_MAX / 4 && Abs(ms[i] * w) <= ROW_MAX / 2
  {
    RowBound(u, v, ds[i], es[i], TWO62);
    assert Abs(ms[i]) <= TWO62;
    ProductBound(w, ms[i], TWO62);
  }

  lemma RowTermsOf(u: int, v: int, w: int, ds: seq<int>, es: seq<int>, ms: seq<int>, ps: seq<int>)
    requires RowTerms3(u, v, w, ds, es, ms, ps)
    ensures RowTerms(ps) && |ps| == |ds|
    ensures forall k :: 0 <= k < |ps| ==> ps[k] == u * ds[k] + v * es[k] + ms[k] * w
  {
  }

  lemma RowSetup(u: int, v: int, md: int, d: seq<int>, e: seq<int>, info: ModInfo)
    requires ValidInfo(info) && RowFits(u, v) && Abs(md) <= TWO62
    requires |d| == |e| == 5 && LimbsFit(d) && LimbsFit(e)
    ensures |info.modulus| == 5 && SignedLimbs(info.modulus)
    ensures var cd := u * d[0] + v * e[0];
            var w := md - Correction(cd, md, info.modulusInv62);
            && Abs(cd) <= ROW_MAX / 4 && Abs(w) <= TWO63 - 1
            && RowTerms3(u, v, w, d, e, info.modulus, Row3(u, v, w, d, e, info.modulus))
            && Row3(u, v, w, d, e, info.modulus)[0] % TWO62 == 0
  {
    hide Correction;
    var m := info.modulus;
    var cd := u * d[0] + v * e[0];
    var w := md - Correction(cd, md, info.modulusInv62);
    RowBound(u, v, d[0], e[0], TWO62);
    ValLow(m);
    CorrectionClears(cd, md, info.modulusInv62, Val(m), m[0]);
    Row3Terms(u, v, w, d, e, m);
  }

  lemma RowResult(u: int, v: int, d: seq<int>, e: seq<int>, info: ModInfo, k: nat, w: int, ps: seq<int>, out: seq<int>)
    requires ValidInfo(info) && RowFits(u, v) && |d| == |e| == 5 && Normal(d) && Normal(e)
    requires InRange(Val(d), Val(info.modulus)) && InRange(Val(e), Val(info.modulus)) && k < TWO62
    requires w == (if d[4] < 0 then u else 0) + (if e[4] < 0 then v else 0) - k
    requires RowTerms3(u, v, w, d, e, info.modulus, ps)
    requires |out| == 5 && Normal(out) && TWO62 * Val(out) == Val(ps)
    ensures LimbsFit(out) && InRange(Val(out), Val(info.modulus))
    ensures (TWO62 * Val(out)) % Val(info.modulus) == (u * Val(d) + v * Val(e)) % Val(info.modulus)
  {
    hide Val, Normal, RowFits, RowTerms3, Pow, Pow2, LimbsFit, InRange;
    TopSign(d);
    TopSign(e);
    RowValue(u, v, w, d, e, info.modulus, ps);
    var m, z := Val(info.modulus), Val(out);
    RowNumbers(u, v, Val(d), Val(e), m, k, w, z);
    ResultFits(out, m);
  }

  lemma ResultFits(v: seq<int>, m: int)
    requires |v| == 5 && Normal(v) && InRange(Val(v), m) && 0 < m <= Pow2(256)
    ensures LimbsFit(v)
  {
    ModulusFitsLimbs(m);
    NormalFits(v);
  }

  lemma RowNumbers(u: int, v: int, d: int, e: int, m: int, k: nat, w: int, z: int)
    requires RowFits(u, v) && m > 0 && InRange(d, m) && InRange(e, m) && k < TWO62
    requires w == (if d < 0 then u else 0) + (if e < 0 then v else 0) - k
    requires TWO62 * z == (u * d + v * e) + w * m
    ensures InRange(z, m) && (TWO62 * z) % m == (u * d + v * e) % m
  {
    CorrectedRange(u, v, d, e, m, k, w, z);
    CongIntro(TWO62 * z, u * d + v * e, w, m);
  }

  lemma RowValue(u: int, v: int, w: int, ds: seq<int>, es: seq<int>, ms: seq<int>, ps: seq<int>)
    requires RowTerms3(u, v, w, ds, es, ms, ps)
    ensures Val(ps) == u * Val(ds) + v * Val(es) + Val(ms) * w
    ensures Val(ps) == (u * Val(ds) + v * Val(es)) + w * Val(ms)
  {
  }

  lemma TopSign(v: seq<int>)
    requires Normal(v)
    ensures v[|v| - 1] < 0 <==> Val(v) < 0
  {
    TopLimb(v);
  }

  /** One limb of the chain: add its terms, emit the low 62 bits, keep the carry. The
      modulus term is skipped when that limb of the modulus is zero. */
  method AccumulateLimb(c: int128, u: int64, v: int64, w: int64, d: int, e: int, m: int) returns (limb: int, carry: int128)
    requires Abs(c) <= 2 * TWO64 && Abs(u * d + v * e) <= ROW_MAX / 4 && Abs(m * w) <= ROW_MAX / 2
    ensures limb == (c + (u * d + v * e + m * w)) % TWO62 && carry == (c + (u * d + v * e + m * w)) / TWO62
  {
    var cd: int128 := c + (u * d + v * e);
    if m != 0 { cd := cd + m * w; }
    limb := cd % TWO62;
    carry := cd / TWO62;
  }

  /** The start of a row: the multiplier md of the modulus begins with the signs of d and e
      and is corrected so that the 62 low bits of the first limb vanish. */
  method FirstLimb(u: int64, v: int64, d: seq<int>, e: seq<int>, info: ModInfo) returns (md: int64, cd: int128, ghost k: nat)
    requires ValidInfo(info) && RowFits(u, v) && |d| == |e| == 5 && LimbsFit(d) && LimbsFit(e)
    ensures md == (if d[4] < 0 then u else 0) + (if e[4] < 0 then v else 0) - k && k < TWO62 && Abs(md) <= TWO63
    ensures |info.modulus| == 5 && SignedLimbs(info.modulus)
    ensures RowTerms3(u, v, md, d, e, info.modulus, Row3(u, v, md, d, e, info.modulus))
    ensures Chain(Row3(u, v, md, d, e, info.modulus), 1, [], cd)
  {
    assert Abs(u) + Abs(v) <= TWO62;
    hide Chain, Val, LimbsFit, RowTerms, SignedLimbs, RowTerms3, Correction, ValidInfo, RowFits, Row3;
    md := (if d[4] < 0 then u else 0) + (if e[4] < 0 then v else 0);
    RowSetup(u, v, md, d, e, info);
    cd := u * d[0] + v * e[0];
    var c := Correction(cd, md, info.modulusInv62);
    k := c;
    md := md - c;
    ghost var ps := Row3(u, v, md, d, e, info.modulus);
    RowTermsOf(u, v, md, d, e, info.modulus, ps);
    ChainStart(ps);
    cd := cd + info.modulus[0] * md;
    cd := cd / TWO62;
  }

  /** One row of update_de_62: the accumulator chain that computes the new d (or e). */
  method UpdateDeRow(u: int64, v: int64, d: seq<int>, e: seq<int>, info: ModInfo) returns (out: seq<int>)
    requires ValidInfo(info) && RowFits(u, v)
    requires |d| == |e| == 5 && Normal(d) && Normal(e) && LimbsFit(d) && LimbsFit(e)
    requires InRange(Val(d), Val(info.modulus)) && InRange(Val(e), Val(info.modulus))
    ensures |out| == 5 && Normal(out) && LimbsFit(out)
    ensures InRange(Val(out), Val(info.modulus))
    ensures (TWO62 * Val(out)) % Val(info.modulus) == (u * Val(d) + v * Val(e)) % Val(info.modulus)
  {
    hide Chain, Val, Normal, LimbsFit, RowTerms, InRange, SignedLimbs, RowTerms3, ValidInfo, RowFits, Row3;
    var m := info.modulus;
    var md, cd;
    ghost var k;
    md, cd, k := FirstLimb(u, v, d, e, info);
    ghost var ps := Row3(u, v, md, d, e, m);
    RowTermsOf(u, v, md, d, e, m, ps);
    out := [];
    for i := 1 to 5
      invariant Chain(ps, i, out, cd)
    {
      ChainNext(ps, i, out, cd);
      RowStepFits(u, v, md, d, e, m, i);
      var limb;
      limb, cd := AccumulateLimb(cd, u, v, md, d[i], e[i], m[i]);
      out := out + [limb];
    }
    ChainEnd(ps, out, cd);
    ChainLength(ps, out, cd);
    out := out + [cd];
    RowResult(u, v, d, e, info, k, md, ps, out);
  }

  lemma ChainLength(ps: seq<int>, out: seq<int>, c: int)
    requires Chain(ps, |ps|, out, c)
    ensures |out| == |ps| - 1
  {
  }

  /** update_de_62: (d, e) becomes t*(d, e) / 2^62 modulo the modulus, back inside (-2M, M). */
  method UpdateDe62(d: array<int>, e: array<int>, t: Trans2x2, info: ModInfo)
    requires ValidInfo(info) && RowFits(t.u, t.v) && RowFits(t.q, t.r)
    requires d.Length == e.Length == 5 && d != e
    requires Normal(d[..]) && Normal(e[..]) && LimbsFit(d[..]) && LimbsFit(e[..])
    requires InRange(Val(d[..]), Val(info.modulus)) && InRange(Val(e[..]), Val(info.modulus))
    modifies d, e
    ensures Normal(d[..]) && Normal(e[..]) && LimbsFit(d[..]) && LimbsFit(e[..])
    ensures InRange(Val(d[..]), Val(info.modulus)) && InRange(Val(e[..]), Val(info.modulus))
    ensures -2 * Val(info.modulus) < Val(d[..]) < Val(info.modulus) && -2 * Val(info.modulus) < Val(e[..]) < Val(info.modulus)
    ensures (TWO62 * Val(d[..])) % Val(info.modulus) == (t.u * old(Val(d[..])) + t.v * old(Val(e[..]))) % Val(info.modulus)
    ensures (TWO62 * Val(e[..])) % Val(info.modulus) == (t.q * old(Val(d[..])) + t.r * old(Val(e[..]))) % Val(info.modulus)
  {
    MatrixWords(t);
    hide Val, Normal, LimbsFit, InRange, ValidInfo, RowFits;
    var dn := UpdateDeRow(t.u, t.v, d[..], e[..], info);
    var en := UpdateDeRow(t.q, t.r, d[..], e[..], info);
    StoreLimbs(d, dn);
    StoreLimbs(e, en);
  }

  method StoreLimbs(a: array<int>, v: seq<int>)
    requires a.Length == |v| == 5
    modifies a
    ensures a[..] == v
  {
    a[0], a[1], a[2], a[3], a[4] := v[0], v[1], v[2], v[3], v[4];
  }

  lemma MatrixWords(t: Trans2x2)
    requires RowFits(t.u, t.v) && RowFits(t.q, t.r)
    ensures -TWO63 <= t.u < TWO63 && -TWO63 <= t.v < TWO63 && -TWO63 <= t.q < TWO63 && -TWO63 <= t.r < TWO63
  {
  }

  // ----- normalize_62 -----

  function Val5(a: int, b: int, c: int, d: int, e: int): int
  {
    a + TWO62 * (b + TWO62 * (c + TWO62 * (d + TWO62 * e)))
  }

  lemma ValOfFive(v: seq<int>)
    requires |v| == 5
    ensures Val(v) == Val5(v[0], v[1], v[2], v[3], v[4])
  {
    assert v[1..][1..] == v[2..] && v[2..][1..] == v[3..] && v[3..][1..] == v[4..] && v[4..][1..] == [];
    assert Val(v[4..]) == v[4];
    assert Val(v[3..]) == v[3] + TWO62 * Val(v[4..]);
    assert Val(v[2..]) == v[2] + TWO62 * Val(v[3..]);
    assert Val(v[1..]) == v[1] + TWO62 * Val(v[2..]);
  }

  /** Carries are pushed up: all limbs but the top one become reduced, the number stays. */
  method Propagate(a: int64, b: int64, c: int64, d: int64, e: int64) returns (r0: int64, r1: int64, r2: int64, r3: int64, r4: int64)
    requires Abs(a) <= TWO63 - 2 && Abs(b) <= TWO63 - 2 && Abs(c) <= TWO63 - 2 && Abs(d) <= TWO63 - 2 && Abs(e) <= TWO63 - 2
    ensures Low(r0) && Low(r1) && Low(r2) && Low(r3) && Abs(r4 - e) <= 2
    ensures Val5(r0, r1, r2, r3, r4) == Val5(a, b, c, d, e)
  {
    r0, r1, r2, r3, r4 := a, b, c, d, e;
    r1 := r1 + r0 / TWO62; r0 := r0 % TWO62;
    r2 := r2 + r1 / TWO62; r1 := r1 % TWO62;
    r3 := r3 + r2 / TWO62; r2 := r2 % TWO62;
    r4 := r4 + r3 / TWO62; r3 := r3 % TWO62;
  }

  lemma SignOfTop(a: int, b: int, c: int, d: int, e: int)
    requires Low(a) && Low(b) && Low(c) && Low(d)
    ensures e < 0 <==> Val5(a, b, c, d, e) < 0
  {
  }

  lemma AddFive(a: int, b: int, c: int, d: int, e: int, m: seq<int>)
    requires |m| == 5
    ensures Val5(a + m[0], b + m[1], c + m[2], d + m[3], e + m[4]) == Val5(a, b, c, d, e) + Val(m)
    ensures Val5(-a, -b, -c, -d, -e) == -Val5(a, b, c, d, e)
  {
    ValOfFive(m);
  }

  lemma ModulusLimbs(info: ModInfo)
    requires ValidInfo(info)
    ensures |info.modulus| == 5 && Val(info.modulus) > 0
    ensures var m := info.modulus;
      Abs(m[0]) < TWO62 && Abs(m[1]) < TWO62 && Abs(m[2]) < TWO62 && Abs(m[3]) < TWO62 && 0 <= m[4] < TWO62
  {
    ValOfFive(info.modulus);
    var m := info.modulus;
    SignedTop(m[0], m[1], m[2], m[3], m[4]);
  }

  /** A positive number with signed limbs has no negative top limb. */
  lemma SignedTop(a: int, b: int, c: int, d: int, e: int)
    requires Abs(a) < TWO62 && Abs(b) < TWO62 && Abs(c) < TWO62 && Abs(d) < TWO62 && Val5(a, b, c, d, e) > 0
    ensures e >= 0
  {
  }

  /** Adding the modulus when the number is negative. */
  method AddIfNegative(a: int64, b: int64, c: int64, d: int64, e: int64, info: ModInfo) returns (r0: int64, r1: int64, r2: int64, r3: int64, r4: int64)
    requires ValidInfo(info)
    requires Abs(a) < TWO62 && Abs(b) < TWO62 && Abs(c) < TWO62 && Abs(d) < TWO62 && Abs(e) <= TWO62 + 4
    ensures Val5(r0, r1, r2, r3, r4) == Val5(a, b, c, d, e) + (if e < 0 then Val(info.modulus) else 0)
    ensures Abs(r0) <= TWO63 - 2 && Abs(r1) <= TWO63 - 2 && Abs(r2) <= TWO63 - 2 && Abs(r3) <= TWO63 - 2
    ensures Abs(r4) <= TWO62 || Abs(r4) <= Abs(e)
  {
    hide ValidInfo, Val, Val5;
    ModulusLimbs(info);
    AddFive(a, b, c, d, e, info.modulus);
    r0, r1, r2, r3, r4 := a, b, c, d, e;
    if e < 0 {
      var m := info.modulus;
      r0, r1, r2, r3, r4 := r0 + m[0], r1 + m[1], r2 + m[2], r3 + m[3], r4 + m[4];
    }
  }

  /** A number below 2^310 in absolute value that is not negative has a reduced top limb. */
  lemma TopOfReduced(v: seq<int>, m: int)
    requires |v| == 5 && Normal(v) && 0 <= Val(v) < m <= Pow2(256)
    ensures LowLimbs(v)
  {
    ModulusFitsLimbs(m);
    ValInit(v);
    LowRange(v[..4]);
    PowStep(TWO62, 4);
    var p, t := Pow(TWO62, 4), v[4];
    if t < 0 { MulMono(t, -1, p); }
    if t >= TWO62 { MulMono(TWO62, t, p); }
    assert forall k :: 0 <= k < 4 ==> v[k] == v[..4][k];
  }

  /** When the two conditional additions are enough: when the top limb shows the sign of x, and in
      a few cases when it does not. */
  ghost predicate Settles(x: int, m: int, negate: bool, top: bool)
  {
    || (top <==> x < 0)
    || (if top then negate && x == 0 else if negate then x > -m else x >= -m)
  }

  lemma NormalizedValue(x: int, m: int, negate: bool, top: bool, y: int)
    requires m > 0 && InRange(x, m)
    requires var x1 := if top then x + m else x;
             var x2 := if negate then -x1 else x1;
             y == (if x2 < 0 then x2 + m else x2)
    ensures y % m == (if negate then -x else x) % m
    ensures 0 <= y < m <==> Settles(x, m, negate, top)
  {
    var z := if negate then -x else x;
    if y == z + m { CongIntro(y, z, 1, m); }
    else if y == z - m { CongIntro(y, z, -1, m); }
    else if y == z + 2 * m { CongIntro(y, z, 2, m); }
  }

  /** normalize_62: from (-2M, M) to [0, M), negating first when sign is negative. The code
      reads the sign of r off its top limb: the residue is always right, the range exactly when
      that settles it. */
  method Normalize62(r: array<int>, sign: int64, info: ModInfo)
    requires ValidInfo(info) && r.Length == 5
    requires forall k :: 0 <= k < 5 ==> -TWO62 < r[k] < TWO62
    requires InRange(Val(r[..]), Val(info.modulus))
    modifies r
    ensures Val(info.modulus) > 0
    ensures Val(r[..]) % Val(info.modulus) == (if sign < 0 then -old(Val(r[..])) else old(Val(r[..]))) % Val(info.modulus)
    ensures 0 <= Val(r[..]) < Val(info.modulus) <==> Settles(old(Val(r[..])), Val(info.modulus), sign < 0, old(r[4]) < 0)
    ensures 0 <= Val(r[..]) < Val(info.modulus) ==> LowLimbs(r[..])
  {
    hide ValidInfo, Val, Val5, Pow, Pow2, LowLimbs;
    ModulusLimbs(info);
    ValOfFive(r[..]);
    var r0: int64, r1: int64, r2: int64, r3: int64, r4: int64 := r[0], r[1], r[2], r[3], r[4];
    ghost var x := Val5(r0, r1, r2, r3, r4);
    ghost var m, top := Val(info.modulus), r4 < 0;
    r0, r1, r2, r3, r4 := AddIfNegative(r0, r1, r2, r3, r4, info);
    AddFive(r0, r1, r2, r3, r4, info.modulus);
    if sign < 0 {
      r0, r1, r2, r3, r4 := 0 - r0, 0 - r1, 0 - r2, 0 - r3, 0 - r4;
    }
    r0, r1, r2, r3, r4 := Propagate(r0, r1, r2, r3, r4);
    SignOfTop(r0, r1, r2, r3, r4);
    r0, r1, r2, r3, r4 := AddIfNegative(r0, r1, r2, r3, r4, info);
    r0, r1, r2, r3, r4 := Propagate(r0, r1, r2, r3, r4);
    r[0], r[1], r[2], r[3], r[4] := r0, r1, r2, r3, r4;
    NormalizedValue(x, m, sign < 0, top, Val5(r0, r1, r2, r3, r4));
    ValOfFive(r[..]);
    if 0 <= Val(r[..]) < m { FinishNormalize(r[..], info); }
  }

  /** Limbs as large as the comment on the source allows, and yet the sign does not show. */
  lemma HiddenSign()
    ensures var r := [-5, 0, 0, 0, 0];
      && (forall k :: 0 <= k < 5 ==> -TWO62 < r[k] < TWO62) && InRange(Val(r), 3)
      && !Settles(Val(r), 3, false, r[4] < 0)
  {
    var r := [-5, 0, 0, 0, 0];
    ValOfFive(r);
    hide Val;
  }

  lemma ModulusBound(info: ModInfo)
    requires ValidInfo(info)
    ensures 3 <= Val(info.modulus) <= Pow2(256)
  {
  }

  lemma FinishNormalize(v: seq<int>, info: ModInfo)
    requires ValidInfo(info) && |v| == 5 && 0 <= Val(v) < Val(info.modulus)
    requires Low(v[0]) && Low(v[1]) && Low(v[2]) && Low(v[3])
    ensures LowLimbs(v)
  {
    ModulusBound(info);
    hide Val, Pow, Pow2, ValidInfo;
    TopOfReduced(v, Val(info.modulus));
  }

  // ----- the loops -----

  /** The limbs of f and g: same length, and inside the bound of that length. The modulus, with
      which f starts, may have negative limbs; after a round only the top limbs may be negative. */
  ghost predicate PairLimbs(fs: seq<int>, gs: seq<int>)
  {
    && |fs| == |gs| > 0 && LimbsFit(fs) && LimbsFit(gs)
    && Abs(Val(fs)) <= Pow(TWO62, |fs|) && Abs(Val(gs)) <= Pow(TWO62, |fs|)
  }

  /** The limbs of d (or e). */
  ghost predicate Coefficient(ds: seq<int>, m: int)
  {
    |ds| == 5 && Normal(ds) && LimbsFit(ds) && InRange(Val(ds), m)
  }

  lemma LowWord(v: seq<int>)
    requires |v| > 0
    ensures U64(v[0]) % TWO62 == Val(v) % TWO62 && U64(v[0]) % 2 == Val(v) % 2
  {
    PowersOfTwo();
    ValLow(v);
    U64Cong(v[0], 62);
    OddFromAgreement(U64(v[0]), Val(v), 62);
  }

  /** The batch run on the low words is the batch of the full numbers. */
  lemma BatchOfLowWords(c: int, n: nat, eta: int, fs: seq<int>, gs: seq<int>)
    requires n <= 62 && |fs| > 0 && |gs| > 0
    ensures var s := Steps(c, n, Start(eta, Val(fs), Val(gs)));
            var w := Steps(c, n, Start(eta, U64(fs[0]), U64(gs[0])));
            s.eta == w.eta && s.t == w.t
  {
    LowWord(fs);
    LowWord(gs);
    PowersOfTwo();
    hide Steps, U64, Val, Pow2;
    CongPow2(U64(fs[0]), Val(fs), 62, n);
    CongPow2(U64(gs[0]), Val(gs), 62, n);
    StepsLowBits(c, n, n, Start(eta, Val(fs), Val(gs)), Start(eta, U64(fs[0]), U64(gs[0])));
  }

  /** A scaled batch matrix meets what update_de and update_fg ask of it. */
  lemma MatrixFits(c: int, n: nat, k: nat, eta: int, fs: seq<int>, gs: seq<int>)
    requires |fs| > 0 && |gs| > 0 && Val(fs) % 2 == 1 && k * Pow2(n) == TWO62
    ensures var t := Scale(k, Steps(c, n, Start(eta, Val(fs), Val(gs))).t);
            && RowFits(t.u, t.v) && RowFits(t.q, t.r)
            && (t.u * fs[0] + t.v * gs[0]) % TWO62 == 0 && (t.q * fs[0] + t.r * gs[0]) % TWO62 == 0
  {
    var f, g := Val(fs), Val(gs);
    var t := Steps(c, n, Start(eta, f, g)).t;
    StepsTracked(c, n, eta, f, g);
    StepsRows(c, n, k, eta, f, g);
    ScaledFits(k, Pow2(n), t.u, t.v);
    ScaledFits(k, Pow2(n), t.q, t.r);
    ValLow(fs);
    ValLow(gs);
    LowRowClears(k * t.u, k * t.v, f, g, fs[0], gs[0], Steps(c, n, Start(eta, f, g)).f);
    LowRowClears(k * t.q, k * t.r, f, g, fs[0], gs[0], Steps(c, n, Start(eta, f, g)).g);
  }

  lemma ScaledFits(k: nat, p: int, u: int, v: int)
    requires Abs(u) + Abs(v) <= p && k * p == TWO62
    ensures RowFits(k * u, k * v)
  {
    ProductBound(k, u, Abs(u));
    ProductBound(k, v, Abs(v));
    MulMono(Abs(u) + Abs(v), p, k);
    assert k * (Abs(u) + Abs(v)) == k * Abs(u) + k * Abs(v);
  }

  lemma LowRowClears(u: int, v: int, f: int, g: int, f0: int, g0: int, z: int)
    requires f % TWO62 == f0 % TWO62 && g % TWO62 == g0 % TWO62 && u * f + v * g == TWO62 * z
    ensures (u * f0 + v * g0) % TWO62 == 0
  {
    CongMul(u, u, f, f0, TWO62);
    CongMul(v, v, g, g0, TWO62);
    CongAdd(u * f, u * f0, v * g, v * g0, TWO62);
    CongIntro(TWO62 * z, 0, z, TWO62);
  }

  lemma ScaleOne(t: Trans2x2)
    ensures Scale(1, t) == t
  {
  }

  /** What update_de and update_fg have computed from a matrix t, as numbers. */
  ghost predicate Updated(t: Trans2x2, m: int, d: int, e: int, f: int, g: int, d': int, e': int, f': int, g': int)
  {
    && m > 0
    && (TWO62 * d') % m == (t.u * d + t.v * e) % m && (TWO62 * e') % m == (t.q * d + t.r * e) % m
    && TWO62 * f' == t.u * f + t.v * g && TWO62 * g' == t.q * f + t.r * g
  }

  /** One round of the loop on the numbers, once the limb updates have done their part. */
  lemma RoundDone(c: int, n: nat, k: int, eta: int, t: Trans2x2, d: int, e: int, f: int, g: int, d': int, e': int, f': int, g': int, m: int, x: int)
    requires Extended(d, e, f, g, m, x) && k * Pow2(n) == TWO62
    requires t == Scale(k, Steps(c, n, Start(eta, f, g)).t) && Updated(t, m, d, e, f, g, d', e', f', g')
    ensures Extended(d', e', f', g', m, x)
  {
    StepsRows(c, n, k, eta, f, g);
    ExtendedStep(c, n, k, eta, d, e, f, g, d', e', m, x);
  }

  lemma AllZero(v: seq<int>)
    requires AllZeroLimbs(v)
    ensures Val(v) == 0
  {
    if v != [] { AllZero(v[1..]); }
  }

  /** Or-ing the sign of a top limb 0 or -1 into the limb below, as the code does. */
  function FoldTop(x: int, top: int): int
  {
    S64(U64(BitOr(U64(x), U64(top * TWO62))))
  }

  lemma OrSignBits(x: int)
    requires Low(x)
    ensures BitOr(x, 3 * TWO62) == x + 3 * TWO62 && BitOr(x, 0) == x
  {
    hide BitOr;
    PowersOfTwo();
    OrWithZero(x);
    OrIsAdd(3, x, 62);
    OrCommutes(x, 3 * TWO62);
  }

  lemma FoldTopValue(x: int, top: int)
    requires Low(x) && -1 <= top <= 0
    ensures FoldTop(x, top) == x + top * TWO62
  {
    hide BitOr;
    OrSignBits(x);
    assert U64(0 - TWO62) == 3 * TWO62;
  }

  lemma ShrinkValue(v: seq<int>, y: int)
    requires |v| >= 2 && y == v[|v| - 2] + v[|v| - 1] * TWO62
    ensures Val(v[..|v| - 2] + [y]) == Val(v)
  {
    hide Val, Pow;
    var n := |v|;
    ValInit(v);
    ValInit(v[..n - 1]);
    assert v[..n - 1][..n - 2] == v[..n - 2];
    ValSnoc(v[..n - 2], y);
    PowStep(TWO62, n - 2);
    var p := Pow(TWO62, n - 2);
    assert y * p == v[n - 2] * p + v[n - 1] * (TWO62 * p);
  }

  lemma TopBound(t: int, p: int, r: int)
    requires 0 <= r < p && -TWO62 <= t < TWO62
    ensures Abs(r + t * p) <= TWO62 * p
  {
    MulMono(-TWO62, t, p);
    MulMono(t, TWO62 - 1, p);
  }

  lemma BoundedByTop(v: seq<int>)
    requires Normal(v) && -TWO62 <= v[|v| - 1] < TWO62
    ensures LimbsFit(v) && Abs(Val(v)) <= Pow(TWO62, |v|)
  {
    var n := |v| - 1;
    LowRange(v[..n]);
    ValInit(v);
    PowStep(TWO62, n);
    TopBound(v[n], Pow(TWO62, n), Val(v[..n]));
    NormalFits(v);
  }

  lemma ShrinkKeepsVal(v: seq<int>)
    requires |v| >= 2 && Normal(v) && -1 <= v[|v| - 1] <= 0
    ensures var w := v[..|v| - 2] + [FoldTop(v[|v| - 2], v[|v| - 1])];
            && Val(w) == Val(v) && Normal(w) && LimbsFit(w) && Abs(Val(w)) <= Pow(TWO62, |w|)
  {
    hide Val, Pow, FoldTop;
    var n := |v|;
    assert v[..n - 1][n - 2] == v[n - 2];
    FoldTopValue(v[n - 2], v[n - 1]);
    var y := v[n - 2] + v[n - 1] * TWO62;
    ShrinkValue(v, y);
    var w := v[..n - 2] + [y];
    var low, init := v[..n - 2], v[..n - 1];
    assert w[..n - 2] == low;
    forall k | 0 <= k < n - 2
      ensures Low(low[k])
    {
      assert low[k] == init[k];
    }
    BoundedByTop(w);
  }

  lemma StrictLimbs(v: seq<int>, m: int)
    requires |v| == 5 && Normal(v) && InRange(Val(v), m) && 0 < m <= Pow2(256)
    ensures forall k :: 0 <= k < 5 ==> -TWO62 < v[k] < TWO62
    ensures v[4] < 0 <==> Val(v) < 0
  {
    ModulusFitsLimbs(m);
    TopSign(v);
    ValInit(v);
    LowRange(v[..4]);
    PowStep(TWO62, 4);
    StrictTop(v[4], Pow(TWO62, 4), Val(v[..4]), Val(v));
    assert forall k :: 0 <= k < 4 ==> v[k] == v[..4][k];
  }

  lemma StrictTop(t: int, p: int, r: int, x: int)
    requires 0 <= r < p && x == r + t * p && 2 * Abs(x) <= TWO62 * p
    ensures -TWO62 < t < TWO62
  {
    if t >= TWO62 { MulMono(TWO62, t, p); }
    if t <= -TWO62 { MulMono(t, -TWO62, p); }
  }

  /** x is reduced, in [0, M), and zero or invertible: what both entry points are given. */
  ghost predicate Invertible(xs: seq<int>, info: ModInfo)
  {
    && ValidInfo(info) && |xs| == 5 && LowLimbs(xs) && 0 <= Val(xs) < Val(info.modulus)
    && (Val(xs) == 0 || Coprime(Val(xs), Val(info.modulus)))
  }

  lemma ReducedLimbs(v: seq<int>)
    requires |v| == 5 && LowLimbs(v)
    ensures Normal(v) && LimbsFit(v) && Abs(Val(v)) <= Pow(TWO62, 5)
  {
    var low := v[..|v| - 1];
    forall k | 0 <= k < |low|
      ensures Low(low[k])
    {
      assert low[k] == v[k] && Low(v[k]);
    }
    assert Low(v[4]);
    BoundedByTop(v);
  }

  lemma ModulusFits(info: ModInfo)
    requires ValidInfo(info)
    ensures LimbsFit(info.modulus) && Abs(Val(info.modulus)) <= Pow(TWO62, 5)
  {
    ModulusFitsLimbs(Val(info.modulus));
  }

  lemma StartLimbs(xs: seq<int>, info: ModInfo)
    requires Invertible(xs, info)
    ensures Coefficient([0, 0, 0, 0, 0], Val(info.modulus)) && Coefficient([1, 0, 0, 0, 0], Val(info.modulus))
    ensures PairLimbs(info.modulus, xs) && |info.modulus| == 5
    ensures Extended(Val([0, 0, 0, 0, 0]), Val([1, 0, 0, 0, 0]), Val(info.modulus), Val(xs), Val(info.modulus), Val(xs))
  {
    var zero, one := [0, 0, 0, 0, 0], [1, 0, 0, 0, 0];
    ValOfFive(zero);
    ValOfFive(one);
    hide Val, Pow, Pow2, Extended, LimbsFit;
    var m := info.modulus;
    ReducedLimbs(zero);
    ReducedLimbs(one);
    ModulusFits(info);
    ReducedLimbs(xs);
    ExtendedStart(Val(m), Val(xs));
  }

  /** Invariant of both inversion loops. */
  ghost predicate RoundInv(ds: seq<int>, es: seq<int>, fs: seq<int>, gs: seq<int>, info: ModInfo, x: int)
  {
    && ValidInfo(info)
    && Coefficient(ds, Val(info.modulus)) && Coefficient(es, Val(info.modulus)) && PairLimbs(fs, gs)
    && Extended(Val(ds), Val(es), Val(fs), Val(gs), Val(info.modulus), x)
  }

  lemma RoundStart(xs: seq<int>, info: ModInfo)
    requires Invertible(xs, info)
    ensures RoundInv([0, 0, 0, 0, 0], [1, 0, 0, 0, 0], info.modulus, xs, info, Val(xs))
    ensures |info.modulus| == 5 && ValidInfo(info)
  {
    StartLimbs(xs, info);
  }

  /** The matrix computed from the low words is fit for both updates. */
  lemma RoundSetup(c: int, n: nat, k: int, eta: int, ds: seq<int>, es: seq<int>, fs: seq<int>, gs: seq<int>, info: ModInfo, x: int)
    requires n <= 62 && k > 0 && k * Pow2(n) == TWO62 && RoundInv(ds, es, fs, gs, info, x)
    ensures U64(fs[0]) % 2 == 1
    ensures var t := Scale(k, Steps(c, n, Start(eta, U64(fs[0]), U64(gs[0]))).t);
            && RowFits(t.u, t.v) && RowFits(t.q, t.r)
            && (t.u * fs[0] + t.v * gs[0]) % TWO62 == 0 && (t.q * fs[0] + t.r * gs[0]) % TWO62 == 0
    ensures Coefficient(ds, Val(info.modulus)) && Coefficient(es, Val(info.modulus)) && PairLimbs(fs, gs) && ValidInfo(info)
  {
    LowWord(fs);
    hide Val, Steps, U64, RowFits, Pow2;
    BatchOfLowWords(c, n, eta, fs, gs);
    MatrixFits(c, n, k, eta, fs, gs);
  }

  lemma PairFits(fs: seq<int>, gs: seq<int>, t: Trans2x2, fs': seq<int>, gs': seq<int>, m: int, d: int, e: int, d': int, e': int)
    requires PairLimbs(fs, gs) && RowFits(t.u, t.v) && RowFits(t.q, t.r)
    requires |fs'| == |gs'| == |fs| && Normal(fs') && Normal(gs') && LimbsFit(fs') && LimbsFit(gs')
    requires Updated(t, m, d, e, Val(fs), Val(gs), d', e', Val(fs'), Val(gs'))
    ensures PairLimbs(fs', gs')
  {
    hide Val, RowFits, Normal, LimbsFit, Pow;
    RowKeepsBound(t.u, t.v, Val(fs), Val(gs), Val(fs'), Pow(TWO62, |fs|));
    RowKeepsBound(t.q, t.r, Val(fs), Val(gs), Val(gs'), Pow(TWO62, |fs|));
  }

  lemma RoundParts(ds: seq<int>, es: seq<int>, fs: seq<int>, gs: seq<int>, info: ModInfo, x: int)
    requires RoundInv(ds, es, fs, gs, info, x)
    ensures ValidInfo(info) && Val(info.modulus) > 0 && PairLimbs(fs, gs) && |fs| == |gs| > 0 && Val(fs) % 2 == 1
    ensures Extended(Val(ds), Val(es), Val(fs), Val(gs), Val(info.modulus), x)
  {
  }

  lemma RoundFinish(c: int, n: nat, k: int, eta: int, ds: seq<int>, es: seq<int>, fs: seq<int>, gs: seq<int>, t: Trans2x2,
                    ds': seq<int>, es': seq<int>, fs': seq<int>, gs': seq<int>, info: ModInfo, x: int)
    requires n <= 62 && k > 0 && k * Pow2(n) == TWO62 && RoundInv(ds, es, fs, gs, info, x) && Val(info.modulus) > 0
    requires |fs| > 0 && |gs| > 0 && t == Scale(k, Steps(c, n, Start(eta, U64(fs[0]), U64(gs[0]))).t)
    requires RowFits(t.u, t.v) && RowFits(t.q, t.r)
    requires Coefficient(ds', Val(info.modulus)) && Coefficient(es', Val(info.modulus))
    requires |fs'| == |gs'| == |fs| && Normal(fs') && Normal(gs') && LimbsFit(fs') && LimbsFit(gs')
    requires Updated(t, Val(info.modulus), Val(ds), Val(es), Val(fs), Val(gs), Val(ds'), Val(es'), Val(fs'), Val(gs'))
    ensures RoundInv(ds', es', fs', gs', info, x)
  {
    RoundParts(ds, es, fs, gs, info, x);
    hide Val, Steps, U64, RowFits, Pow2, Normal, LimbsFit, ValidInfo, Coefficient, Pow, PairLimbs, Extended, Updated;
    BatchOfLowWords(c, n, eta, fs, gs);
    RoundDone(c, n, k, eta, t, Val(ds), Val(es), Val(fs), Val(gs), Val(ds'), Val(es'), Val(fs'), Val(gs'), Val(info.modulus), x);
    PairFits(fs, gs, t, fs', gs', Val(info.modulus), Val(ds), Val(es), Val(ds'), Val(es'));
  }

  lemma RoundShrink(ds: seq<int>, es: seq<int>, fs: seq<int>, gs: seq<int>, fs': seq<int>, gs': seq<int>, info: ModInfo, x: int)
    requires RoundInv(ds, es, fs, gs, info, x) && |fs| >= 2 && |gs| == |fs| && Normal(fs) && Normal(gs)
    requires -1 <= fs[|fs| - 1] <= 0 && -1 <= gs[|gs| - 1] <= 0
    requires fs' == fs[..|fs| - 2] + [FoldTop(fs[|fs| - 2], fs[|fs| - 1])]
    requires gs' == gs[..|gs| - 2] + [FoldTop(gs[|gs| - 2], gs[|gs| - 1])]
    ensures RoundInv(ds, es, fs', gs', info, x) && Val(fs') == Val(fs) && Val(gs') == Val(gs)
  {
    hide Val, Extended, Coefficient, FoldTop, ValidInfo, Pow;
    ShrinkKeepsVal(fs);
    ShrinkKeepsVal(gs);
  }

  lemma RoundLengths(ds: seq<int>, es: seq<int>, fs: seq<int>, gs: seq<int>, info: ModInfo, x: int)
    requires RoundInv(ds, es, fs, gs, info, x)
    ensures |fs| == |gs| > 0
    ensures forall k :: 0 <= k < |fs| ==> -TWO62 <= fs[k] <= TWO62
  {
  }

  lemma ExitSigns(ds: seq<int>, es: seq<int>, fs: seq<int>, gs: seq<int>, info: ModInfo, x: int)
    requires RoundInv(ds, es, fs, gs, info, x) && Normal(fs)
    ensures |ds| == 5 && (forall k :: 0 <= k < 5 ==> -TWO62 < ds[k] < TWO62) && (ds[4] < 0 <==> Val(ds) < 0)
    ensures |fs| > 0 && (fs[|fs| - 1] < 0 <==> Val(fs) < 0)
    ensures ValidInfo(info) && InRange(Val(ds), Val(info.modulus)) && Val(info.modulus) >= 3
  {
    hide Val, Extended, LimbsFit, Pow, Pow2;
    StrictLimbs(ds, Val(info.modulus));
    TopSign(fs);
  }

  ghost predicate AllZeroLimbs(v: seq<int>)
  {
    forall k :: 0 <= k < |v| ==> v[k] == 0
  }

  /** With g = 0 the signed, normalized d is the answer. */
  lemma RoundExit(ds: seq<int>, es: seq<int>, fs: seq<int>, gs: seq<int>, info: ModInfo, xs: seq<int>)
    requires RoundInv(ds, es, fs, gs, info, Val(xs)) && Invertible(xs, info) && AllZeroLimbs(gs) && Normal(fs)
    ensures |fs| > 0 && Val(info.modulus) > 0
    ensures IsInverse((if fs[|fs| - 1] < 0 then -Val(ds) else Val(ds)) % Val(info.modulus), Val(xs), Val(info.modulus))
  {
    hide Val, Extended, Normal, LimbsFit, Pow, Pow2, Coprime, IsInverse, InRange, ValidInfo, PairLimbs, Coefficient;
    AllZero(gs);
    ExitSigns(ds, es, fs, gs, info, Val(xs));
    var m := Val(info.modulus);
    ExtendedEnd(Val(ds), Val(es), Val(fs), m, Val(xs), (if Val(fs) < 0 then -Val(ds) else Val(ds)) % m);
  }

  /** g is zero exactly when all its limbs are: the test that ends the loop. */
  method IsZero(g: array<int>, len: nat) returns (zero: bool)
    requires 0 < len <= g.Length
    ensures zero <==> AllZeroLimbs(g[..len])
  {
    if g[0] != 0 { return false; }
    zero := true;
    for j := 1 to len
      invariant zero <==> forall k :: 0 <= k < j ==> g[k] == 0
    {
      zero := zero && g[j] == 0;
    }
  }

  // ----- the run, step by step -----

  /** n division steps from (M, x) lead to these numbers. */
  ghost predicate Reached(c: int, n: nat, m: int, x: int, eta: int, f: int, g: int)
  {
    var s := Steps(c, n, Start(-1, m, x));
    s.eta == eta && s.f == f && s.g == g
  }

  /** The numbers do not depend on the matrix that is collected along the way. */
  lemma {:induction false} SameNumbers(c: int, k: nat, a: State, b: State)
    requires a.eta == b.eta && a.f == b.f && a.g == b.g
    ensures Steps(c, k, a).eta == Steps(c, k, b).eta && Steps(c, k, a).f == Steps(c, k, b).f && Steps(c, k, a).g == Steps(c, k, b).g
  {
    if k > 0 { SameNumbers(c, k - 1, a, b); }
  }

  lemma ReachedNext(c: int, n: nat, k: nat, m: int, x: int, eta: int, f: int, g: int)
    requires Reached(c, n, m, x, eta, f, g)
    ensures var s := Steps(c, k, Start(eta, f, g)); Reached(c, n + k, m, x, s.eta, s.f, s.g)
  {
    StepsCompose(c, n, k, Start(-1, m, x));
    SameNumbers(c, k, Steps(c, n, Start(-1, m, x)), Start(eta, f, g));
  }

  lemma {:induction false} ZeroStays(c: int, n: nat, k: nat, m: int, x: int)
    requires Finishes(c, n, m, x) && n <= k
    ensures Finishes(c, k, m, x)
  {
    if n < k { ZeroStays(c, n, k - 1, m, x); }
  }

  lemma {:induction false} ZeroLimbs(v: seq<int>)
    requires Normal(v) && Val(v) == 0
    ensures AllZeroLimbs(v)
  {
    assert Val(v) == v[0] + TWO62 * Val(v[1..]);
    if |v| > 1 {
      assert Low(v[..|v| - 1][0]);
      assert v[1..][..|v| - 2] == v[..|v| - 1][1..];
      ZeroLimbs(v[1..]);
      forall k | 0 <= k < |v| ensures v[k] == 0 { if k > 0 { assert v[1..][k - 1] == 0; } }
    }
  }

  /** The limb updates compute the numbers after the batch. */
  lemma BatchNumbers(c: int, n: nat, k: nat, eta: int, fs: seq<int>, gs: seq<int>, t: Trans2x2, f': int, g': int)
    requires n <= 62 && |fs| > 0 && |gs| > 0 && Val(fs) % 2 == 1 && k * Pow2(n) == TWO62
    requires t == Scale(k, Steps(c, n, Start(eta, U64(fs[0]), U64(gs[0]))).t)
    requires TWO62 * f' == t.u * Val(fs) + t.v * Val(gs) && TWO62 * g' == t.q * Val(fs) + t.r * Val(gs)
    ensures var s := Steps(c, n, Start(eta, Val(fs), Val(gs)));
            f' == s.f && g' == s.g && Steps(c, n, Start(eta, U64(fs[0]), U64(gs[0]))).eta == s.eta
  {
    hide Steps, Val, U64, Pow2;
    BatchOfLowWords(c, n, eta, fs, gs);
    StepsRows(c, n, k, eta, Val(fs), Val(gs));
  }

  /** One round of modinv64_var: a batch of 62 steps and the two updates. */
  method RoundVar(d: array<int>, e: array<int>, f: array<int>, g: array<int>, len: nat, eta0: int64, info: ModInfo, ghost x: int)
    returns (eta: int64)
    requires d.Length == e.Length == f.Length == g.Length == 5 && 0 < len <= 5 && Abs(eta0) < 0x4000_0000
    requires d != e && d != f && d != g && e != f && e != g && f != g
    requires RoundInv(d[..], e[..], f[..len], g[..len], info, x)
    modifies d, e, f, g
    ensures RoundInv(d[..], e[..], f[..len], g[..len], info, x) && Abs(eta) <= Abs(eta0) + 62
    ensures Normal(f[..len]) && Normal(g[..len])
    ensures var s := Steps(1, 62, Start(eta0, old(Val(f[..len])), old(Val(g[..len]))));
            eta == s.eta && Val(f[..len]) == s.f && Val(g[..len]) == s.g
  {
    hide Val, Normal, LimbsFit, InRange, RowFits, Steps, Pow, ValidInfo, U64, RoundInv, Scale, PairLimbs, Coefficient;
    ghost var ds, es, fs, gs := d[..], e[..], f[..len], g[..len];
    PowersOfTwo();
    RoundSetup(1, 62, 1, eta0, ds, es, fs, gs, info, x);
    RoundParts(ds, es, fs, gs, info, x);
    SetupParts(ds, es, fs, gs, Val(info.modulus));
    var t;
    eta, t := DivSteps62Var(eta0, U64(f[0]), U64(g[0]));
    EtaBound(1, 62, Start(eta0, U64(f[0]), U64(g[0])));
    ScaleOne(t);
    UpdateDe62(d, e, t, info);
    UpdateFg62Var(len, f, g, t);
    ghost var dn, en, fn, gn := d[..], e[..], f[..len], g[..len];
    CoefficientOf(dn, Val(info.modulus));
    CoefficientOf(en, Val(info.modulus));
    BatchNumbers(1, 62, 1, eta0, fs, gs, t, Val(fn), Val(gn));
    RoundFinish(1, 62, 1, eta0, ds, es, fs, gs, t, dn, en, fn, gn, info, x);
  }

  lemma SetupParts(ds: seq<int>, es: seq<int>, fs: seq<int>, gs: seq<int>, m: int)
    requires Coefficient(ds, m) && Coefficient(es, m) && PairLimbs(fs, gs)
    ensures Normal(ds) && LimbsFit(ds) && InRange(Val(ds), m) && Normal(es) && LimbsFit(es) && InRange(Val(es), m)
    ensures LimbsFit(fs) && LimbsFit(gs) && Abs(Val(fs)) <= Pow(TWO62, |fs|) && Abs(Val(gs)) <= Pow(TWO62, |fs|)
  {
  }

  lemma CoefficientOf(ds: seq<int>, m: int)
    requires |ds| == 5 && Normal(ds) && LimbsFit(ds) && InRange(Val(ds), m)
    ensures Coefficient(ds, m)
  {
  }

  /** Drop the top limb of f and g when both are only a sign. */
  method Shrink(f: array<int>, g: array<int>, len: nat, ghost ds: seq<int>, ghost es: seq<int>, ghost info: ModInfo, ghost x: int)
    returns (len': nat)
    requires f.Length == g.Length == 5 && 0 < len <= 5 && f != g
    requires RoundInv(ds, es, f[..len], g[..len], info, x) && Normal(f[..len]) && Normal(g[..len])
    modifies f, g
    ensures 0 < len' <= len && RoundInv(ds, es, f[..len'], g[..len'], info, x)
    ensures Val(f[..len']) == old(Val(f[..len])) && Val(g[..len']) == old(Val(g[..len]))
  {
    hide RoundInv, FoldTop, Normal, Val;
    len' := len;
    var fn, gn := f[len - 1], g[len - 1];
    if len >= 2 && -1 <= fn <= 0 && -1 <= gn <= 0 {
      ghost var fs, gs := f[..len], g[..len];
      f[len - 2] := FoldTop(f[len - 2], fn);
      g[len - 2] := FoldTop(g[len - 2], gn);
      len' := len - 1;
      assert f[..len'] == fs[..len - 2] + [FoldTop(fs[len - 2], fs[len - 1])];
      assert g[..len'] == gs[..len - 2] + [FoldTop(gs[len - 2], gs[len - 1])];
      RoundShrink(ds, es, fs, gs, f[..len'], g[..len'], info, x);
    }
  }

  /** Write the answer: d normalized, negated when f ended negative. */
  method Answer(x: array<int>, d: array<int>, f: array<int>, len: nat, info: ModInfo, ghost es: seq<int>, ghost gs: seq<int>)
    requires x.Length == d.Length == f.Length == 5 && 0 < len <= 5 && x != d
    requires Invertible(x[..], info) && RoundInv(d[..], es, f[..len], gs, info, Val(x[..])) && Normal(f[..len])
    modifies x, d
    ensures Val(info.modulus) > 0 && LowLimbs(x[..])
    ensures AllZeroLimbs(gs) ==> IsInverse(Val(x[..]), old(Val(x[..])), Val(info.modulus))
  {
    hide Val, ValidInfo, IsInverse, LowLimbs, Invertible, RoundInv, InRange, AllZeroLimbs, Normal;
    if AllZeroLimbs(gs) { RoundExit(d[..], es, f[..len], gs, info, x[..]); }
    ExitSigns(d[..], es, f[..len], gs, info, Val(x[..]));
    RoundLengths(d[..], es, f[..len], gs, info, Val(x[..]));
    var sign: int64 := f[len - 1];
    ghost var d0 := Val(d[..]);
    Normalize62(d, sign, info);
    SmallResidue(Val(d[..]), if sign < 0 then -d0 else d0, Val(info.modulus));
    x[0], x[1], x[2], x[3], x[4] := d[0], d[1], d[2], d[3], d[4];
    assert x[..] == d[..];
  }

  lemma SmallResidue(y: int, z: int, m: int)
    requires 0 <= y < m && y % m == z % m
    ensures y == z % m
  {
    DivModUnique(y, 0, y, m);
  }

  /** Start with d = 0, e = 1, f = modulus, g = x. */
  method Init(x: array<int>, info: ModInfo) returns (d: array<int>, e: array<int>, f: array<int>, g: array<int>)
    requires x.Length == 5 && Invertible(x[..], info)
    ensures fresh({d, e, f, g}) && d.Length == e.Length == f.Length == g.Length == 5
    ensures d != e && d != f && d != g && e != f && e != g && f != g
    ensures RoundInv(d[..], e[..], f[..5], g[..5], info, Val(x[..]))
    ensures f[..5] == info.modulus && g[..5] == x[..]
  {
    hide Val, ValidInfo, Invertible, RoundInv;
    ghost var xs := x[..];
    RoundStart(xs, info);
    d, e, f, g := new int[5], new int[5], new int[5], new int[5];
    d[0], d[1], d[2], d[3], d[4] := 0, 0, 0, 0, 0;
    e[0], e[1], e[2], e[3], e[4] := 1, 0, 0, 0, 0;
    forall i | 0 <= i < 5 { f[i] := info.modulus[i]; }
    forall i | 0 <= i < 5 { g[i] := x[i]; }
    assert x[..] == xs && d[..] == [0, 0, 0, 0, 0] && e[..] == [1, 0, 0, 0, 0] && f[..5] == info.modulus && g[..5] == xs;
  }

  lemma ReachedStart(m: int, x: int)
    ensures forall c: int :: Reached(c, 0, m, x, -1, m, x)
  {
  }

  lemma ZeroSeen(c: int, n: nat, m: int, x: int, eta: int, f: int, gs: seq<int>, zero: bool)
    requires Reached(c, n, m, x, eta, f, Val(gs)) && Normal(gs) && (zero <==> AllZeroLimbs(gs))
    ensures zero <==> Finishes(c, n, m, x)
  {
    hide Val, Steps;
    if zero { AllZero(gs); }
    if Val(gs) == 0 { ZeroLimbs(gs); }
  }

  /** One round and the test whether it was the last. */
  method TestedRound(d: array<int>, e: array<int>, f: array<int>, g: array<int>, len: nat, eta0: int64, info: ModInfo,
                     ghost x: int, ghost n: nat) returns (eta: int64, zero: bool)
    requires d.Length == e.Length == f.Length == g.Length == 5 && 0 < len <= 5 && Abs(eta0) < 0x4000_0000
    requires d != e && d != f && d != g && e != f && e != g && f != g
    requires RoundInv(d[..], e[..], f[..len], g[..len], info, x)
    requires Reached(1, n, Val(info.modulus), x, eta0, Val(f[..len]), Val(g[..len]))
    modifies d, e, f, g
    ensures RoundInv(d[..], e[..], f[..len], g[..len], info, x) && Abs(eta) <= Abs(eta0) + 62
    ensures Normal(f[..len]) && Normal(g[..len])
    ensures Reached(1, n + 62, Val(info.modulus), x, eta, Val(f[..len]), Val(g[..len]))
    ensures (zero <==> Finishes(1, n + 62, Val(info.modulus), x)) && (zero <==> AllZeroLimbs(g[..len]))
  {
    hide Val, ValidInfo, RoundInv, AllZeroLimbs, Normal, Reached, Finishes, Steps;
    ReachedNext(1, n, 62, Val(info.modulus), x, eta0, Val(f[..len]), Val(g[..len]));
    eta := RoundVar(d, e, f, g, len, eta0, info, x);
    zero := IsZero(g, len);
    ZeroSeen(1, n + 62, Val(info.modulus), x, eta, Val(f[..len]), g[..len], zero);
  }

  /** modinv64_var: rounds of 62 division steps until g is 0. The number of rounds the
      caller is prepared to run is a parameter, since the code only claims that twelve do. */
  method ModInv64Var(x: array<int>, info: ModInfo, rounds: nat) returns (done: bool)
    requires x.Length == 5 && Invertible(x[..], info) && rounds < 0x100_0000
    modifies x
    ensures Val(info.modulus) > 0
    ensures done <==> rounds > 0 && Finishes(1, 62 * rounds, Val(info.modulus), old(Val(x[..])))
    ensures done <==> rounds > 0 && Steps(1, 62 * rounds, Start(-1, Val(info.modulus), old(Val(x[..])))).g == 0
    ensures done ==> LowLimbs(x[..]) && IsInverse(Val(x[..]), old(Val(x[..])), Val(info.modulus))
    ensures done ==> 0 <= Val(x[..]) < Val(info.modulus)
    ensures done ==> if old(Val(x[..])) == 0 then Val(x[..]) == 0 else (old(Val(x[..])) * Val(x[..])) % Val(info.modulus) == 1
    ensures !done ==> x[..] == old(x[..])
  {
    hide *;
    done := InvertVar(x, info, rounds);
    FinishesMeans(1, 62 * rounds, Val(info.modulus), old(Val(x[..])));
    if done { InverseMeans(Val(x[..]), old(Val(x[..])), Val(info.modulus)); }
  }

  method InvertVar(x: array<int>, info: ModInfo, rounds: nat) returns (done: bool)
    requires x.Length == 5 && Invertible(x[..], info) && rounds < 0x100_0000
    modifies x
    ensures Val(info.modulus) > 0
    ensures done <==> rounds > 0 && Finishes(1, 62 * rounds, Val(info.modulus), old(Val(x[..])))
    ensures done ==> LowLimbs(x[..]) && IsInverse(Val(x[..]), old(Val(x[..])), Val(info.modulus))
    ensures !done ==> x[..] == old(x[..])
  {
    hide Val, ValidInfo, IsInverse, LowLimbs, Invertible, RoundInv, InRange, AllZeroLimbs, Normal, Reached, Finishes, Steps;
    RoundStart(x[..], info);
    ghost var xs := x[..];
    ReachedStart(Val(info.modulus), Val(xs));
    var d, e, f, g := Init(x, info);
    var len: nat := 5;
    var eta: int64 := -1;
    assert x[..] == xs;
    ghost var m := Val(info.modulus);
    for n := 0 to rounds
      invariant Reached(1, 62 * n, m, Val(xs), eta, Val(f[..len]), Val(g[..len]))
      invariant n > 0 ==> !Finishes(1, 62 * n, m, Val(xs))
      invariant 0 < len <= 5 && Abs(eta) <= 1 + 62 * n && x[..] == xs
      invariant RoundInv(d[..], e[..], f[..len], g[..len], info, Val(xs))
    {
      var zero;
      eta, zero := TestedRound(d, e, f, g, len, eta, info, Val(xs), 62 * n);
      if zero {
        ZeroStays(1, 62 * n + 62, 62 * rounds, m, Val(xs));
        Answer(x, d, f, len, info, e[..], g[..len]);
        return true;
      }
      len := Shrink(f, g, len, d[..], e[..], info, Val(xs));
    }
    done := false;
  }

  /** One round of modinv64: a batch of 59 steps, scaled by 8, and the two updates. */
  method RoundConst(d: array<int>, e: array<int>, f: array<int>, g: array<int>, zeta0: int64, info: ModInfo, ghost x: int)
    returns (zeta: int64)
    requires d.Length == e.Length == f.Length == g.Length == 5 && Abs(zeta0) < 0x4000_0000
    requires d != e && d != f && d != g && e != f && e != g && f != g
    requires RoundInv(d[..], e[..], f[..5], g[..5], info, x)
    modifies d, e, f, g
    ensures RoundInv(d[..], e[..], f[..5], g[..5], info, x) && Abs(zeta) <= Abs(zeta0) + 118
    ensures Normal(f[..5]) && Normal(g[..5])
    ensures var s := Steps(2, 59, Start(zeta0, old(Val(f[..5])), old(Val(g[..5]))));
            zeta == s.eta && Val(f[..5]) == s.f && Val(g[..5]) == s.g
  {
    hide Val, Normal, LimbsFit, InRange, RowFits, Steps, Pow, ValidInfo, U64, RoundInv, Scale, PairLimbs, Coefficient;
    ghost var ds, es, fs, gs := d[..], e[..], f[..5], g[..5];
    EightTimes();
    RoundSetup(2, 59, 8, zeta0, ds, es, fs, gs, info, x);
    RoundParts(ds, es, fs, gs, info, x);
    SetupParts(ds, es, fs, gs, Val(info.modulus));
    var t;
    zeta, t := DivSteps59(zeta0, U64(f[0]), U64(g[0]));
    EtaBound(2, 59, Start(zeta0, U64(f[0]), U64(g[0])));
    UpdateDe62(d, e, t, info);
    UpdateFg62Var(5, f, g, t);
    CoefficientOf(d[..], Val(info.modulus));
    CoefficientOf(e[..], Val(info.modulus));
    BatchNumbers(2, 59, 8, zeta0, fs, gs, t, Val(f[..5]), Val(g[..5]));
    RoundFinish(2, 59, 8, zeta0, ds, es, fs, gs, t, d[..], e[..], f[..5], g[..5], info, x);
  }

  lemma EightTimes()
    ensures 8 * Pow2(59) == TWO62
  {
    PowersOfTwo();
    Pow2Add(3, 59);
    assert Pow2(3) == 8;
  }

  /** modinv64: ten batches of 59 steps in constant time. Its VERIFY build checks that g has
      then reached 0, which `zero` reports; the result is the inverse when it has. */
  method ModInv64(x: array<int>, info: ModInfo) returns (zero: bool)
    requires x.Length == 5 && Invertible(x[..], info)
    modifies x
    ensures Val(info.modulus) > 0 && LowLimbs(x[..])
    ensures zero <==> Finishes(2, 590, Val(info.modulus), old(Val(x[..])))
    ensures zero <==> Steps(2, 590, Start(-1, Val(info.modulus), old(Val(x[..])))).g == 0
    ensures zero ==> IsInverse(Val(x[..]), old(Val(x[..])), Val(info.modulus))
    ensures zero ==> 0 <= Val(x[..]) < Val(info.modulus)
    ensures zero ==> if old(Val(x[..])) == 0 then Val(x[..]) == 0 else (old(Val(x[..])) * Val(x[..])) % Val(info.modulus) == 1
  {
    hide *;
    zero := Invert(x, info);
    FinishesMeans(2, 590, Val(info.modulus), old(Val(x[..])));
    if zero { InverseMeans(Val(x[..]), old(Val(x[..])), Val(info.modulus)); }
  }

  method Invert(x: array<int>, info: ModInfo) returns (zero: bool)
    requires x.Length == 5 && Invertible(x[..], info)
    modifies x
    ensures Val(info.modulus) > 0 && LowLimbs(x[..])
    ensures zero <==> Finishes(2, 590, Val(info.modulus), old(Val(x[..])))
    ensures zero ==> IsInverse(Val(x[..]), old(Val(x[..])), Val(info.modulus))
  {
    hide Val, ValidInfo, IsInverse, LowLimbs, Invertible, RoundInv, InRange, AllZeroLimbs, Normal, Reached, Finishes;
    ghost var xs, m := x[..], Val(info.modulus);
    ReachedStart(m, Val(xs));
    var d, e, f, g := Init(x, info);
    var zeta: int64 := -1;
    assert x[..] == xs;
    for i := 0 to 10
      invariant Abs(zeta) <= 1 + 118 * i && x[..] == xs
      invariant RoundInv(d[..], e[..], f[..5], g[..5], info, Val(xs)) && (i > 0 ==> Normal(f[..5]) && Normal(g[..5]))
      invariant Reached(2, 59 * i, m, Val(xs), zeta, Val(f[..5]), Val(g[..5]))
    {
      ReachedNext(2, 59 * i, 59, m, Val(xs), zeta, Val(f[..5]), Val(g[..5]));
      zeta := RoundConst(d, e, f, g, zeta, info, Val(xs));
    }
    zero := IsZero(g, 5);
    ZeroSeen(2, 590, m, Val(xs), zeta, Val(f[..5]), g[..5], zero);
    Answer(x, d, f, 5, info, e[..], g[..5]);
  }
}
