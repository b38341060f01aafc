/** Signatures as strict DER: a SEQUENCE of two INTEGERs (sections 8.1.3, 8.3, 8.9 and 10.1 of X.690). */
module Der {
  import opened Arith
  import opened Bytes
  import opened MachineInts
  import opened Scalars
  import opened ScalarBytes

  // ----- the encoding -----

  /** The shortest big-endian form of n. */
  function MinBytes(n: nat): (s: seq<byte>)
    ensures |s| >= 1
  {
    if n < 256 then [n] else MinBytes(n / 256) + [n % 256]
  }

  /** Length octets: one byte below 128, else the number of bytes that follow, then these. */
  function LengthOctets(n: nat): (s: seq<int>)
    ensures |s| >= 1
    ensures n < 128 ==> s == [n]
  {
    if n < 128 then [n] else [128 + |MinBytes(n)|] + MinBytes(n)
  }

  /** The shortest two's complement form of v. */
  function Content(v: int): (s: seq<byte>)
    ensures |s| >= 1
    decreases Abs(v)
  {
    if -128 <= v < 128 then [v % 256] else Content(v / 256) + [v % 256]
  }

  function IntegerOctets(v: int): seq<int>
  {
    [0x02] + LengthOctets(|Content(v)|) + Content(v)
  }

  function PairBody(a: int, b: int): seq<int> { IntegerOctets(a) + IntegerOctets(b) }

  function PairOctets(a: int, b: int): seq<int>
  {
    [0x30] + LengthOctets(|PairBody(a, b)|) + PairBody(a, b)
  }

  // ----- two's complement -----

  /** The number that a two's complement byte string denotes. */
  function Signed(s: seq<byte>): int
    requires |s| >= 1
  {
    if |s| == 1 then s[0] as int - (if s[0] < 128 then 0 else 256) else Signed(s[..|s| - 1]) * 256 + s[|s| - 1]
  }

  /** Not all of the first nine bits are equal. */
  predicate Shortest(s: seq<byte>)
  {
    |s| >= 1 && (|s| == 1 || !((s[0] == 0 && s[1] < 128) || (s[0] == 0xFF && s[1] >= 128)))
  }

  lemma {:induction false} ContentMeans(v: int)
    ensures Signed(Content(v)) == v && Shortest(Content(v))
    decreases Abs(v)
  {
    hide Signed, Shortest;
    if -128 <= v < 128 {
      OneByte(v);
    } else {
      var q, b := v / 256, v % 256;
      assert v == q * 256 + b;
      ContentMeans(q);
      SnocMeans(Content(q), b, q, v);
    }
  }

  lemma OneByte(v: int)
    requires -128 <= v < 128
    ensures Signed([v % 256]) == v && Shortest([v % 256])
  {
  }

  /** One more byte, when the number does not fit in one. */
  lemma SnocMeans(c: seq<byte>, b: byte, q: int, v: int)
    requires Shortest(c) && Signed(c) == q && v == q * 256 + b && !(-128 <= v < 128)
    ensures Signed(c + [b]) == v && Shortest(c + [b])
  {
    assert (c + [b])[..|c|] == c;
  }

  /** Every shortest byte string is the content of the number it denotes. */
  lemma {:induction false} ContentUnique(s: seq<byte>)
    requires Shortest(s)
    ensures Content(Signed(s)) == s
    ensures |s| > 1 ==> !(-128 <= Signed(s) < 128)
  {
    if |s| > 1 {
      var t := s[..|s| - 1];
      assert |t| == 1 ==> Signed(t) == s[0] as int - (if s[0] < 128 then 0 else 256);
      ContentUnique(t);
      assert Signed(s) / 256 == Signed(t) && Signed(s) % 256 == s[|s| - 1];
      assert s == t + [s[|s| - 1]];
    }
  }

  lemma {:induction false} SignedIs(s: seq<byte>)
    requires |s| >= 1
    ensures s[0] < 128 ==> Signed(s) == FromBytes(s)
    ensures s[0] >= 128 ==> Signed(s) == FromBytes(s) - Pow(256, |s|) < 0
  {
    FromBytesBound(s);
    if |s| > 1 {
      SignedIs(s[..|s| - 1]);
    } else {
      assert FromBytes(s) == FromBytes([]) * 256 + s[0];
      assert Pow(256, 1) == 256 * Pow(256, 0);
    }
  }

  /** No byte string for the same number is shorter. */
  lemma {:induction false} ContentShortest(t: seq<byte>)
    requires |t| >= 1
    ensures |Content(Signed(t))| <= |t|
  {
    if |t| > 1 {
      var u := t[..|t| - 1];
      ContentShortest(u);
      assert Signed(t) / 256 == Signed(u);
    }
  }

  lemma SignedSkip(s: seq<byte>)
    requires |s| > 1 && s[0] == 0 && s[1] < 128
    ensures Signed(s[1..]) == Signed(s)
  {
    SignedIs(s);
    SignedIs(s[1..]);
    LeadingZero(s);
  }

  // ----- length octets -----

  lemma {:induction false} MinBytesMeans(n: nat)
    ensures FromBytes(MinBytes(n)) == n && (n > 0 ==> MinBytes(n)[0] != 0)
    ensures n >= 128 ==> LengthOctets(n) == [128 + |MinBytes(n)|] + MinBytes(n)
  {
    if n >= 256 {
      MinBytesMeans(n / 256);
      assert MinBytes(n)[..|MinBytes(n)| - 1] == MinBytes(n / 256);
    } else {
      assert FromBytes([n]) == FromBytes([]) * 256 + n;
    }
  }

  lemma {:induction false} MinBytesUnique(s: seq<byte>)
    requires |s| >= 1 && s[0] != 0
    ensures MinBytes(FromBytes(s)) == s
  {
    var t := s[..|s| - 1];
    if |s| > 1 {
      MinBytesUnique(t);
      LeadingNonzero(t);
      PowPositive(256, |t| - 1);
      assert FromBytes(s) == FromBytes(t) * 256 + s[|s| - 1];
      hide FromBytes, Pow;
      DivModUnique(FromBytes(s), FromBytes(t), s[|s| - 1], 256);
      assert s == t + [s[|s| - 1]];
    } else {
      assert FromBytes(s) == FromBytes([]) * 256 + s[0];
    }
  }

  lemma MinBytesLength(n: nat)
    requires 0 < n < TWO64
    ensures |MinBytes(n)| <= 8
  {
    MinBytesMeans(n);
    LeadingNonzero(MinBytes(n));
    PowersOf256();
    if |MinBytes(n)| > 8 { PowMono(256, 8, |MinBytes(n)| - 1); }
  }

  /** The length n is written at position i of sig, and n more bytes follow it. */
  ghost predicate LengthFits(sig: seq<byte>, i: nat, n: nat)
  {
    i + |LengthOctets(n)| + n <= |sig| && sig[i..i + |LengthOctets(n)|] == LengthOctets(n)
  }

  /** What a reader of the bytes can see of that. */
  ghost predicate LengthShape(sig: seq<byte>, i: nat, n: nat)
  {
    && i < |sig|
    && (n < 128 ==> sig[i] == n)
    && (n >= 128 ==> var k := sig[i] as int - 128;
        1 <= k <= 8 && i + 1 + k + n <= |sig| && sig[i + 1] != 0 && FromBytes(sig[i + 1..i + 1 + k]) == n)
  }

  lemma LengthIsShaped(sig: seq<byte>, i: nat, n: nat)
    requires |sig| < TWO64 && LengthFits(sig, i, n)
    ensures LengthShape(sig, i, n)
  {
    var octets := LengthOctets(n);
    assert sig[i] == octets[0] by { assert sig[i..i + |octets|][0] == sig[i]; }
    if n >= 128 {
      MinBytesMeans(n);
      MinBytesLength(n);
      assert sig[i + 1..i + |octets|] == MinBytes(n) by {
        assert sig[i..i + |octets|][1..] == sig[i + 1..i + |octets|];
        assert octets[1..] == MinBytes(n);
      }
    }
  }

  /** Length octets are prefix-free. */
  lemma LengthUnique(s: seq<int>, m: nat, n: nat)
    requires LengthOctets(m) <= s && LengthOctets(n) <= s
    ensures m == n
  {
    var x, y := LengthOctets(m), LengthOctets(n);
    assert x[0] == s[0] == y[0];
    if m >= 128 && n >= 128 {
      assert x == s[..|x|] == y;
      assert x[1..] == MinBytes(m) && y[1..] == MinBytes(n);
      MinBytesMeans(m);
      MinBytesMeans(n);
    }
  }

  /** Reads length octets at `start`: succeeds exactly on the shortest definite form, of a
      length that the rest of the input can hold (for the short form the callers check this). */
  method ReadLen(sig: seq<byte>, start: nat) returns (ok: bool, len: uint64, pos: nat)
    requires start <= |sig| < TWO64
    ensures start <= pos <= |sig|
    ensures ok ==> start < pos && sig[start..pos] == LengthOctets(len) && (len >= 128 ==> pos + len <= |sig|)
    ensures !ok ==> forall n: nat :: !LengthFits(sig, start, n)
  {
    hide FromBytes, LengthFits, MinBytes;
    forall n: nat | LengthFits(sig, start, n) ensures LengthShape(sig, start, n) { LengthIsShaped(sig, start, n); }
    ok, len, pos := false, 0, start;
    if pos >= |sig| { return; }
    var b1 := sig[pos];
    pos := pos + 1;
    if b1 == 0xFF { return; }
    if b1 < 0x80 {
      ok, len := true, b1;
      return;
    }
    if b1 == 0x80 { return; }
    var lenleft: nat := b1 - 0x80;
    if lenleft > |sig| - pos { return; }
    if sig[pos] == 0 { return; }
    if lenleft > 8 { return; }
    ghost var first, last := pos, pos + lenleft;
    EmptyNumber();
    assert sig[first..pos] == [];
    while lenleft > 0
      invariant first <= pos && pos + lenleft == last && first + 8 >= last && last <= |sig|
      invariant len == FromBytes(sig[first..pos])
    {
      NextByte(sig, first, pos);
      len := len * 256 + sig[pos];
      pos := pos + 1;
      lenleft := lenleft - 1;
    }
    if len > |sig| - pos { return; }
    if len < 128 { return; }
    MinBytesUnique(sig[first..pos]);
    assert sig[start..pos] == [b1] + sig[first..pos];
    ok := true;
  }

  lemma EmptyNumber()
    ensures FromBytes([]) == 0
  {
  }

  lemma NextByte(sig: seq<byte>, first: nat, pos: nat)
    requires first <= pos < |sig| && pos < first + 8
    ensures FromBytes(sig[first..pos + 1]) == FromBytes(sig[first..pos]) * 256 + sig[pos] < TWO64
  {
    var s := sig[first..pos + 1];
    assert s[..|s| - 1] == sig[first..pos];
    FromBytesBound(s);
    PowMono(256, |s|, 8);
    PowersOf256();
  }

  // ----- integers -----

  /** The integer v is written in sig[i..j]. */
  ghost predicate IntegerAt(sig: seq<byte>, i: nat, j: nat, v: int)
  {
    i <= j <= |sig| && sig[i..j] == IntegerOctets(v)
  }

  lemma SliceOf(sig: seq<byte>, i: nat, j: nat, p: nat, q: nat)
    requires i <= j <= |sig| && p <= q <= j - i
    ensures sig[i..j][p..q] == sig[i + p..i + q]
  {
    forall k | 0 <= k < q - p ensures sig[i..j][p..q][k] == sig[i + p..i + q][k] {}
  }

  lemma IntegerParts(sig: seq<byte>, i: nat, j: nat, v: int)
    requires IntegerAt(sig, i, j, v)
    ensures i < j <= |sig| && sig[i] == 2 && LengthFits(sig, i + 1, |Content(v)|)
    ensures sig[i + 1 + |LengthOctets(|Content(v)|)|..j] == Content(v)
    ensures j == i + 1 + |LengthOctets(|Content(v)|)| + |Content(v)|
  {
    hide LengthOctets, Content;
    var s, l, c := sig[i..j], LengthOctets(|Content(v)|), Content(v);
    assert s == [2] + l + c;
    hide IntegerOctets;
    ThreeParts(s, 2, l, c);
    assert sig[i] == s[0];
    SliceOf(sig, i, j, 1, 1 + |l|);
    SliceOf(sig, i, j, 1 + |l|, |s|);
  }

  lemma ThreeParts(s: seq<int>, tag: int, l: seq<int>, c: seq<int>)
    requires s == [tag] + l + c
    ensures |s| == 1 + |l| + |c| && s[0] == tag && s[1..1 + |l|] == l && s[1 + |l|..|s|] == c
  {
  }

  /** What is written at i, if anything, is found where the length octets say. */
  lemma IntegerFound(sig: seq<byte>, i: nat, j: nat, v: int, pos: nat, len: nat)
    requires IntegerAt(sig, i, j, v) && i < pos <= |sig| && sig[i + 1..pos] == LengthOctets(len)
    ensures pos + len == j <= |sig| && sig[pos..j] == Content(v) && len == |Content(v)|
  {
    IntegerParts(sig, i, j, v);
    var n := |Content(v)|;
    var rest := sig[i + 1..];
    assert rest[..pos - i - 1] == sig[i + 1..pos];
    assert rest[..|LengthOctets(n)|] == sig[i + 1..i + 1 + |LengthOctets(n)|];
    LengthUnique(rest, len, n);
  }

  /** The scalar for the content octets c; a leading zero octet is skipped. */
  method ContentScalar(c: seq<byte>) returns (r: Scalar)
    requires Shortest(c)
    ensures r.Reduced() && r.Val() == (if 0 <= Signed(c) < N then Signed(c) else 0)
  {
    hide FromBytes, Signed, Scalar.Val;
    SignedIs(c);
    var overflow := c[0] >= 0x80;
    var t := if c[0] == 0 then c[1..] else c;
    if c[0] == 0 { LeadingZero(c); }
    if |t| > 32 {
      LongNumber(t);
      overflow := true;
    }
    if !overflow {
      var ra := seq(32 - |t|, i => 0) + t;
      PaddedNumber(32 - |t|, t);
      r, overflow := SetB32(ra);
      SmallRemainder(FromBytes(ra));
    }
    if overflow { r := Zero(); }
  }

  function Zero(): (r: Scalar)
    ensures r.Val() == 0 && r.Reduced()
  {
    ZERO
  }

  lemma SmallRemainder(v: nat)
    ensures v < N ==> v % N == v
  {
  }

  lemma PaddedNumber(k: nat, t: seq<byte>)
    ensures FromBytes(seq(k, i => 0) + t) == FromBytes(t)
  {
    Zeros(k);
    FromBytesJoin(seq(k, i => 0), t);
  }

  lemma LongNumber(t: seq<byte>)
    requires |t| > 32 && t[0] != 0
    ensures FromBytes(t) >= N
  {
    LeadingNonzero(t);
    PowMono(256, 32, |t| - 1);
    PowersOf256();
    PowAdd(256, 8, 8);
    PowAdd(256, 16, 16);
  }

  /** Reads an INTEGER at `start`: succeeds exactly when one is written there. Numbers that are
      not scalars are read as 0. */
  method ParseInteger(sig: seq<byte>, start: nat) returns (ok: bool, r: Scalar, pos: nat, ghost v: int)
    requires start <= |sig| < TWO64
    ensures r.Reduced() && start <= pos <= |sig|
    ensures ok ==> IntegerAt(sig, start, pos, v) && r.Val() == (if 0 <= v < N then v else 0)
    ensures !ok ==> forall j: nat, w :: !IntegerAt(sig, start, j, w)
  {
    hide IntegerAt, LengthFits, LengthOctets, Content, Signed, Scalar.Val;
    forall j: nat, w | IntegerAt(sig, start, j, w)
      ensures start < |sig| && sig[start] == 2 && LengthFits(sig, start + 1, |Content(w)|)
    { IntegerParts(sig, start, j, w); }
    ok, r, pos, v := false, Zero(), start, 0;
    if pos == |sig| || sig[pos] != 0x02 { return; }
    pos := pos + 1;
    var read, rlen;
    read, rlen, pos := ReadLen(sig, pos);
    if !read { return; }
    forall j: nat, w | IntegerAt(sig, start, j, w)
      ensures pos + rlen == j <= |sig| && sig[pos..j] == Content(w) && Shortest(sig[pos..j])
    {
      IntegerFound(sig, start, j, w, pos, rlen);
      ContentMeans(w);
    }
    if rlen == 0 || rlen > |sig| - pos { return; }
    var c := sig[pos..pos + rlen];
    if c[0] == 0x00 && rlen > 1 && c[1] < 0x80 { return; }
    if c[0] == 0xFF && rlen > 1 && c[1] >= 0x80 { return; }
    r := ContentScalar(c);
    v := Signed(c);
    ContentUnique(c);
    IntegerJoined(sig, start, pos, rlen, v);
    pos := pos + rlen;
    ok := true;
  }

  lemma IntegerJoined(sig: seq<byte>, i: nat, pos: nat, len: nat, v: int)
    requires i + 1 < pos <= pos + len <= |sig| && sig[i] == 2 && sig[i + 1..pos] == LengthOctets(len)
    requires sig[pos..pos + len] == Content(v)
    ensures IntegerAt(sig, i, pos + len, v)
  {
    assert sig[i..pos + len] == [sig[i]] + sig[i + 1..pos] + sig[pos..pos + len];
  }

  /** Two integers written at the same place are equal. */
  lemma IntegerUnique(sig: seq<byte>, i: nat, j: nat, v: int, k: nat, w: int)
    requires IntegerAt(sig, i, j, v) && IntegerAt(sig, i, k, w)
    ensures j == k && v == w
  {
    hide LengthOctets, IntegerAt, Signed, Shortest, Content;
    IntegerParts(sig, i, k, w);
    var pos := i + 1 + |LengthOctets(|Content(w)|)|;
    IntegerFound(sig, i, j, v, pos, |Content(w)|);
    ContentMeans(v);
    ContentMeans(w);
  }

  // ----- signatures -----

  /** The octets in full: a SEQUENCE that holds two INTEGERs. */
  lemma PairMeans(a: int, b: int)
    ensures var body := [0x02] + LengthOctets(|Content(a)|) + Content(a) + [0x02] + LengthOctets(|Content(b)|) + Content(b);
            PairOctets(a, b) == [0x30] + LengthOctets(|body|) + body
  {
    hide LengthOctets, Content;
    assert PairBody(a, b)
        == [0x02] + LengthOctets(|Content(a)|) + Content(a) + [0x02] + LengthOctets(|Content(b)|) + Content(b);
  }

  lemma PairParts(sig: seq<byte>, a: int, b: int)
    requires sig == PairOctets(a, b)
    ensures sig != [] && sig[0] == 0x30 && LengthFits(sig, 1, |PairBody(a, b)|)
    ensures var p := 1 + |LengthOctets(|PairBody(a, b)|)|; p <= |sig| && sig[p..] == PairBody(a, b)
  {
    var l := LengthOctets(|PairBody(a, b)|);
    assert sig[1..1 + |l|] == l;
  }

  lemma PairIntegers(sig: seq<byte>, p: nat, a: int, b: int)
    requires p <= |sig| && sig[p..] == PairBody(a, b)
    ensures IntegerAt(sig, p, p + |IntegerOctets(a)|, a)
    ensures IntegerAt(sig, p + |IntegerOctets(a)|, |sig|, b)
  {
    var m := p + |IntegerOctets(a)|;
    assert sig[p..m] == sig[p..][..|IntegerOctets(a)|] == IntegerOctets(a);
    assert sig[m..|sig|] == sig[p..][|IntegerOctets(a)|..] == IntegerOctets(b);
  }

  /** Where a reader finds the two integers of a pair. */
  lemma PairFound(sig: seq<byte>, a: int, b: int, pos: nat, len: nat)
    requires sig == PairOctets(a, b) && 1 <= pos <= |sig| && sig[1..pos] == LengthOctets(len)
    ensures len == |sig| - pos
    ensures IntegerAt(sig, pos, pos + |IntegerOctets(a)|, a)
    ensures IntegerAt(sig, pos + |IntegerOctets(a)|, |sig|, b)
  {
    PairParts(sig, a, b);
    var n := |PairBody(a, b)|;
    var rest := sig[1..];
    assert rest[..pos - 1] == sig[1..pos];
    assert rest[..|LengthOctets(n)|] == sig[1..1 + |LengthOctets(n)|];
    LengthUnique(rest, len, n);
    PairIntegers(sig, pos, a, b);
  }

  lemma PairJoined(sig: seq<byte>, pos: nat, m: nat, a: int, b: int)
    requires 1 <= pos <= |sig| && sig[0] == 0x30 && sig[1..pos] == LengthOctets(|sig| - pos)
    requires IntegerAt(sig, pos, m, a) && IntegerAt(sig, m, |sig|, b)
    ensures sig == PairOctets(a, b)
  {
    hide LengthOctets, IntegerOctets;
    assert sig[pos..] == sig[pos..m] + sig[m..|sig|];
    assert sig[pos..] == PairBody(a, b);
    assert sig == [sig[0]] + sig[1..pos] + sig[pos..];
  }

  /** Distinct pairs have distinct encodings. */
  lemma PairInjective(sig: seq<byte>, a: int, b: int, c: int, d: int)
    requires sig == PairOctets(a, b) == PairOctets(c, d)
    ensures a == c && b == d
  {
    hide IntegerAt, PairOctets, IntegerOctets, LengthOctets;
    PairParts(sig, a, b);
    var pos := PairStart(sig, a, b);
    PairFound(sig, a, b, pos, |PairBody(a, b)|);
    PairFound(sig, c, d, pos, |PairBody(a, b)|);
    IntegerUnique(sig, pos, pos + |IntegerOctets(a)|, a, pos + |IntegerOctets(c)|, c);
    IntegerUnique(sig, pos + |IntegerOctets(a)|, |sig|, b, |sig|, d);
  }

  lemma PairStart(sig: seq<byte>, a: int, b: int) returns (pos: nat)
    requires sig == PairOctets(a, b)
    ensures 1 <= pos <= |sig| && sig[1..pos] == LengthOctets(|PairBody(a, b)|)
  {
    pos := 1 + |LengthOctets(|PairBody(a, b)|)|;
  }

  /** Accepts exactly the encodings of pairs of integers; out-of-range integers become 0. */
  method SigParse(sig: seq<byte>) returns (ok: bool, rr: Scalar, rs: Scalar)
    requires |sig| < TWO64
    ensures rr.Reduced() && rs.Reduced()
    ensures ok <==> exists a, b :: sig == PairOctets(a, b)
    ensures forall a: nat, b: nat :: a < N && b < N && sig == PairOctets(a, b) ==> rr.Val() == a && rs.Val() == b
    ensures forall a, b :: sig == PairOctets(a, b) ==>
              rr.Val() == (if 0 <= a < N then a else 0) && rs.Val() == (if 0 <= b < N then b else 0)
    ensures ok && rr.Val() != 0 && rs.Val() != 0 ==> sig == PairOctets(rr.Val(), rs.Val())
  {
    hide IntegerAt, LengthFits, LengthOctets, PairOctets, IntegerOctets, Scalar.Val;
    forall a, b | sig == PairOctets(a, b)
      ensures sig != [] && sig[0] == 0x30 && LengthFits(sig, 1, |PairBody(a, b)|)
    { PairParts(sig, a, b); }
    rr, rs := Zero(), Zero();
    if sig == [] || sig[0] != 0x30 { return false, rr, rs; }
    var read, rlen, pos := ReadLen(sig, 1);
    if !read { return false, rr, rs; }
    forall a, b | sig == PairOctets(a, b) ensures Located(sig, pos, rlen, a, b) { PairFound(sig, a, b, pos, rlen); }
    if rlen != |sig| - pos { return false, rr, rs; }
    ghost var va, vb;
    ghost var p := pos;
    ok, rr, pos, va := ParseInteger(sig, pos);
    if !ok { return; }
    ghost var m := pos;
    forall a, b | sig == PairOctets(a, b) ensures a == va && IntegerAt(sig, m, |sig|, b)
    { IntegerUnique(sig, p, m, va, p + |IntegerOctets(a)|, a); }
    ok, rs, pos, vb := ParseInteger(sig, pos);
    if !ok { return; }
    forall a, b | sig == PairOctets(a, b) ensures b == vb && pos == |sig|
    { IntegerUnique(sig, m, pos, vb, |sig|, b); }
    if pos != |sig| { return false, rr, rs; }
    PairJoined(sig, p, m, va, vb);
  }

  ghost predicate Located(sig: seq<byte>, pos: nat, len: nat, a: int, b: int)
  {
    && len == |sig| - pos && IntegerAt(sig, pos, pos + |IntegerOctets(a)|, a)
    && IntegerAt(sig, pos + |IntegerOctets(a)|, |sig|, b)
  }

  /** The content octets of a scalar: 33 bytes without the zeros that are not needed. */
  method Shorten(a: Scalar) returns (r: seq<byte>, p: nat, len: nat)
    ensures |r| == 33 && p + len == 33 && 1 <= len && r[p..] == Content(a.Val())
  {
    hide Content, Scalar.Val, Signed, FromBytes;
    r := [0] + GetB32(a);
    LeadingZero(r);
    assert r[1..] == GetB32(a);
    SignedIs(r);
    p, len := 0, 33;
    assert r[0..] == r;
    while len > 1 && r[p] == 0 && r[p + 1] < 0x80
      invariant p + len == 33 && 1 <= len
      invariant r[p] < 0x80 && Signed(r[p..]) == a.Val()
    {
      SignedSkip(r[p..]);
      assert r[p..][1..] == r[p + 1..];
      len := len - 1;
      p := p + 1;
    }
    ContentUnique(r[p..]);
  }

  /** Writes the encoding of (ar, as) when it fits in `size` bytes, and tells its size. */
  method SigSerialize(sig: array<byte>, size: nat, ar: Scalar, sc: Scalar) returns (ok: bool, written: nat)
    requires size <= sig.Length
    modifies sig
    ensures written == |PairOctets(ar.Val(), sc.Val())| <= 72 && (ok <==> written <= size)
    ensures ok ==> sig[..written] == PairOctets(ar.Val(), sc.Val()) && sig[written..] == old(sig[written..])
    ensures !ok ==> sig[..] == old(sig[..])
  {
    hide Content, Scalar.Val, PairOctets;
    var r, rp, lenR := Shorten(ar);
    var s, sp, lenS := Shorten(sc);
    PairIs(ar.Val(), sc.Val());
    written := 6 + lenS + lenR;
    if size < written { return false, written; }
    WriteParts(sig, r[rp..], s[sp..]);
    ok := true;
  }

  /** memcpy into the output. */
  method CopyInto(a: array<byte>, at: nat, s: seq<byte>)
    requires at + |s| <= a.Length
    modifies a
    ensures a[..at + |s|] == old(a[..at]) + s
    ensures forall k :: at + |s| <= k < a.Length ==> a[k] == old(a[k])
  {
    forall i | 0 <= i < |s| { a[at + i] := s[i]; }
  }

  /** The octets of a pair whose integers have the contents r and s. */
  method WriteParts(sig: array<byte>, r: seq<byte>, s: seq<byte>)
    requires |r| <= 33 && |s| <= 33 && 6 + |r| + |s| <= sig.Length
    modifies sig
    ensures sig[..6 + |r| + |s|] == [0x30, 4 + |s| + |r|, 0x02, |r|] + r + [0x02, |s|] + s
    ensures forall k :: 6 + |r| + |s| <= k < sig.Length ==> sig[k] == old(sig[k])
  {
    sig[0], sig[1], sig[2], sig[3] := 0x30, 4 + |s| + |r|, 0x02, |r|;
    assert sig[..4] == [0x30, 4 + |s| + |r|, 0x02, |r|];
    CopyInto(sig, 4, r);
    CopyInto(sig, 4 + |r|, [0x02, |s|]);
    CopyInto(sig, 4 + |r| + 2, s);
  }

  lemma PairIs(a: int, b: int)
    requires |Content(a)| <= 33 && |Content(b)| <= 33
    ensures PairOctets(a, b)
         == [0x30, 4 + |Content(b)| + |Content(a)|, 0x02, |Content(a)|] + Content(a) + [0x02, |Content(b)|] + Content(b)
  {
    hide Content;
  }
}
