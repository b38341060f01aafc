/** Streaming SHA-256 and HMAC over any block transform. */
module Sha256 {
  import opened Arith
  import opened Bytes
  import opened MachineInts

  datatype State = State(a: uint32, b: uint32, c: uint32, d: uint32, e: uint32, f: uint32, g: uint32, h: uint32)

  const INITIAL := State(0x6a09e667, 0xbb67ae85, 0x3c6ef372, 0xa54ff53a, 0x510e527f, 0x9b05688c, 0x1f83d9ab, 0x5be0cd19)

  /** Section 5.3.3 of FIPS 180-4: the first 32 bits of the fractional parts of the square roots
      of the first eight primes. */
  lemma InitialWords(i: nat)
    requires i < 8
    ensures var p := [2, 3, 5, 7, 11, 13, 17, 19][i];
            var q := [1, 1, 2, 2, 3, 3, 4, 4][i];
            var h := [INITIAL.a, INITIAL.b, INITIAL.c, INITIAL.d, INITIAL.e, INITIAL.f, INITIAL.g, INITIAL.h][i];
            var x: int := q * 0x1_0000_0000 + h;
            q * q <= p < (q + 1) * (q + 1) && x * x <= p * 0x1_0000_0000_0000_0000 < (x + 1) * (x + 1)
  {
  }

  /** What one 64-byte block does to the state. */
  type Transform = (State, seq<byte>) -> State

  // ----- the standard, on whole messages -----

  /** All full blocks of m, one after the other (section 6.2.2 of FIPS 180-4). */
  function Fold(t: Transform, s: State, m: seq<byte>): State
    decreases |m|
  {
    if |m| < 64 then s else Fold(t, t(s, m[..64]), m[64..])
  }

  /** A one bit, zeros up to 448 modulo 512 bits, and the length in bits (section 5.1.1 of FIPS 180-4). */
  function Padding(n: nat): seq<byte>
  {
    [0x80] + seq((55 - n) % 64, i => 0) + ToBytes(8 * n, 8)
  }

  /** The eight words of the final state, big-endian. */
  function Output(s: State): (out: seq<byte>)
    ensures |out| == 32
    ensures FromBytes(out[..4]) == s.a && FromBytes(out[4..8]) == s.b && FromBytes(out[8..12]) == s.c
    ensures FromBytes(out[12..16]) == s.d && FromBytes(out[16..20]) == s.e && FromBytes(out[20..24]) == s.f
    ensures FromBytes(out[24..28]) == s.g && FromBytes(out[28..]) == s.h
  {
    OutputWords(s);
    ToBytes(s.a, 4) + ToBytes(s.b, 4) + ToBytes(s.c, 4) + ToBytes(s.d, 4)
    + ToBytes(s.e, 4) + ToBytes(s.f, 4) + ToBytes(s.g, 4) + ToBytes(s.h, 4)
  }

  lemma OutputWords(s: State)
    ensures var out := ToBytes(s.a, 4) + ToBytes(s.b, 4) + ToBytes(s.c, 4) + ToBytes(s.d, 4)
                       + ToBytes(s.e, 4) + ToBytes(s.f, 4) + ToBytes(s.g, 4) + ToBytes(s.h, 4);
            && FromBytes(out[..4]) == s.a && FromBytes(out[4..8]) == s.b && FromBytes(out[8..12]) == s.c
            && FromBytes(out[12..16]) == s.d && FromBytes(out[16..20]) == s.e && FromBytes(out[20..24]) == s.f
            && FromBytes(out[24..28]) == s.g && FromBytes(out[28..]) == s.h
  {
    hide ToBytes, FromBytes;
    WordBack(s.a);
    WordBack(s.b);
    WordBack(s.c);
    WordBack(s.d);
    WordBack(s.e);
    WordBack(s.f);
    WordBack(s.g);
    WordBack(s.h);
    EightWords(ToBytes(s.a, 4), ToBytes(s.b, 4), ToBytes(s.c, 4), ToBytes(s.d, 4),
               ToBytes(s.e, 4), ToBytes(s.f, 4), ToBytes(s.g, 4), ToBytes(s.h, 4));
  }

  lemma WordBack(w: uint32)
    ensures FromBytes(ToBytes(w, 4)) == w
  {
    hide ToBytes, FromBytes;
    PowersOf256();
    FromToBytes(w, 4);
  }

  lemma EightWords(a: seq<byte>, b: seq<byte>, c: seq<byte>, d: seq<byte>, e: seq<byte>, f: seq<byte>, g: seq<byte>, h: seq<byte>)
    requires |a| == |b| == |c| == |d| == |e| == |f| == |g| == |h| == 4
    ensures var out := a + b + c + d + e + f + g + h;
            && out[..4] == a && out[4..8] == b && out[8..12] == c && out[12..16] == d
            && out[16..20] == e && out[20..24] == f && out[24..28] == g && out[28..] == h
  {
  }

  function Digest(t: Transform, m: seq<byte>): (out: seq<byte>)
    ensures |out| == 32
  {
    Output(Fold(t, INITIAL, m + Padding(|m|)))
  }

  /** Padding completes the last block, and no shorter run of zeros would do. */
  lemma PaddingCompletes(n: nat)
    ensures (n + |Padding(n)|) % 64 == 0 && 9 <= |Padding(n)| < 9 + 64
  {
    hide ToBytes;
    var q, r := (55 - n) / 64, (55 - n) % 64;
    DivModUnique(n + 9 + r, 1 - q, 0, 64);
  }

  /** Its first byte, its zeros, and the length in bits in its last eight bytes. */
  lemma PaddingMeans(n: nat)
    requires 8 * n < TWO64
    ensures var p := Padding(n);
            p[0] == 0x80 && (forall k :: 1 <= k < |p| - 8 ==> p[k] == 0) && FromBytes(p[|p| - 8..]) == 8 * n
  {
    hide ToBytes, FromBytes;
    var p := Padding(n);
    assert p[|p| - 8..] == ToBytes(8 * n, 8);
    PowersOf256();
    FromToBytes(8 * n, 8);
  }

  /** Bytes that do not fill a block are left. */
  lemma FoldRest(t: Transform, s: State, m: seq<byte>)
    requires |m| < 64
    ensures Fold(t, s, m) == s
  {
  }

  lemma {:induction false} FoldAppend(t: Transform, s: State, x: seq<byte>, y: seq<byte>)
    requires |x| % 64 == 0
    ensures Fold(t, s, x + y) == Fold(t, Fold(t, s, x), y)
    decreases |x|
  {
    if x == [] {
      assert x + y == y;
    } else {
      assert (x + y)[..64] == x[..64] && (x + y)[64..] == x[64..] + y;
      FoldAppend(t, t(s, x[..64]), x[64..], y);
    }
  }

  lemma FoldBlock(t: Transform, s: State, b: seq<byte>)
    requires |b| == 64
    ensures Fold(t, s, b) == t(s, b)
  {
    assert b[..64] == b && b[64..] == [];
  }

  /** The part of m in full blocks. */
  function Whole(m: seq<byte>): nat { |m| - |m| % 64 }

  /** The state and the buffered bytes after m. */
  ghost predicate Absorbed(t: Transform, s: State, b: seq<byte>, m: seq<byte>)
  {
    s == Fold(t, INITIAL, m[..Whole(m)]) && b == m[Whole(m)..]
  }

  lemma AbsorbNothing(t: Transform)
    ensures Absorbed(t, INITIAL, [], [])
  {
  }

  /** Bytes that complete the buffered block. */
  lemma AbsorbBlock(t: Transform, s: State, b: seq<byte>, m: seq<byte>, c: seq<byte>)
    requires Absorbed(t, s, b, m) && |b| + |c| == 64
    ensures Absorbed(t, t(s, b + c), [], m + c)
  {
    var w := Whole(m);
    assert (m + c)[..Whole(m + c)] == m[..w] + (b + c);
    FoldAppend(t, INITIAL, m[..w], b + c);
    FoldBlock(t, s, b + c);
  }

  /** Bytes that leave it open. */
  lemma AbsorbPart(t: Transform, s: State, b: seq<byte>, m: seq<byte>, c: seq<byte>)
    requires Absorbed(t, s, b, m) && |b| + |c| < 64
    ensures Absorbed(t, s, b + c, m + c)
  {
    var w := Whole(m);
    assert Whole(m + c) == w;
    assert (m + c)[..w] == m[..w] && (m + c)[w..] == b + c;
  }

  lemma AbsorbedLength(t: Transform, s: State, b: seq<byte>, m: seq<byte>)
    requires Absorbed(t, s, b, m)
    ensures |b| == |m| % 64
    ensures b == [] ==> s == Fold(t, INITIAL, m)
  {
    if b == [] { assert m[..Whole(m)] == m; }
  }

  // ----- the length field -----

  /** The low bytes of a number depend only on its remainder. */
  lemma {:induction false} LowBytes(v: nat, h: nat, l: nat, j: nat, k: nat)
    requires v == h * Pow(256, k) + l && l < Pow(256, k)
    ensures ToBytes(v, j + k) == ToBytes(h, j) + ToBytes(l, k)
  {
    if k == 0 {
      assert ToBytes(v, j) + [] == ToBytes(v, j);
    } else {
      PowStep(256, k - 1);
      DropByte(v, h, l, Pow(256, k - 1));
      LowBytes(v / 256, h, l / 256, j, k - 1);
    }
  }

  lemma DropByte(v: nat, h: nat, l: nat, p: nat)
    requires v == h * (256 * p) + l && l < 256 * p
    ensures v / 256 == h * p + l / 256 && v % 256 == l % 256 && l / 256 < p
  {
    assert h * (256 * p) == 256 * (h * p);
  }

  /** The bit length as two 32-bit words. */
  lemma SizeWords(n: nat)
    requires n < 0x2000_0000_0000_0000
    ensures n / 0x2000_0000 < TWO32
    ensures ToBytes(n / 0x2000_0000, 4) + ToBytes(U32(U64(n * 8)), 4) == ToBytes(8 * n, 8)
  {
    hide ToBytes;
    PowersOf256();
    SizeParts(n);
    LowBytes(8 * n, n / 0x2000_0000, U32(U64(n * 8)), 4, 4);
  }

  lemma SizeParts(n: nat)
    requires n < 0x2000_0000_0000_0000
    ensures n / 0x2000_0000 < TWO32
    ensures 8 * n == n / 0x2000_0000 * TWO32 + U32(U64(n * 8))
  {
    var q := n / 0x2000_0000;
    DivModUnique(8 * n, q, 8 * n - q * TWO32, TWO32);
    DivModUnique(8 * n, 0, 8 * n, TWO64);
  }

  // ----- the streaming hash -----

  lemma Append(m: seq<byte>, data: seq<byte>, d: nat, n: nat)
    requires d + n <= |data|
    ensures m + data[..d] + data[d..d + n] == m + data[..d + n]
    ensures d + n == |data| ==> m + data[..d] + data[d..] == m + data
  {
  }

  class Hash {
    const transform: Transform
    var s: State
    const buf: array<byte>
    var bytes: uint64
    /** Everything written so far. */
    ghost var message: seq<byte>

    ghost predicate Valid()
      reads this, buf
    {
      && buf.Length == 64 && bytes == |message|
      && Absorbed(transform, s, buf[..bytes % 64], message)
    }

    constructor (t: Transform)
      ensures Valid() && fresh(buf) && transform == t && message == []
    {
      hide Absorbed, Fold;
      transform := t;
      s := INITIAL;
      buf := new byte[64];
      bytes := 0;
      message := [];
      new;
      AbsorbNothing(t);
      assert buf[..0] == [];
    }

    /** memcpy into the buffer. */
    method Fill(at: nat, c: seq<byte>)
      requires buf.Length == 64 && at + |c| <= 64
      modifies buf
      ensures buf[..at + |c|] == old(buf[..at]) + c
    {
      forall i | 0 <= i < |c| { buf[at + i] := c[i]; }
    }

    /** Completes the buffered block and takes it in. */
    method TakeBlock(bufsize: nat, chunk: seq<byte>, ghost m: seq<byte>)
      requires buf.Length == 64 && bufsize + |chunk| == 64 && Absorbed(transform, s, buf[..bufsize], m)
      modifies this`s, buf
      ensures Absorbed(transform, s, buf[..0], m + chunk)
    {
      hide Absorbed, Fold;
      ghost var b := buf[..bufsize];
      Fill(bufsize, chunk);
      assert buf[..] == b + chunk;
      AbsorbBlock(transform, s, b, m, chunk);
      s := transform(s, buf[..]);
      assert buf[..0] == [];
    }

    /** Leaves bytes in the buffer that do not complete a block. */
    method Keep(bufsize: nat, rest: seq<byte>, ghost m: seq<byte>)
      requires buf.Length == 64 && bufsize + |rest| < 64 && Absorbed(transform, s, buf[..bufsize], m)
      modifies buf
      ensures Absorbed(transform, s, buf[..bufsize + |rest|], m + rest)
    {
      hide Absorbed, Fold;
      ghost var b := buf[..bufsize];
      AbsorbPart(transform, s, b, m, rest);
      if |rest| > 0 {
        Fill(bufsize, rest);
      }
      assert buf[..bufsize + |rest|] == b + rest;
    }

    /** Appends to the message. */
    method Write(data: seq<byte>)
      requires Valid() && |message| + |data| < TWO64
      modifies this, buf
      ensures Valid() && message == old(message) + data
    {
      hide Absorbed, Fold;
      var bufsize := bytes % 64;
      bytes := bytes + |data|;
      var d: nat := 0;
      var len: nat := |data|;
      ghost var m := message;
      assert m + data[..0] == m;
      while len >= 64 - bufsize
        invariant d + len == |data| && 0 <= bufsize < 64 && bytes == |m| + |data| && message == m
        invariant Absorbed(transform, s, buf[..bufsize], m + data[..d])
        decreases len
      {
        var n := 64 - bufsize;
        TakeBlock(bufsize, data[d..d + n], m + data[..d]);
        Append(m, data, d, n);
        d := d + n;
        len := len - n;
        bufsize := 0;
      }
      Keep(bufsize, data[d..], m + data[..d]);
      Append(m, data, d, len);
      message := m + data;
      AbsorbedLength(transform, s, buf[..bufsize + len], message);
    }

    /** The digest of everything written, however it was split into writes. */
    method Finalize() returns (out32: seq<byte>)
      requires Valid() && |message| < 0x2000_0000_0000_0000
      modifies this, buf
      ensures out32 == Digest(transform, old(message)) && |out32| == 32
      ensures var f := Fold(transform, INITIAL, old(message) + Padding(|old(message)|));
              && FromBytes(out32[..4]) == f.a && FromBytes(out32[4..8]) == f.b && FromBytes(out32[8..12]) == f.c
              && FromBytes(out32[12..16]) == f.d && FromBytes(out32[16..20]) == f.e && FromBytes(out32[20..24]) == f.f
              && FromBytes(out32[24..28]) == f.g && FromBytes(out32[28..]) == f.h
      ensures s == State(0, 0, 0, 0, 0, 0, 0, 0)
    {
      hide Absorbed, ToBytes, FromBytes, Digest, Fold, Output, Padding, U32, U64;
      ghost var m := message;
      var n := bytes;
      SizeWords(n);
      var sizedesc := ToBytes(n / 0x2000_0000, 4) + ToBytes(U32(U64(n * 8)), 4);
      var zeros := (119 - n % 64) % 64;
      var pad := [0x80] + seq(63, i => 0);
      var padding := pad[..1 + zeros];
      PaddingParts(n, padding, sizedesc);
      Write(padding);
      Write(sizedesc);
      assert message == m + Padding(n);
      PaddingCompletes(n);
      AbsorbedLength(transform, s, buf[..bytes % 64], message);
      DigestIs(transform, m);
      out32 := Output(s);
      s := State(0, 0, 0, 0, 0, 0, 0, 0);
    }
  }

  lemma PaddingParts(n: nat, p: seq<byte>, size: seq<byte>)
    requires p == ([0x80] + seq(63, i => 0))[..1 + (119 - n % 64) % 64] && size == ToBytes(8 * n, 8)
    ensures p + size == Padding(n) && |p| <= 64 && |size| == 8
    ensures forall m: seq<byte> :: m + p + size == m + Padding(n)
  {
    hide ToBytes;
    ZeroCount(n);
    assert p == [0x80] + seq((55 - n) % 64, i => 0);
    forall m: seq<byte> ensures m + p + size == m + Padding(n) {
      assert m + p + size == m + (p + size);
    }
  }

  lemma ZeroCount(n: nat)
    ensures (119 - n % 64) % 64 == (55 - n) % 64
  {
  }

  lemma DigestIs(t: Transform, m: seq<byte>)
    ensures Digest(t, m) == Output(Fold(t, INITIAL, m + Padding(|m|)))
  {
  }

  // ----- HMAC -----

  function Xor(x: byte, y: byte): byte { (x as bv8 ^ y as bv8) as byte }

  function XorAll(s: seq<byte>, y: byte): (r: seq<byte>)
    ensures |r| == |s| && forall i :: 0 <= i < |s| ==> r[i] == Xor(s[i], y)
  {
    seq(|s|, i requires 0 <= i < |s| => Xor(s[i], y))
  }

  /** Two masks in turn are one mask. */
  lemma XorTwice(x: byte, y: byte, z: byte)
    ensures Xor(Xor(x, y), Xor(y, z)) == Xor(x, z)
  {
    hide Xor;
    var a, b, c := x as bv8, y as bv8, z as bv8;
    XorOf(x, y, a, b);
    XorOf(y, z, b, c);
    XorOf(Xor(x, y), Xor(y, z), a ^ b, b ^ c);
    XorOf(x, z, a, c);
    Masks(a, b, c);
  }

  lemma XorOf(x: byte, y: byte, a: bv8, b: bv8)
    requires a == x as bv8 && b == y as bv8
    ensures Xor(x, y) == (a ^ b) as byte && Xor(x, y) as bv8 == a ^ b
  {
    SameBits(a ^ b);
  }

  lemma SameBits(b: bv8)
    ensures (b as byte) as bv8 == b
  {
  }

  lemma Masks(x: bv8, y: bv8, z: bv8)
    ensures (x ^ y) ^ (y ^ z) == x ^ z
  {
  }

  /** Section 2 of RFC 2104: keys longer than a block are hashed, all are filled up with zeros. */
  function BlockKey(t: Transform, key: seq<byte>): (k: seq<byte>)
    ensures |k| == 64
  {
    if |key| <= 64 then key + seq(64 - |key|, i => 0) else Digest(t, key) + seq(32, i => 0)
  }

  lemma BlockKeyMeans(t: Transform, key: seq<byte>)
    ensures |key| <= 64 ==> BlockKey(t, key)[..|key|] == key && forall i :: |key| <= i < 64 ==> BlockKey(t, key)[i] == 0
    ensures |key| > 64 ==> BlockKey(t, key)[..32] == Digest(t, key) && forall i :: 32 <= i < 64 ==> BlockKey(t, key)[i] == 0
  {
    hide Digest;
  }

  class Hmac {
    const inner: Hash
    const outer: Hash
    ghost const key: seq<byte>
    /** Everything written so far. */
    ghost var text: seq<byte>

    ghost predicate Valid()
      reads this, inner, outer, inner.buf, outer.buf
    {
      && inner != outer && inner.buf != outer.buf && inner.transform == outer.transform
      && inner.Valid() && outer.Valid()
      && outer.message == XorAll(BlockKey(inner.transform, key), 0x5C)
      && inner.message == XorAll(BlockKey(inner.transform, key), 0x36) + text
    }

    constructor (t: Transform, k: seq<byte>)
      requires |k| < 0x2000_0000_0000_0000
      ensures Valid() && fresh(inner) && fresh(outer) && fresh(inner.buf) && fresh(outer.buf)
      ensures inner.transform == t && key == k && text == []
    {
      hide BlockKey, XorAll, Xor, Hash.Valid;
      var rkey := Expand(t, k);
      key := k;
      text := [];
      KeyMasks(rkey);
      rkey := XorAll(rkey, 0x5C);
      var out := Started(t, rkey);
      rkey := XorAll(rkey, Xor(0x5C, 0x36));
      var inn := Started(t, rkey);
      outer := out;
      inner := inn;
    }

    /** The key as one block: padded, or hashed first when it is longer than that. */
    static method Expand(t: Transform, k: seq<byte>) returns (rkey: seq<byte>)
      requires |k| < 0x2000_0000_0000_0000
      ensures rkey == BlockKey(t, k) && |rkey| == 64
    {
      hide Digest, Hash.Valid;
      if |k| <= 64 {
        rkey := k + seq(64 - |k|, i => 0);
      } else {
        var hash := Started(t, k);
        rkey := hash.Finalize();
        rkey := rkey + seq(32, i => 0);
      }
    }

    /** A new hash that has taken in a message. */
    static method Started(t: Transform, message: seq<byte>) returns (hash: Hash)
      requires |message| < TWO64
      ensures fresh(hash) && fresh(hash.buf) && hash.Valid() && hash.transform == t && hash.message == message
    {
      hide Hash.Valid;
      hash := new Hash(t);
      hash.Write(message);
      assert [] + message == message;
    }

    method Write(data: seq<byte>)
      requires Valid() && 64 + |text| + |data| < TWO64
      modifies this, inner, inner.buf
      ensures Valid() && text == old(text) + data
    {
      hide Fold, BlockKey, XorAll, Absorbed;
      inner.Write(data);
      text := text + data;
    }

    method Finalize() returns (out32: seq<byte>)
      requires Valid() && 64 + |text| < 0x2000_0000_0000_0000
      modifies this, inner, outer, inner.buf, outer.buf
      ensures var (t, k) := (inner.transform, BlockKey(inner.transform, key));
              out32 == Digest(t, XorAll(k, 0x5C) + Digest(t, XorAll(k, 0x36) + old(text)))
    {
      hide Digest, Fold, Output, BlockKey, XorAll, Absorbed;
      var temp := inner.Finalize();
      outer.Write(temp);
      out32 := outer.Finalize();
    }
  }

  lemma KeyMasks(k: seq<byte>)
    ensures XorAll(XorAll(k, 0x5C), Xor(0x5C, 0x36)) == XorAll(k, 0x36)
  {
    forall i | 0 <= i < |k| ensures XorAll(XorAll(k, 0x5C), Xor(0x5C, 0x36))[i] == XorAll(k, 0x36)[i] {
      XorTwice(k[i], 0x5C, 0x36);
    }
  }
}
