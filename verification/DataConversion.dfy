/** Big integers to and from big-endian bytes. */
module DataConversion {
  import opened Arith
  import opened Bytes
  import opened Digits
  import opened BigUInts
  import opened Shifts

  // ----- bytes and words -----

  lemma EightBytes()
    ensures Pow(256, 8) == BASE && Pow(256, 0) == 1
  {
    PowersOf256();
  }

  lemma {:induction false} PowWeight(i: nat)
    ensures Pow(256, 8 * i) == Weight(i)
  {
    if i > 0 {
      PowWeight(i - 1);
      PowAdd(256, 8, 8 * (i - 1));
      EightBytes();
    }
  }

  /** The state after some bytes: whole words are in the number, `word` holds c bytes of the next. */
  ghost predicate Reading(v: int, total: nat, index: int, c: nat, word: nat)
  {
    index >= -1 && word < Pow(256, c) && exists u: nat :: v == u * Weight(index + 1) && total == u * Pow(256, c) + word
  }

  lemma ReadingStart(index: int, c: nat)
    requires index >= -1
    ensures Reading(0, 0, index, c, 0)
  {
    PowPositive(256, c);
    assert 0 == 0 * Weight(index + 1) && 0 == 0 * Pow(256, c) + 0;
  }

  lemma ReadingByte(v: nat, total: nat, index: int, c: nat, word: nat, byte: nat)
    requires Reading(v, total, index, c, word) && byte < 256
    ensures Reading(v, total * 256 + byte, index, c + 1, word * 256 + byte)
  {
    var u: nat :| v == u * Weight(index + 1) && total == u * Pow(256, c) + word;
    ByteAlgebra(u, Pow(256, c), word, byte);
    assert total * 256 + byte == u * Pow(256, c + 1) + (word * 256 + byte);
  }

  lemma ByteAlgebra(u: int, p: int, word: int, byte: int)
    requires word < p && byte < 256
    ensures (u * p + word) * 256 + byte == u * (256 * p) + (word * 256 + byte) && word * 256 + byte < 256 * p
  {
  }

  /** A complete word is stored below the words before it. */
  lemma ReadingWord(v: nat, total: nat, index: int, word: Word)
    requires Reading(v, total, index, 8, word) && index >= 0
    ensures Reading(Put(v, index, word), total, index - 1, 0, 0)
  {
    EightBytes();
    var u: nat :| v == u * Weight(index + 1) && total == u * Pow(256, 8) + word;
    WeightStep(index);
    hide Pow, Weight;
    PutTop(v, u, Weight(index), word);
    assert Put(v, index, word) == total * Weight(index - 1 + 1) && total == total * Pow(256, 0) + 0;
  }

  lemma PutTop(v: nat, u: nat, p: nat, word: Word)
    requires p > 0 && v == u * (BASE * p)
    ensures v / p % BASE == 0 && v + (word - 0) * p == (u * BASE + word) * p
  {
    assert u * (BASE * p) == (u * BASE) * p;
    DivModUnique(v, u * BASE, 0, p);
    DivModUnique(u * BASE, u, 0, BASE);
  }

  lemma ReadingEnd(v: nat, total: nat)
    requires Reading(v, total, -1, 0, 0)
    ensures v == total
  {
    assert Weight(0) == 1 && Pow(256, 0) == 1;
  }

  lemma WordFits(v: nat, total: nat, index: int, c: nat, word: nat)
    requires Reading(v, total, index, c, word) && c <= 8
    ensures word < BASE
  {
    PowMono(256, c, 8);
    EightBytes();
  }

  /** BigUInt(data). */
  method FromData(data: seq<byte>) returns (x: BigUInt)
    ensures fresh(x) && x.Valid() && x.Value() == FromBytes(data)
  {
    hide BigUInt.Valid, BigUInt.Value, BigUInt.Words, Reading, Put, FromBytes;
    x := new BigUInt();
    var length := |data|;
    EmptyValue();
    if length == 0 { return; }
    var index: int := length / 8;
    var c := 8 - length % 8;
    if c == 8 {
      c := 0;
      index := index - 1;
    }
    var word: Word := 0;
    ReadingStart(index, c);
    for i := 0 to |data|
      invariant x.Valid() && fresh(x) && 0 <= c < 8 && |data| - i == 8 * (index + 1) - c
      invariant Reading(x.Value(), FromBytes(data[..i]), index, c, word)
    {
      assert data[..i + 1][..i] == data[..i];
      BytesNext(data, i);
      ReadingByte(x.Value(), FromBytes(data[..i]), index, c, word, data[i]);
      WordFits(x.Value(), FromBytes(data[..i + 1]), index, c + 1, word * 256 + data[i]);
      word := word * 256 + data[i];
      c := c + 1;
      if c == 8 {
        ReadingWord(x.Value(), FromBytes(data[..i + 1]), index, word);
        x.Set(index, word);
        index := index - 1;
        c := 0;
        word := 0;
      }
    }
    assert data[..|data|] == data;
    assert word == 0 by { FullyRead(x.Value(), FromBytes(data), index, c, word); }
    ReadingEnd(x.Value(), FromBytes(data));
  }

  lemma EmptyValue()
    ensures FromBytes([]) == 0
  {
  }

  lemma BytesNext(data: seq<byte>, i: nat)
    requires i < |data|
    ensures FromBytes(data[..i + 1]) == FromBytes(data[..i]) * 256 + data[i]
  {
    assert data[..i + 1][..i] == data[..i];
  }

  lemma FullyRead(v: nat, total: nat, index: int, c: nat, word: nat)
    requires Reading(v, total, index, c, word) && c == 0
    ensures word == 0
  {
    EightBytes();
  }

  // ----- serializing -----

  /** A byte further up goes to the front. */
  lemma {:induction false} ToBytesFront(v: nat, k: nat)
    ensures Pow(256, k) > 0
    ensures ToBytes(v, k + 1) == [v / Pow(256, k) % 256] + ToBytes(v, k)
  {
    PowPositive(256, k);
    if k == 0 {
      assert ToBytes(v, 1) == ToBytes(v / 256, 0) + [v % 256];
      assert v / Pow(256, 0) == v;
    } else {
      ToBytesFront(v / 256, k - 1);
      DivideTwice256(v, Pow(256, k - 1));
      assert [v / Pow(256, k) % 256] + ToBytes(v / 256, k - 1) + [v % 256] == [v / Pow(256, k) % 256] + ToBytes(v, k);
    }
  }

  lemma DivideTwice256(v: nat, p: nat)
    requires p > 0
    ensures v / 256 / p == v / (256 * p)
  {
    var q, r, s := v / 256 / p, v / 256 % p, v % 256;
    assert v == (q * p + r) * 256 + s;
    assert (q * p + r) * 256 + s == q * (256 * p) + (r * 256 + s);
    MulMono(r, p - 1, 256);
    DivModUnique(v, q, r * 256 + s, 256 * p);
  }

  /** Byte t of word i, after the lower bytes have been shifted out. */
  ghost predicate Shifted(v: nat, i: nat, t: nat, word: nat)
  {
    t <= 8 && Pow(256, t) > 0 && word == Digit(v, i) / Pow(256, t)
  }

  lemma ShiftedStart(v: nat, i: nat)
    ensures Shifted(v, i, 0, Digit(v, i))
  {
    EightBytes();
  }

  lemma ShiftedNext(v: nat, i: nat, t: nat, word: nat)
    requires Shifted(v, i, t, word) && t < 8
    ensures Shifted(v, i, t + 1, word / 256)
    ensures ToBytes(v, 8 * i + t + 1) == [word % 256] + ToBytes(v, 8 * i + t)
  {
    var p := Pow(256, t);
    PowStep(256, t);
    DivideTwiceBy(Digit(v, i), p);
    ToBytesFront(v, 8 * i + t);
    ByteOfDigit(v, i, t);
  }

  lemma DivideTwiceBy(x: nat, p: nat)
    requires p > 0
    ensures x / p / 256 == x / (256 * p)
  {
    var q, r, s := x / p / 256, x / p % 256, x % p;
    assert x == (q * 256 + r) * p + s;
    assert (q * 256 + r) * p + s == q * (256 * p) + (r * p + s);
    MulMono(r, 255, p);
    MulMono(0, r, p);
    DivModUnique(x, q, r * p + s, 256 * p);
  }

  lemma ByteOfDigit(v: nat, i: nat, t: nat)
    requires t < 8
    ensures Pow(256, t) > 0 && Pow(256, 8 * i + t) > 0
    ensures Digit(v, i) / Pow(256, t) % 256 == v / Pow(256, 8 * i + t) % 256
  {
    hide Pow, Weight;
    PowPositive(256, 8 * i + t);
    PowWeight(i);
    PowAdd(256, 8 * i, t);
    BytesOfWord(t);
    var h := v / Weight(i);
    QuotientOfProduct(v, Weight(i), Pow(256, t));
    LowPart(h, Pow(256, t), Pow(256, 7 - t), BASE);
  }

  lemma BytesOfWord(t: nat)
    requires t < 8
    ensures Pow(256, t) > 0 && Pow(256, 7 - t) > 0 && Pow(256, t) * (256 * Pow(256, 7 - t)) == BASE
  {
    hide Pow;
    PowPositive(256, t);
    PowPositive(256, 7 - t);
    EightBytes();
    PowAdd(256, t, 8 - t);
    PowStep(256, 7 - t);
  }

  lemma QuotientOfProduct(v: nat, w: nat, p: nat)
    requires w > 0 && p > 0
    ensures w * p > 0 && v / (w * p) == v / w / p
  {
    var q, r, s := v / w / p, v / w % p, v % w;
    assert v == (q * p + r) * w + s;
    assert (q * p + r) * w + s == q * (w * p) + (r * w + s);
    MulMono(r, p - 1, w);
    MulMono(0, r, w);
    MulMono(1, w, p);
    assert (p - 1) * w == w * p - w;
    DivModUnique(v, q, r * w + s, w * p);
  }

  /** Cutting h to a multiple of 256 * p does not change the byte at p. */
  lemma LowPart(h: nat, p: nat, z: nat, base: nat)
    requires p > 0 && z > 0 && p * (256 * z) == base
    ensures h % base / p % 256 == h / p % 256
  {
    var k := h / base;
    var l := h % base;
    assert h == k * base + l;
    var q, s := l / p, l % p;
    assert l == q * p + s;
    assert k * base == (k * z * 256) * p by { assert k * (p * (256 * z)) == (k * z * 256) * p; }
    assert h == (k * z * 256 + q) * p + s;
    DivModUnique(h, k * z * 256 + q, s, p);
    CongIntro(k * z * 256 + q, q, k * z, 256);
  }

  /** serialize(). */
  method Serialize(x: BigUInt) returns (data: seq<byte>)
    requires x.Valid()
    ensures data == ToBytes(x.Value(), (BitLength(x.Value()) + 7) / 8)
  {
    hide BigUInt.Valid, BigUInt.Value, BigUInt.Words, BigUInt.Count, BitLength, Shifted, Digit, ToBytes;
    ghost var v := x.Value();
    var byteCount := (BitWidth(x) + 7) / 8;
    if byteCount == 0 {
      NoBytes(v);
      return [];
    }
    var p := new byte[byteCount](_ => 0);
    var i := byteCount - 1;
    NoBytes(v);
    ByteCounts(x, v, byteCount);
    assert p[byteCount..] == [];
    for w := 0 to x.Count()
      invariant w < x.Count() ==> i == byteCount - 1 - 8 * w && p[i + 1..] == ToBytes(v, 8 * w)
      invariant w == x.Count() ==> p[..] == ToBytes(v, byteCount)
    {
      i := StoreWord(p, i, w, x.Get(w), v);
    }
    data := p[..];
  }

  lemma NoBytes(v: nat)
    ensures ToBytes(v, 0) == []
  {
  }

  /** The loop over the bytes of one word; it stops early at the front of the data. */
  method StoreWord(p: array<byte>, i0: nat, w: nat, word0: Word, ghost v: nat) returns (i: nat)
    requires i0 == p.Length - 1 - 8 * w && word0 == Digit(v, w) && p[i0 + 1..] == ToBytes(v, 8 * w)
    modifies p
    ensures p.Length <= 8 * w + 8 ==> p[..] == ToBytes(v, p.Length)
    ensures p.Length > 8 * w + 8 ==> i == p.Length - 1 - (8 * w + 8) && p[i + 1..] == ToBytes(v, 8 * w + 8)
  {
    hide Shifted, Digit, ToBytes;
    var word := word0;
    i := i0;
    ShiftedStart(v, w);
    for t := 0 to 8
      invariant i == p.Length - 1 - (8 * w + t) && p[i + 1..] == ToBytes(v, 8 * w + t)
      invariant Shifted(v, w, t, word)
    {
      ShiftedNext(v, w, t, word);
      p[i] := word % 256;
      assert p[i..] == [word % 256] + p[i + 1..];
      word := word / 256;
      if i == 0 {
        assert p[0..] == p[..];
        return;
      }
      i := i - 1;
    }
  }

  lemma ByteCounts(x: BigUInt, v: nat, byteCount: nat)
    requires x.Valid() && v == x.Value() && byteCount == (BitLength(v) + 7) / 8 > 0
    ensures 8 * (x.Count() - 1) < byteCount <= 8 * x.Count() && x.Count() > 0
  {
    hide BigUInt.Valid, BigUInt.Value;
    TopDigit(v, x.Count());
  }

  // ----- both directions -----

  lemma {:induction false} BytePowers(k: nat)
    ensures Pow(256, k) == Pow2(8 * k)
  {
    if k > 0 {
      BytePowers(k - 1);
      assert Pow2(8) == 256;
      Pow2Add(8, 8 * (k - 1));
    }
  }

  lemma {:induction false} BitLengthBounds(v: nat)
    ensures v < Pow2(BitLength(v)) && (v > 0 ==> BitLength(v) > 0 && Pow2(BitLength(v) - 1) <= v)
  {
    if v > 0 {
      BitLengthBounds(v / 2);
      assert v == 2 * (v / 2) + v % 2;
    }
  }

  /** The number of bytes of a number, between two powers of 256. */
  lemma ByteCountBounds(v: nat)
    ensures var n := (BitLength(v) + 7) / 8;
      && v < Pow(256, n) && (v == 0 <==> n == 0) && (n > 0 ==> Pow(256, n - 1) <= v)
  {
    var b, n := BitLength(v), (BitLength(v) + 7) / 8;
    BitLengthBounds(v);
    BytePowers(n);
    Pow2Mono(b, 8 * n);
    if v > 0 {
      BytePowers(n - 1);
      Pow2Mono(8 * (n - 1), b - 1);
    }
  }

  /** Serialized bytes denote the number and have no leading zero. */
  lemma SerializedMeans(v: nat)
    ensures var s := ToBytes(v, (BitLength(v) + 7) / 8);
      FromBytes(s) == v && (s == [] || s[0] != 0)
  {
    hide BitLength, ToBytes, FromBytes, Pow;
    var n := (BitLength(v) + 7) / 8;
    ByteCountBounds(v);
    FromToBytes(v, n);
    if n > 0 {
      ToBytesFront(v, n - 1);
      PowSplit(n);
      FrontByte(v, Pow(256, n - 1));
    }
  }

  lemma PowSplit(n: nat)
    requires n > 0
    ensures Pow(256, n) == 256 * Pow(256, n - 1)
  {
  }

  lemma FrontByte(v: nat, p: nat)
    requires p > 0 && p <= v < 256 * p
    ensures v / p % 256 != 0
  {
    var q := v / p;
    if q >= 256 { MulMono(256, q, p); }
    if q < 1 { MulMono(q, 0, p); }
    DivModUnique(q, 0, q, 256);
  }

  /** Bytes without leading zeros are what their number serializes to. */
  lemma SerializedUnique(s: seq<byte>)
    requires s == [] || s[0] != 0
    ensures ToBytes(FromBytes(s), (BitLength(FromBytes(s)) + 7) / 8) == s
  {
    hide BitLength, ToBytes, FromBytes, Pow;
    var v := FromBytes(s);
    var n := (BitLength(v) + 7) / 8;
    ByteCountBounds(v);
    FromBytesBound(s);
    ToFromBytes(s);
    EmptyValue();
    PowOne256();
    if s != [] {
      LeadingNonzero(s);
      PowPositive(256, |s| - 1);
      if n < |s| { PowMono(256, n, |s| - 1); }
    }
    if n > |s| { PowMono(256, |s|, n - 1); }
  }

  lemma PowOne256()
    ensures Pow(256, 0) == 1
  {
  }
}
