/** Byte strings as big-endian numbers. */
module Bytes {
  import opened Arith
  import opened MachineInts

  type byte = x: int | 0 <= x < 256

  /** The number a byte string denotes, most significant byte first. */
  function FromBytes(s: seq<byte>): (v: nat)
  {
    if s == [] then 0 else FromBytes(s[..|s| - 1]) * 256 + s[|s| - 1]
  }

  /** The low k bytes of v. */
  function ToBytes(v: nat, k: nat): (s: seq<byte>)
    ensures |s| == k
  {
    if k == 0 then [] else ToBytes(v / 256, k - 1) + [v % 256]
  }

  lemma {:induction false} FromBytesBound(s: seq<byte>)
    ensures FromBytes(s) < Pow(256, |s|)
  {
    if s != [] { FromBytesBound(s[..|s| - 1]); }
  }

  lemma {:induction false} FromBytesJoin(s: seq<byte>, t: seq<byte>)
    ensures FromBytes(s + t) == FromBytes(s) * Pow(256, |t|) + FromBytes(t)
  {
    if t == [] {
      assert s + t == s;
    } else {
      var u := t[..|t| - 1];
      FromBytesJoin(s, u);
      assert (s + t)[..|s + t| - 1] == s + u;
      Shift(FromBytes(s), Pow(256, |u|));
    }
  }

  lemma Shift(x: int, p: int)
    ensures x * (256 * p) == x * p * 256
  {
  }

  /** A leading zero byte does not matter. */
  lemma {:induction false} LeadingZero(s: seq<byte>)
    requires s != [] && s[0] == 0
    ensures FromBytes(s) == FromBytes(s[1..])
  {
    assert s == [0] + s[1..];
    FromBytesJoin([0], s[1..]);
    assert FromBytes([0]) == FromBytes([]) * 256 + 0;
  }

  /** Without leading zeros the length bounds the number from below. */
  lemma LeadingNonzero(s: seq<byte>)
    requires s != [] && s[0] != 0
    ensures FromBytes(s) >= Pow(256, |s| - 1)
  {
    assert s == [s[0]] + s[1..];
    FromBytesJoin([s[0]], s[1..]);
    assert FromBytes([s[0]]) == FromBytes([]) * 256 + s[0];
    MulMono(1, s[0], Pow(256, |s| - 1));
  }

  lemma {:induction false} Zeros(k: nat)
    ensures FromBytes(seq(k, i => 0)) == 0
  {
    if k > 0 {
      assert seq(k, i => 0)[..k - 1] == seq(k - 1, i => 0);
      Zeros(k - 1);
    }
  }

  lemma {:induction false} FromToBytes(v: nat, k: nat)
    requires v < Pow(256, k)
    ensures FromBytes(ToBytes(v, k)) == v
  {
    if k > 0 {
      PowStep(256, k);
      FromToBytes(v / 256, k - 1);
      assert (ToBytes(v / 256, k - 1) + [v % 256])[..k - 1] == ToBytes(v / 256, k - 1);
    }
  }

  lemma {:induction false} ToFromBytes(s: seq<byte>)
    ensures ToBytes(FromBytes(s), |s|) == s
  {
    if s != [] {
      ToFromBytes(s[..|s| - 1]);
      assert FromBytes(s) / 256 == FromBytes(s[..|s| - 1]) && FromBytes(s) % 256 == s[|s| - 1];
    }
  }

  lemma PowersOf256()
    ensures Pow(256, 8) == TWO64
    ensures Pow(256, 4) == TWO32
  {
    assert Pow(256, 2) == 256 * Pow(256, 1) && Pow(256, 1) == 256 * Pow(256, 0);
    PowAdd(256, 2, 2);
    PowAdd(256, 4, 4);
  }
}
