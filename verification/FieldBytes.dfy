/** Field elements as 32 big-endian bytes: 52-bit limbs meet in the middle of two bytes. */
module FieldBytes {
  import opened Arith
  import opened Bytes
  import opened Field52

  const TWO4: nat := 0x10

  function LowNibble(x: byte): (l: nat)
    ensures l < TWO4
  {
    x % TWO4
  }

  function HighNibble(x: byte): (h: nat)
    ensures x == LowNibble(x) + h * TWO4 && h < TWO4
  {
    x / TWO4
  }

  lemma SixBytes(s: seq<byte>, t: seq<byte>)
    requires |t| == 6
    ensures FromBytes(s + t) == FromBytes(s) * TWO48 + FromBytes(t) && FromBytes(t) < TWO48
  {
    Pow256Six();
    FromBytesJoin(s, t);
    FromBytesBound(t);
  }

  lemma Pow256Six()
    ensures Pow(256, 6) == TWO48
  {
    assert Pow(256, 1) == 256 * Pow(256, 0) && Pow(256, 2) == 256 * Pow(256, 1);
    PowAdd(256, 2, 2);
    PowAdd(256, 4, 2);
  }

  lemma OneByte(s: seq<byte>, x: byte)
    ensures FromBytes(s + [x]) == FromBytes(s) * 256 + x
  {
    assert (s + [x])[..|s|] == s;
  }

  /** The number in seven pieces: four limbs' worth of whole bytes and the two shared bytes. */
  lemma Pieces(a5: seq<byte>, a4: seq<byte>, y: byte, a3: seq<byte>, a2: seq<byte>, x: byte, a1: seq<byte>)
    requires |a5| == |a4| == |a3| == |a2| == |a1| == 6
    ensures FromBytes(a5 + a4 + [y] + a3 + a2 + [x] + a1)
         == FromBytes(a1) + x * TWO48 + FromBytes(a2) * TWO56 + FromBytes(a3) * TWO104
            + y * (TWO104 * TWO48) + FromBytes(a4) * (TWO104 * TWO56) + FromBytes(a5) * TWO208
    ensures FromBytes(a1) < TWO48 && FromBytes(a2) < TWO48 && FromBytes(a3) < TWO48 && FromBytes(a4) < TWO48
    ensures FromBytes(a5) < TWO48
  {
    hide FromBytes;
    EmptyBytes();
    SixBytes([], a5);
    assert [] + a5 == a5;
    var p4 := a5 + a4;
    var py := p4 + [y];
    var p3 := py + a3;
    var p2 := p3 + a2;
    var px := p2 + [x];
    SixBytes(a5, a4);
    OneByte(p4, y);
    SixBytes(py, a3);
    SixBytes(p3, a2);
    OneByte(p2, x);
    SixBytes(px, a1);
    PiecesSum(FromBytes(a5), FromBytes(p4), FromBytes(a4), FromBytes(py), y, FromBytes(p3), FromBytes(a3), FromBytes(p2), FromBytes(a2),
              FromBytes(px), x, FromBytes(px + a1), FromBytes(a1));
  }

  lemma PiecesSum(v5: int, v4: int, n4: int, vy: int, y: int, v3: int, n3: int, v2: int, n2: int, vx: int, x: int, v1: int, n1: int)
    requires v4 == v5 * TWO48 + n4 && vy == v4 * 256 + y && v3 == vy * TWO48 + n3 && v2 == v3 * TWO48 + n2
    requires vx == v2 * 256 + x && v1 == vx * TWO48 + n1
    ensures v1 == n1 + x * TWO48 + n2 * TWO56 + n3 * TWO104 + y * (TWO104 * TWO48) + n4 * (TWO104 * TWO56) + v5 * TWO208
  {
  }

  lemma EmptyBytes()
    ensures FromBytes([]) == 0
  {
  }

  /** secp256k1_fe_set_b32: the flag tells whether the bytes denote a number below p. */
  method SetB32(a: seq<byte>) returns (r: Fe, below: bool)
    requires |a| == 32
    ensures r.Val() == FromBytes(a) && r.Magnitude(1)
    ensures (below <==> FromBytes(a) < P) && (below ==> r.Normalized())
  {
    hide FromBytes, LowNibble, HighNibble;
    var a5, a4, a3, a2, a1 := a[..6], a[6..12], a[13..19], a[19..25], a[26..];
    assert a == a5 + a4 + [a[12]] + a3 + a2 + [a[25]] + a1;
    Pieces(a5, a4, a[12], a3, a2, a[25], a1);
    r := Fe(FromBytes(a1) + LowNibble(a[25]) * TWO48, HighNibble(a[25]) + FromBytes(a2) * TWO4,
            FromBytes(a3) + LowNibble(a[12]) * TWO48, HighNibble(a[12]) + FromBytes(a4) * TWO4, FromBytes(a5));
    below := !AtLeastP(r);
    AtLeastPIs(r);
  }

  /** secp256k1_fe_get_b32. */
  function GetB32(a: Fe): (r: seq<byte>)
    requires a.Normalized()
    ensures |r| == 32
  {
    NibblesFit(a.n1, a.n0);
    NibblesFit(a.n3, a.n2);
    ToBytes(a.n4, 6) + ToBytes(a.n3 / TWO4, 6) + [a.n3 % TWO4 * TWO4 + a.n2 / TWO48]
    + ToBytes(a.n2 % TWO48, 6) + ToBytes(a.n1 / TWO4, 6) + [a.n1 % TWO4 * TWO4 + a.n0 / TWO48]
    + ToBytes(a.n0 % TWO48, 6)
  }

  lemma NibblesFit(upper: nat, lower: nat)
    requires lower < TWO52
    ensures 0 <= upper % TWO4 * TWO4 + lower / TWO48 < 256
  {
  }

  lemma GetB32Val(a: Fe)
    requires a.Normalized()
    ensures FromBytes(GetB32(a)) == a.Val()
  {
    hide FromBytes, ToBytes, Pow;
    Pow256Six();
    NibblesFit(a.n1, a.n0);
    NibblesFit(a.n3, a.n2);
    FromToBytes(a.n4, 6);
    FromToBytes(a.n3 / TWO4, 6);
    FromToBytes(a.n2 % TWO48, 6);
    FromToBytes(a.n1 / TWO4, 6);
    FromToBytes(a.n0 % TWO48, 6);
    Pieces(ToBytes(a.n4, 6), ToBytes(a.n3 / TWO4, 6), a.n3 % TWO4 * TWO4 + a.n2 / TWO48, ToBytes(a.n2 % TWO48, 6),
           ToBytes(a.n1 / TWO4, 6), a.n1 % TWO4 * TWO4 + a.n0 / TWO48, ToBytes(a.n0 % TWO48, 6));
    SumOfPieces(a.n4, a.n3 / TWO4, a.n3 % TWO4, a.n2 / TWO48, a.n2 % TWO48, a.n1 / TWO4, a.n1 % TWO4, a.n0 / TWO48, a.n0 % TWO48, a);
  }

  lemma SumOfPieces(n4: int, h3: int, l3: int, h2: int, l2: int, h1: int, l1: int, h0: int, l0: int, a: Fe)
    requires a.n4 == n4 && a.n3 == h3 * TWO4 + l3 && a.n2 == h2 * TWO48 + l2 && a.n1 == h1 * TWO4 + l1 && a.n0 == h0 * TWO48 + l0
    ensures l0 + (l1 * TWO4 + h0) * TWO48 + h1 * TWO56 + l2 * TWO104 + (l3 * TWO4 + h2) * (TWO104 * TWO48)
            + h3 * (TWO104 * TWO56) + n4 * TWO208 == a.Val()
  {
  }
}
