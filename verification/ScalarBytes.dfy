/** Scalars as 32 big-endian bytes. */
module ScalarBytes {
  import opened Arith
  import opened Bytes
  import opened MachineInts
  import opened Scalars

  /** Eight bytes for each limb, the highest limb first. */
  function GetB32(a: Scalar): (bin: seq<byte>)
    ensures |bin| == 32 && FromBytes(bin) == a.Val()
  {
    FourWords(ToBytes(a.d3, 8), ToBytes(a.d2, 8), ToBytes(a.d1, 8), ToBytes(a.d0, 8));
    PowersOf256();
    FromToBytes(a.d3, 8);
    FromToBytes(a.d2, 8);
    FromToBytes(a.d1, 8);
    FromToBytes(a.d0, 8);
    ToBytes(a.d3, 8) + ToBytes(a.d2, 8) + ToBytes(a.d1, 8) + ToBytes(a.d0, 8)
  }

  lemma FourWords(w3: seq<byte>, w2: seq<byte>, w1: seq<byte>, w0: seq<byte>)
    requires |w3| == |w2| == |w1| == |w0| == 8
    ensures FromBytes(w3 + w2 + w1 + w0)
         == FromBytes(w0) + FromBytes(w1) * TWO64 + FromBytes(w2) * TWO128 + FromBytes(w3) * TWO192
    ensures FromBytes(w3) < TWO64 && FromBytes(w2) < TWO64 && FromBytes(w1) < TWO64 && FromBytes(w0) < TWO64
  {
    hide FromBytes;
    JoinWord(w3, w2);
    JoinWord(w3 + w2, w1);
    JoinWord(w3 + w2 + w1, w0);
    JoinWord([], w3);
    assert [] + w3 == w3;
  }

  /** Eight more bytes. */
  lemma JoinWord(s: seq<byte>, w: seq<byte>)
    requires |w| == 8
    ensures FromBytes(s + w) == FromBytes(s) * TWO64 + FromBytes(w)
    ensures FromBytes(w) < TWO64
  {
    PowersOf256();
    FromBytesJoin(s, w);
    FromBytesBound(w);
  }

  /** Any 32 bytes, reduced modulo n; the flag tells whether that changed the number. */
  method SetB32(b32: seq<byte>) returns (r: Scalar, overflow: bool)
    requires |b32| == 32
    ensures r.Reduced() && r.Val() == FromBytes(b32) % N
    ensures overflow <==> FromBytes(b32) >= N
  {
    hide FromBytes;
    var w3, w2, w1, w0 := b32[..8], b32[8..16], b32[16..24], b32[24..32];
    assert b32 == w3 + w2 + w1 + w0;
    FourWords(w3, w2, w1, w0);
    r := Scalar(FromBytes(w0), FromBytes(w1), FromBytes(w2), FromBytes(w3));
    ghost var v := r.Val();
    assert v == FromBytes(b32);
    LimbsBelow(r);
    hide Scalar.Val, CheckOverflow;
    overflow := CheckOverflow(r);
    SubtractOrder(v, v, 0, if overflow then 1 else 0);
    r := Reduce(r, if overflow then 1 else 0);
  }
}
