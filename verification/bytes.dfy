/** Bytes of a module buffer and the little-endian integer encoding used for every
    multi-byte field of the format. The C code reads fields through native-endian
    pointer casts; the model fixes the byte order to little-endian. */
module Bytes {

  type byte = x: int | 0 <= x < 0x100

  /** 256 to the power n: the number of distinct values an n-byte field holds. */
  function Pow256(n: nat): (p: nat)
    ensures p >= 1
  {
    if n == 0 then 1 else 256 * Pow256(n - 1)
  }

  lemma Pow256Values()
    ensures Pow256(1) == 0x100
    ensures Pow256(4) == 0x1_0000_0000
    ensures Pow256(8) == 0x1_0000_0000_0000_0000
  {
    assert Pow256(1) == 256 * Pow256(0);
    assert Pow256(2) == 256 * Pow256(1);
    assert Pow256(3) == 256 * Pow256(2);
    assert Pow256(4) == 256 * Pow256(3);
    assert Pow256(5) == 256 * Pow256(4);
    assert Pow256(6) == 256 * Pow256(5);
    assert Pow256(7) == 256 * Pow256(6);
    assert Pow256(8) == 256 * Pow256(7);
  }

  /** The unsigned value of a little-endian byte string; it always fits the string's width. */
  function DecodeLE(bs: seq<byte>): (v: nat)
    ensures v < Pow256(|bs|)
  {
    if |bs| == 0 then 0
    else
      var rest := DecodeLE(bs[1..]);
      assert rest <= Pow256(|bs| - 1) - 1;
      assert 256 * rest <= 256 * Pow256(|bs| - 1) - 256;
      bs[0] + 256 * rest
  }

  /** The n-byte little-endian encoding of a value that fits in n bytes. */
  function EncodeLE(v: nat, n: nat): (bs: seq<byte>)
    requires v < Pow256(n)
    ensures |bs| == n
  {
    if n == 0 then []
    else [v % 256] + EncodeLE(v / 256, n - 1)
  }

  /** Decoding an encoding gives back the value. */
  lemma {:induction false} DecodeEncode(v: nat, n: nat)
    requires v < Pow256(n)
    ensures DecodeLE(EncodeLE(v, n)) == v
  {
    if n > 0 {
      var bs := EncodeLE(v, n);
      assert bs[1..] == EncodeLE(v / 256, n - 1);
      DecodeEncode(v / 256, n - 1);
    }
  }

  /** Encoding the decoded value of a byte string gives back the same bytes. */
  lemma {:induction false} EncodeDecode(bs: seq<byte>)
    ensures EncodeLE(DecodeLE(bs), |bs|) == bs
  {
    if |bs| > 0 {
      var v := DecodeLE(bs);
      assert v % 256 == bs[0];
      assert v / 256 == DecodeLE(bs[1..]);
      EncodeDecode(bs[1..]);
    }
  }

  /** The value of a four-byte field, digit by digit. */
  lemma DecodeLE4(bs: seq<byte>)
    requires |bs| == 4
    ensures DecodeLE(bs) == bs[0] as int + 0x100 * bs[1] as int + 0x1_0000 * bs[2] as int + 0x100_0000 * bs[3] as int
  {
    assert bs[1..][1..] == bs[2..];
    assert bs[2..][1..] == bs[3..];
    assert bs[3..][1..] == [];
    assert DecodeLE(bs[3..]) == bs[3] as int;
    assert DecodeLE(bs[2..]) == bs[2] as int + 0x100 * bs[3] as int;
    assert DecodeLE(bs[1..]) == bs[1] as int + 0x100 * bs[2] as int + 0x1_0000 * bs[3] as int;
  }

  /** All-zero bytes decode to zero. */
  lemma DecodeZeros(bs: seq<byte>)
    requires forall i :: 0 <= i < |bs| ==> bs[i] == 0
    ensures DecodeLE(bs) == 0
  {
  }

  /** Equal values have equal encodings, so decoding is injective on strings of one width. */
  lemma DecodeInjective(a: seq<byte>, b: seq<byte>)
    requires |a| == |b|
    requires DecodeLE(a) == DecodeLE(b)
    ensures a == b
  {
    EncodeDecode(a);
    EncodeDecode(b);
  }
}
