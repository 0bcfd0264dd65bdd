/** Little-endian integers as read by .NET's BinaryReader: the decompressed-size
    field of every LZMA segment header is a signed 64-bit little-endian value. */
module LittleEndian {

  /** An octet of the installer file. */
  newtype byte = b: int | 0 <= b < 256

  /** 256^k, the number of distinct values of k bytes. */
  function Pow256(k: nat): (r: nat)
    ensures r >= 1
  {
    if k == 0 then 1 else 256 * Pow256(k - 1)
  }

  const TwoTo63: int := 0x8000_0000_0000_0000
  const TwoTo64: int := 0x1_0000_0000_0000_0000

  /** The unsigned value of a little-endian byte string (first byte least significant). */
  function Unsigned(b: seq<byte>): (r: nat)
    ensures r < Pow256(|b|)
  {
    if |b| == 0 then 0 else b[0] as nat + 256 * Unsigned(b[1..])
  }

  /** The k little-endian bytes of n. */
  function Encode(n: nat, k: nat): (r: seq<byte>)
    requires n < Pow256(k)
    ensures |r| == k
  {
    if k == 0 then [] else [(n % 256) as byte] + Encode(n / 256, k - 1)
  }

  lemma {:induction false} UnsignedOfEncode(n: nat, k: nat)
    requires n < Pow256(k)
    ensures Unsigned(Encode(n, k)) == n
  {
    if k > 0 {
      var q := n / 256;
      assert n == 256 * q + n % 256;
      assert q < Pow256(k - 1);
      UnsignedOfEncode(q, k - 1);
      var e := Encode(n, k);
      assert e[1..] == Encode(q, k - 1);
      assert e[0] as nat == n % 256;
    }
  }

  lemma {:induction false} EncodeOfUnsigned(b: seq<byte>)
    ensures Encode(Unsigned(b), |b|) == b
  {
    if |b| > 0 {
      var n := Unsigned(b);
      var rest := Unsigned(b[1..]);
      assert n == b[0] as nat + 256 * rest;
      assert n % 256 == b[0] as nat;
      assert n / 256 == rest;
      EncodeOfUnsigned(b[1..]);
      assert ((n % 256) as byte) == b[0];
      assert [b[0]] + b[1..] == b;
    }
  }

  lemma ScaleAssociates(p: nat, h: nat)
    ensures 256 * (p * h) == (256 * p) * h
  {
  }

  /** ReadInt64: eight bytes, little-endian, two's complement. */
  function Int64(b: seq<byte>): (r: int)
    requires |b| == 8
    ensures -TwoTo63 <= r < TwoTo63
    ensures r >= 0 <==> b[7] < 0x80
  {
    var u := Unsigned(b);
    assert Pow256(8) == TwoTo64;
    UnsignedTopByte(b);
    if u < TwoTo63 then u else u - TwoTo64
  }

  /** The sign of a 64-bit value is the top bit of its last byte. */
  lemma UnsignedTopByte(b: seq<byte>)
    requires |b| == 8
    ensures Unsigned(b) < TwoTo63 <==> b[7] < 0x80
  {
    var tail := b[1..];
    var t2 := tail[1..];
    var t3 := t2[1..];
    var t4 := t3[1..];
    var t5 := t4[1..];
    var t6 := t5[1..];
    var t7 := t6[1..];
    assert t7 == [b[7]];
    assert Unsigned(t7) == b[7] as nat;
    assert Pow256(7) == 0x1_0000_0000_0000_00;
    assert Unsigned(b) == Unsigned(b[..7]) + Pow256(7) * b[7] as nat by {
      UnsignedSplit(b, 7);
    }
  }

  /** Splitting a little-endian string: the high part is scaled by 256^|low|. */
  lemma {:induction false} UnsignedSplit(b: seq<byte>, k: nat)
    requires k <= |b|
    ensures Unsigned(b) == Unsigned(b[..k]) + Pow256(k) * Unsigned(b[k..])
  {
    if k == 0 {
      assert b[..0] == [] && b[0..] == b;
    } else {
      var lo, hi := Unsigned(b[1..][..k - 1]), Unsigned(b[k..]);
      var p := Pow256(k - 1);
      var ph := p * hi;
      UnsignedSplit(b[1..], k - 1);
      assert b[1..][..k - 1] == b[..k][1..];
      assert b[1..][k - 1..] == b[k..];
      assert Unsigned(b[1..]) == lo + ph;
      assert Unsigned(b[..k]) == b[0] as nat + 256 * lo;
      assert Unsigned(b) == b[0] as nat + 256 * lo + 256 * ph;
      ScaleAssociates(p, hi);
      assert 256 * ph == Pow256(k) * hi;
    }
  }

  /** The eight bytes BinaryWriter.Write(long) produces for x. */
  function EncodeInt64(x: int): (r: seq<byte>)
    requires -TwoTo63 <= x < TwoTo63
    ensures |r| == 8
  {
    assert Pow256(8) == TwoTo64;
    Encode(if x < 0 then x + TwoTo64 else x, 8)
  }

  lemma Int64OfEncode(x: int)
    requires -TwoTo63 <= x < TwoTo63
    ensures Int64(EncodeInt64(x)) == x
  {
    assert Pow256(8) == TwoTo64;
    UnsignedOfEncode(if x < 0 then x + TwoTo64 else x, 8);
  }

  lemma EncodeOfInt64(b: seq<byte>)
    requires |b| == 8
    ensures EncodeInt64(Int64(b)) == b
  {
    assert Pow256(8) == TwoTo64;
    EncodeOfUnsigned(b);
  }
}
