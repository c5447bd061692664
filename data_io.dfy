/** The big-endian two's-complement encodings of java.io.DataOutput (writeByte,
    writeShort, writeInt, writeLong) and their java.io.DataInput inverses. */
module DataIO {
  import opened Common

  function Pow256(n: nat): (r: int)
    ensures r >= 1
  {
    if n == 0 then 1 else 256 * Pow256(n - 1)
  }

  const TWO16: nat := 0x1_0000
  const TWO32: nat := 0x1_0000_0000
  const TWO64: nat := 0x1_0000_0000_0000_0000

  lemma Pow256Widths()
    ensures Pow256(2) == TWO16 && Pow256(4) == TWO32 && Pow256(8) == TWO64
  {
    assert Pow256(1) == 256;
    assert Pow256(2) == 256 * 256;
    assert Pow256(3) == 256 * 256 * 256;
    assert Pow256(4) == 256 * 256 * 256 * 256;
    assert Pow256(5) == 256 * Pow256(4);
    assert Pow256(6) == 256 * Pow256(5);
    assert Pow256(7) == 256 * Pow256(6);
  }

  /** The n low-order bytes of x, most significant first. */
  function ToBE(x: nat, n: nat): (r: seq<byte>)
    ensures |r| == n
  {
    if n == 0 then [] else ToBE(x / 256, n - 1) + [x % 256]
  }

  /** The unsigned value of a big-endian byte string. */
  function FromBE(s: seq<byte>): nat
  {
    if |s| == 0 then 0 else FromBE(s[..|s| - 1]) * 256 + s[|s| - 1]
  }

  lemma {:induction false} FromBEBound(s: seq<byte>)
    ensures FromBE(s) < Pow256(|s|)
  {
    if |s| > 0 {
      FromBEBound(s[..|s| - 1]);
    }
  }

  /** Reading back n bytes written for x gives x, for every x that fits in n bytes. */
  lemma {:induction false} FromToBE(x: nat, n: nat)
    requires x < Pow256(n)
    ensures FromBE(ToBE(x, n)) == x
  {
    if n > 0 {
      var s := ToBE(x, n);
      assert s[..|s| - 1] == ToBE(x / 256, n - 1);
      FromToBE(x / 256, n - 1);
    }
  }

  /** Two's-complement of v in n bytes. */
  function EncodeSigned(v: int, n: nat): (r: seq<byte>)
    requires -Pow256(n) / 2 <= v < Pow256(n) / 2
    ensures |r| == n
  {
    ToBE(if v < 0 then v + Pow256(n) else v, n)
  }

  function DecodeSigned(s: seq<byte>): int
  {
    var u := FromBE(s);
    if 2 * u >= Pow256(|s|) then u - Pow256(|s|) else u
  }

  lemma DecodeSignedRange(s: seq<byte>)
    ensures |s| >= 1 ==> -Pow256(|s|) / 2 <= DecodeSigned(s) < Pow256(|s|) / 2
  {
    FromBEBound(s);
    if |s| >= 1 {
      assert Pow256(|s|) == 256 * Pow256(|s| - 1);
    }
  }

  lemma SignedRoundTrip(v: int, n: nat)
    requires n >= 1
    requires -Pow256(n) / 2 <= v < Pow256(n) / 2
    ensures DecodeSigned(EncodeSigned(v, n)) == v
  {
    var p := Pow256(n);
    assert p == 256 * Pow256(n - 1);
    var half := 128 * Pow256(n - 1);
    assert p / 2 == half && p == 2 * half;
    var u := if v < 0 then v + p else v;
    FromToBE(u, n);
    var s := EncodeSigned(v, n);
    assert s == ToBE(u, n) && |s| == n;
    assert FromBE(s) == u;
    if v < 0 {
      assert 2 * u >= p;
    } else {
      assert 2 * u < p;
    }
  }

  /** DataOutput.writeShort / writeInt / writeLong. */
  function EncodeShort(v: i16): (r: seq<byte>)
    ensures |r| == 2
  {
    Pow256Widths();
    EncodeSigned(v, 2)
  }

  function EncodeInt(v: i32): (r: seq<byte>)
    ensures |r| == 4
  {
    Pow256Widths();
    EncodeSigned(v, 4)
  }

  function EncodeLong(v: i64): (r: seq<byte>)
    ensures |r| == 8
  {
    Pow256Widths();
    EncodeSigned(v, 8)
  }

  /** DataInput.readShort / readInt / readLong over exactly the bytes they consume. */
  function DecodeShort(s: seq<byte>): (r: i16)
    requires |s| == 2
  {
    Pow256Widths();
    DecodeSignedRange(s);
    DecodeSigned(s)
  }

  function DecodeInt(s: seq<byte>): (r: i32)
    requires |s| == 4
  {
    Pow256Widths();
    DecodeSignedRange(s);
    DecodeSigned(s)
  }

  function DecodeLong(s: seq<byte>): (r: i64)
    requires |s| == 8
  {
    Pow256Widths();
    DecodeSignedRange(s);
    DecodeSigned(s)
  }

  lemma ShortRoundTrip(v: i16)
    ensures DecodeShort(EncodeShort(v)) == v
  {
    Pow256Widths();
    SignedRoundTrip(v, 2);
  }

  lemma IntRoundTrip(v: i32)
    ensures DecodeInt(EncodeInt(v)) == v
  {
    Pow256Widths();
    SignedRoundTrip(v, 4);
  }

  lemma LongRoundTrip(v: i64)
    ensures DecodeLong(EncodeLong(v)) == v
  {
    Pow256Widths();
    SignedRoundTrip(v, 8);
  }
}
