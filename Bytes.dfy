/**
  Fixed-width unsigned integers and their little-endian byte images, as the
  capture helper stores them into its shared-memory header.
 */
module Bytes {

  type byte = x: int | 0 <= x < 0x100
  type u32 = x: int | 0 <= x < 0x1_0000_0000
  type u64 = x: int | 0 <= x < 0x1_0000_0000_0000_0000

  function Pow256(n: nat): (r: nat)
    ensures r >= 1
  {
    if n == 0 then 1 else 256 * Pow256(n - 1)
  }

  /** The n-byte little-endian image of x: least significant byte first. */
  function EncodeLE(x: nat, n: nat): (r: seq<byte>)
    requires x < Pow256(n)
    ensures |r| == n
  {
    if n == 0 then [] else [x % 256] + EncodeLE(x / 256, n - 1)
  }

  /** A multiple of a strictly between -a and a is zero. */
  lemma SmallMultiple(k: int, a: int)
    requires a > 0 && -a < k * a < a
    ensures k == 0
  {
  }

  /** Division is unique: a quotient and remainder in range are x / a and x % a. */
  lemma DivUnique(x: nat, a: nat, q: nat, t: nat)
    requires a > 0 && x == q * a + t && t < a
    ensures x / a == q && x % a == t
  {
    var q' := x / a;
    var t' := x % a;
    assert x == q' * a + t';
    assert (q' - q) * a == q' * a - q * a;
    assert (q' - q) * a == t - t';
    SmallMultiple(q' - q, a);
  }

  /** Dividing by 256 and then by b is dividing by 256 * b. */
  lemma DivDiv256(x: nat, b: nat)
    requires b > 0
    ensures x / 256 / b == x / (256 * b)
  {
    var q := x / (256 * b);
    var t := x % (256 * b);
    var u := t / 256;
    assert x == q * (256 * b) + t && t < 256 * b;
    assert t == u * 256 + t % 256;
    assert x == (q * b + u) * 256 + t % 256;
    DivUnique(x, 256, q * b + u, t % 256);
    assert u < b;
    DivUnique(x / 256, b, q, u);
  }

  /** Byte i of the image is digit i of x in base 256. */
  lemma {:induction false} EncodeLEDigit(x: nat, n: nat, i: nat)
    requires x < Pow256(n) && i < n
    ensures EncodeLE(x, n)[i] == x / Pow256(i) % 256
  {
    if i > 0 {
      EncodeLEDigit(x / 256, n - 1, i - 1);
      DivDiv256(x, Pow256(i - 1));
    }
  }

  /** The number whose little-endian image is s. */
  function DecodeLE(s: seq<byte>): (r: nat)
    ensures r < Pow256(|s|)
  {
    if s == [] then 0
    else
      var rest := DecodeLE(s[1..]);
      assert s[0] + 256 * rest <= 255 + 256 * (Pow256(|s| - 1) - 1);
      s[0] + 256 * rest
  }

  /** Decoding the image of x gives back x. */
  lemma {:induction false} DecodeEncodeLE(x: nat, n: nat)
    requires x < Pow256(n)
    ensures DecodeLE(EncodeLE(x, n)) == x
  {
    if n > 0 {
      var e := EncodeLE(x, n);
      DecodeEncodeLE(x / 256, n - 1);
      assert e[1..] == EncodeLE(x / 256, n - 1);
    }
  }

  /** Every byte string is the image of the number it decodes to. */
  lemma {:induction false} EncodeDecodeLE(s: seq<byte>)
    ensures EncodeLE(DecodeLE(s), |s|) == s
  {
    if s != [] {
      var rest := DecodeLE(s[1..]);
      EncodeDecodeLE(s[1..]);
      assert (s[0] + 256 * rest) % 256 == s[0];
      assert (s[0] + 256 * rest) / 256 == rest;
      assert s == [s[0]] + s[1..];
    }
  }

  lemma Pow256Values()
    ensures Pow256(4) == 0x1_0000_0000
    ensures Pow256(8) == 0x1_0000_0000_0000_0000
  {
    assert Pow256(2) == 0x1_0000;
    assert Pow256(4) == 0x1_0000 * 0x1_0000;
    assert Pow256(8) == Pow256(4) * Pow256(4) by {
      assert Pow256(8) == 256 * 256 * 256 * 256 * Pow256(4);
    }
  }

  function EncodeU32(x: u32): (r: seq<byte>)
    ensures |r| == 4
  {
    Pow256Values();
    EncodeLE(x, 4)
  }

  function EncodeU64(x: u64): (r: seq<byte>)
    ensures |r| == 8
  {
    Pow256Values();
    EncodeLE(x, 8)
  }

  function DecodeU32(s: seq<byte>): (r: u32)
    requires |s| == 4
  {
    Pow256Values();
    DecodeLE(s)
  }

  function DecodeU64(s: seq<byte>): (r: u64)
    requires |s| == 8
  {
    Pow256Values();
    DecodeLE(s)
  }

  lemma U32RoundTrip(x: u32)
    ensures DecodeU32(EncodeU32(x)) == x
  {
    Pow256Values();
    DecodeEncodeLE(x, 4);
  }

  lemma U64RoundTrip(x: u64)
    ensures DecodeU64(EncodeU64(x)) == x
  {
    Pow256Values();
    DecodeEncodeLE(x, 8);
  }

  lemma U32BytesRoundTrip(s: seq<byte>)
    requires |s| == 4
    ensures EncodeU32(DecodeU32(s)) == s
  {
    Pow256Values();
    EncodeDecodeLE(s);
  }

  lemma U64BytesRoundTrip(s: seq<byte>)
    requires |s| == 8
    ensures EncodeU64(DecodeU64(s)) == s
  {
    Pow256Values();
    EncodeDecodeLE(s);
  }
}
