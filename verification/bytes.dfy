/** Fixed-width integers and byte strings: the big-endian reading that
    `from_be_bytes` performs, its inverse, the byte swap that `from_be`
    performs on a little-endian host, two's complement, and the
    bits-to-bytes rounding used for SDO buffers. */
module Bytes {

  type byte = x: int | 0 <= x < 0x100
  type u8 = byte
  type u16 = x: int | 0 <= x < 0x1_0000
  type u32 = x: int | 0 <= x < 0x1_0000_0000
  type u64 = x: int | 0 <= x < 0x1_0000_0000_0000_0000
  type i8 = x: int | -0x80 <= x < 0x80
  type i16 = x: int | -0x8000 <= x < 0x8000
  type i32 = x: int | -0x8000_0000 <= x < 0x8000_0000
  type i64 = x: int | -0x8000_0000_0000_0000 <= x < 0x8000_0000_0000_0000

  /** 256^n, the number of values an n-byte unsigned integer can take. */
  function Pow256(n: nat): (r: nat)
    ensures r > 0
  {
    if n == 0 then 1 else 256 * Pow256(n - 1)
  }

  /** Unsigned reading of a byte string with the first byte most significant. */
  function BeValue(s: seq<byte>): (r: nat)
    ensures r < Pow256(|s|)
  {
    if |s| == 0 then 0
    else
      var hi := BeValue(s[..|s| - 1]);
      assert hi * 256 <= (Pow256(|s| - 1) - 1) * 256;
      hi * 256 + s[|s| - 1]
  }

  /** The n-byte big-endian representation of x modulo 256^n. */
  function BeBytes(x: nat, n: nat): (r: seq<byte>)
    ensures |r| == n
  {
    if n == 0 then [] else BeBytes(x / 256, n - 1) + [x % 256]
  }

  function Reverse<T>(s: seq<T>): (r: seq<T>)
    ensures |r| == |s|
    ensures forall i :: 0 <= i < |s| ==> r[i] == s[|s| - 1 - i]
  {
    if |s| == 0 then [] else [s[|s| - 1]] + Reverse(s[..|s| - 1])
  }

  /** Unsigned reading of a byte string with the first byte least significant. */
  function LeValue(s: seq<byte>): nat
  {
    BeValue(Reverse(s))
  }

  /** `uN::from_be(x)` on a little-endian host: the n bytes of x in memory
      (least significant first) read back as a big-endian number. */
  function FromBe(x: nat, n: nat): (r: nat)
    ensures r < Pow256(n)
  {
    BeValue(Reverse(BeBytes(x, n)))
  }

  /** Decoding what was encoded gives the number back. */
  lemma {:induction false} BeValueOfBeBytes(x: nat, n: nat)
    requires x < Pow256(n)
    ensures BeValue(BeBytes(x, n)) == x
  {
    if n > 0 {
      var s := BeBytes(x, n);
      assert s[..n - 1] == BeBytes(x / 256, n - 1);
      BeValueOfBeBytes(x / 256, n - 1);
    }
  }

  /** Encoding what was decoded gives the bytes back: the big-endian
      reading loses nothing. */
  lemma {:induction false} BeBytesOfBeValue(s: seq<byte>)
    ensures BeBytes(BeValue(s), |s|) == s
  {
    if |s| > 0 {
      var n := |s|;
      var v := BeValue(s);
      assert v / 256 == BeValue(s[..n - 1]);
      assert v % 256 == s[n - 1];
      BeBytesOfBeValue(s[..n - 1]);
      assert s == s[..n - 1] + [s[n - 1]];
    }
  }

  /** On a little-endian host, `from_be` applied to the big-endian reading
      of some bytes is the little-endian reading of the same bytes. */
  lemma FromBeOfBeValue(s: seq<byte>)
    ensures FromBe(BeValue(s), |s|) == LeValue(s)
  {
    BeBytesOfBeValue(s);
  }

  /** `from_be` swaps the byte order: the n bytes of its result are the n
      bytes of its argument in reverse. */
  lemma FromBeSwapsBytes(x: nat, n: nat)
    ensures BeBytes(FromBe(x, n), n) == Reverse(BeBytes(x, n))
  {
    BeBytesOfBeValue(Reverse(BeBytes(x, n)));
  }

  /** Half the range of an n-byte integer: the signed n-byte values are
      exactly those in [-Half(n), Half(n)). */
  function Half(n: nat): (r: int)
    requires 0 < n
    ensures r > 0 && 2 * r == Pow256(n)
  {
    128 * Pow256(n - 1)
  }

  /** Two's complement reading of an n-byte unsigned value. */
  function ToSigned(u: nat, n: nat): (r: int)
    requires 0 < n && u < Pow256(n)
    ensures -Half(n) <= r < Half(n)
  {
    if u < Half(n) then u else u - Pow256(n)
  }

  /** Two's complement encoding of a signed value into n bytes. */
  function ToUnsigned(v: int, n: nat): (r: nat)
    requires 0 < n && -Half(n) <= v < Half(n)
    ensures r < Pow256(n)
  {
    if v >= 0 then v else v + Pow256(n)
  }

  /** Reading a two's complement encoding gives back the signed value. */
  lemma ToSignedOfToUnsigned(v: int, n: nat)
    requires 0 < n && -Half(n) <= v < Half(n)
    ensures ToSigned(ToUnsigned(v, n), n) == v
  {
  }

  /** Encoding a two's complement reading gives back the unsigned value. */
  lemma ToUnsignedOfToSigned(u: nat, n: nat)
    requires 0 < n && u < Pow256(n)
    ensures ToUnsigned(ToSigned(u, n), n) == u
  {
  }

  /** Number of whole bytes needed to hold a given number of bits
      (`len / 8`, plus one when `len % 8 != 0`). */
  function ByteCount(bitLen: nat): (r: nat)
    ensures r * 8 >= bitLen
    ensures r == 0 || (r - 1) * 8 < bitLen
  {
    if bitLen % 8 == 0 then bitLen / 8 else bitLen / 8 + 1
  }
}
