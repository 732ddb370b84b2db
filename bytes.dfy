/**
 * Bytes, fixed-width little-endian integers and C strings.
 *
 * The storage engine copies integers into page buffers with `memcpy`, which on
 * the little-endian targets the engine runs on writes the low byte first; the
 * signed `long`/`int` fields are stored in two's complement.  Character arrays
 * filled by `strcpy` hold a C string: the bytes up to the first NUL.
 */
module Bytes {

  type byte = b: int | 0 <= b < 256

  /** 256 to the power `n`: the number of values a field of `n` bytes holds. */
  function Pow256(n: nat): (r: nat)
    ensures r >= 1
    ensures n >= 1 ==> r >= 256
  {
    if n == 0 then 1 else 256 * Pow256(n - 1)
  }

  /** The low `w` bytes of `x`, low byte first. */
  function EncodeNat(x: nat, w: nat): (r: seq<byte>)
    ensures |r| == w
    ensures w >= 1 ==> r[0] == x % 256
  {
    if w == 0 then [] else [x % 256] + EncodeNat(x / 256, w - 1)
  }

  /** The unsigned value of a little-endian byte sequence. */
  function DecodeNat(b: seq<byte>): (r: nat)
    ensures r < Pow256(|b|)
  {
    if |b| == 0 then 0 else b[0] + 256 * DecodeNat(b[1..])
  }

  lemma {:induction false} DecodeEncodeNat(x: nat, w: nat)
    requires x < Pow256(w)
    ensures DecodeNat(EncodeNat(x, w)) == x
  {
    if w > 0 {
      var e := EncodeNat(x, w);
      assert e[1..] == EncodeNat(x / 256, w - 1);
      assert x / 256 < Pow256(w - 1);
      DecodeEncodeNat(x / 256, w - 1);
    }
  }

  lemma {:induction false} EncodeDecodeNat(b: seq<byte>)
    ensures EncodeNat(DecodeNat(b), |b|) == b
  {
    if |b| > 0 {
      var x := DecodeNat(b);
      assert x % 256 == b[0];
      assert x / 256 == DecodeNat(b[1..]);
      EncodeDecodeNat(b[1..]);
    }
  }

  /** `x` fits a signed two's-complement field of `w` bytes. */
  predicate InSigned(x: int, w: nat)
  {
    -(Pow256(w) / 2) <= x < Pow256(w) / 2
  }

  /** A signed value as it lies in memory: two's complement, low byte first. */
  function EncodeInt(x: int, w: nat): (r: seq<byte>)
    requires InSigned(x, w)
    ensures |r| == w
  {
    EncodeNat(if x >= 0 then x else x + Pow256(w), w)
  }

  /** Reads a two's-complement value back. */
  function DecodeInt(b: seq<byte>): (r: int)
    ensures |b| >= 1 ==> InSigned(r, |b|)
  {
    var u := DecodeNat(b);
    var p := Pow256(|b|);
    HalfPow(|b|);
    if u < p / 2 then u else u - p
  }

  /** A field of one byte or more holds an even number of values. */
  lemma HalfPow(n: nat)
    ensures n >= 1 ==> Pow256(n) == 2 * (Pow256(n) / 2)
  {
    if n >= 1 {
      var q := Pow256(n - 1);
      assert Pow256(n) == 256 * q;
      assert Pow256(n) / 2 == 128 * q;
    }
  }

  lemma DecodeEncodeInt(x: int, w: nat)
    requires InSigned(x, w)
    ensures DecodeInt(EncodeInt(x, w)) == x
  {
    DecodeEncodeNat(if x >= 0 then x else x + Pow256(w), w);
  }

  lemma EncodeDecodeInt(b: seq<byte>)
    requires |b| >= 1
    ensures EncodeInt(DecodeInt(b), |b|) == b
  {
    EncodeDecodeNat(b);
  }

  // The widths of the C++ types the engine copies.
  predicate IsI64(x: int) { InSigned(x, 8) }
  predicate IsI32(x: int) { InSigned(x, 4) }
  predicate IsU32(x: int) { 0 <= x < Pow256(4) }
  predicate IsU64(x: int) { 0 <= x < Pow256(8) }

  /** The C string held by a character buffer: the bytes before the first NUL. */
  function CString(s: seq<byte>): (r: seq<byte>)
    ensures |r| <= |s| && r == s[..|r|]
    ensures 0 !in r
    ensures |r| < |s| ==> s[|r|] == 0
  {
    if |s| == 0 || s[0] == 0 then [] else [s[0]] + CString(s[1..])
  }

  /**
   * `strcpy(dst, src)`: the C string of `src` and its terminating NUL are
   * written at the front of `dst`; the rest of `dst` keeps its old bytes.
   */
  function StrCpy(dst: seq<byte>, src: seq<byte>): (r: seq<byte>)
    requires |CString(src)| < |dst|
    ensures |r| == |dst|
    ensures CString(r) == CString(src)
    ensures r[|CString(src)| + 1..] == dst[|CString(src)| + 1..]
  {
    var c := CString(src);
    var r := c + [0] + dst[|c| + 1..];
    CStringOfTerminated(c, dst[|c| + 1..]);
    r
  }

  lemma {:induction false} CStringOfTerminated(c: seq<byte>, rest: seq<byte>)
    requires 0 !in c
    ensures CString(c + [0] + rest) == c
  {
    if |c| > 0 {
      assert (c + [0] + rest)[1..] == c[1..] + [0] + rest;
      CStringOfTerminated(c[1..], rest);
    }
  }

  /** `s.substr(0, n)`: at most the first `n` bytes. */
  function Prefix(s: seq<byte>, n: nat): (r: seq<byte>)
    ensures |r| <= n && |r| <= |s| && r == s[..|r|]
    ensures |s| >= n ==> |r| == n
    ensures |s| < n ==> r == s
  {
    if |s| <= n then s else s[..n]
  }

  /** Cutting a string and then reading it as a C string equals cutting its C string. */
  lemma {:induction false} CStringOfPrefix(s: seq<byte>, n: nat)
    ensures CString(Prefix(s, n)) == Prefix(CString(s), n)
  {
    if n > 0 && |s| > 0 && s[0] != 0 {
      assert Prefix(s, n)[1..] == Prefix(s[1..], n - 1);
      CStringOfPrefix(s[1..], n - 1);
    }
  }
}
