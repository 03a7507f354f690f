/**
 * Little-endian integer encodings of byte strings: the meaning the `struct`
 * module gives to its integer format codes under a little-endian byte order.
 */
module Bytes {

  type Byte = b: int | 0 <= b < 256

  /** 256^n, the number of distinct n-byte strings. */
  function Pow256(n: nat): (r: nat)
    ensures r >= 1
  {
    if n == 0 then 1 else 256 * Pow256(n - 1)
  }

  /** n zero bytes. */
  function Zeros(n: nat): (z: seq<Byte>)
    ensures |z| == n
    ensures forall i :: 0 <= i < n ==> z[i] == 0
  {
    if n == 0 then [] else Zeros(n - 1) + [0]
  }

  /** Unsigned value of `s`, least significant byte first. */
  function UnsignedLE(s: seq<Byte>): (u: nat)
    ensures u < Pow256(|s|)
  {
    if s == [] then 0 else s[0] + 256 * UnsignedLE(s[1..])
  }

  /** Two's-complement value of a non-empty `s`, least significant byte first. */
  function SignedLE(s: seq<Byte>): (v: int)
    requires |s| > 0
    ensures -128 * Pow256(|s| - 1) <= v < 128 * Pow256(|s| - 1)
  {
    var u := UnsignedLE(s);
    if u < 128 * Pow256(|s| - 1) then u else u - Pow256(|s|)
  }

  /** The n-byte little-endian encoding of `x`. */
  function ToLE(x: nat, n: nat): (s: seq<Byte>)
    requires x < Pow256(n)
    ensures |s| == n
    ensures UnsignedLE(s) == x
  {
    if n == 0 then []
    else
      assert x / 256 < Pow256(n - 1);
      [x % 256] + ToLE(x / 256, n - 1)
  }

  /** The n-byte two's-complement encoding of `x`. */
  function ToSignedLE(x: int, n: nat): (s: seq<Byte>)
    requires n > 0
    requires -128 * Pow256(n - 1) <= x < 128 * Pow256(n - 1)
    ensures |s| == n
    ensures SignedLE(s) == x
  {
    ToLE(if x >= 0 then x else x + Pow256(n), n)
  }

  /** Every byte string is the encoding of its own value. */
  lemma {:induction false} ToLEOfUnsigned(s: seq<Byte>)
    ensures ToLE(UnsignedLE(s), |s|) == s
  {
    if s != [] {
      var hi := UnsignedLE(s[1..]);
      DivMod256(s[0], hi);
      ToLEOfUnsigned(s[1..]);
    }
  }

  lemma DivMod256(lo: Byte, hi: nat)
    ensures (lo + 256 * hi) % 256 == lo
    ensures (lo + 256 * hi) / 256 == hi
  {
  }

  /** Every non-empty byte string is the two's-complement encoding of its signed value. */
  lemma SignedLERoundTrip(s: seq<Byte>)
    requires |s| > 0
    ensures ToSignedLE(SignedLE(s), |s|) == s
  {
    ToLEOfUnsigned(s);
  }

  /** Appending zero bytes on the high-order side does not change the unsigned value. */
  lemma {:induction false} UnsignedLEZeroPadded(s: seq<Byte>, n: nat)
    ensures UnsignedLE(s + Zeros(n)) == UnsignedLE(s)
  {
    if s == [] {
      assert s + Zeros(n) == Zeros(n);
      ZerosValue(n);
    } else {
      assert (s + Zeros(n))[1..] == s[1..] + Zeros(n);
      UnsignedLEZeroPadded(s[1..], n);
    }
  }

  /** A run of zero bytes is worth zero. */
  lemma {:induction false} ZerosValue(n: nat)
    ensures UnsignedLE(Zeros(n)) == 0
  {
    if n > 0 {
      assert Zeros(n)[1..] == Zeros(n - 1);
      ZerosValue(n - 1);
    }
  }
}
