/** Bytes, little-endian integers and bit strings. */
module Bytes {
  type byte = bv8

  function Pow256(k: nat): (p: nat)
    ensures p > 0
  {
    if k == 0 then 1 else 256 * Pow256(k - 1)
  }

  /** Unsigned value of a little-endian byte string (the boost little_uintN_t types). */
  function LeNat(s: seq<byte>): (n: nat)
    ensures n < Pow256(|s|)
  {
    if s == [] then 0 else s[0] as nat + 256 * LeNat(s[1..])
  }

  /** The low k bytes of n, least significant byte first. */
  function LeBytes(n: nat, k: nat): (s: seq<byte>)
    ensures |s| == k
  {
    if k == 0 then [] else [(n % 256) as byte] + LeBytes(n / 256, k - 1)
  }

  lemma ByteStep(b: byte)
    requires b as nat < 255
    ensures (b + 1) as nat == b as nat + 1
  {}

  lemma NatRoundTrip(b: byte)
    ensures (b as nat) as byte == b
  {}

  lemma {:induction false} ByteWithValue(k: nat) returns (b: byte)
    requires k < 256
    ensures b as nat == k
  {
    if k == 0 {
      b := 0;
    } else {
      b := ByteWithValue(k - 1);
      ByteStep(b);
      b := b + 1;
    }
  }

  lemma ByteRoundTrip(k: nat)
    requires k < 256
    ensures (k as byte) as nat == k
  {
    var b := ByteWithValue(k);
    NatRoundTrip(b);
  }

  lemma LowDigit(n: nat, low: byte, rest: nat)
    requires n == low as nat + 256 * rest
    ensures n / 256 == rest && (n % 256) as byte == low
  {
    NatRoundTrip(low);
    assert n % 256 == low as nat;
  }

  lemma {:induction false} LeNatOfLeBytes(n: nat, k: nat)
    requires n < Pow256(k)
    ensures LeNat(LeBytes(n, k)) == n
  {
    if k > 0 {
      LeNatOfLeBytes(n / 256, k - 1);
      ByteRoundTrip(n % 256);
    }
  }

  lemma LowByte(low: byte, rest: nat, k: nat)
    ensures LeBytes(low as nat + 256 * rest, k + 1) == [low] + LeBytes(rest, k)
  {
    LowDigit(low as nat + 256 * rest, low, rest);
  }

  lemma {:induction false} LeBytesOfLeNat(s: seq<byte>)
    ensures LeBytes(LeNat(s), |s|) == s
  {
    if s != [] {
      var rest := s[1..];
      LeBytesOfLeNat(rest);
      LowByte(s[0], LeNat(rest), |rest|);
      assert s == [s[0]] + rest;
    }
  }

  /** A 32-bit little-endian field used for its bits (flags, versions, magic numbers, checksums). */
  function Word(s: seq<byte>): bv32
    requires |s| == 4
  {
    (s[0] as bv32) | ((s[1] as bv32) << 8) | ((s[2] as bv32) << 16) | ((s[3] as bv32) << 24)
  }

  function WordBytes(w: bv32): (s: seq<byte>)
    ensures |s| == 4
  {
    [(w & 0xff) as byte, ((w >> 8) & 0xff) as byte, ((w >> 16) & 0xff) as byte, (w >> 24) as byte]
  }

  lemma WordOfWordBytes(w: bv32)
    ensures Word(WordBytes(w)) == w
  {}

  lemma WordBytesOfWord(s: seq<byte>)
    requires |s| == 4
    ensures WordBytes(Word(s)) == s
  {}

  /** XOR of all bytes: the accumulate calls that compute an entry's checksum. */
  function XorAll(s: seq<byte>): byte {
    if s == [] then 0 else XorAll(s[..|s| - 1]) ^ s[|s| - 1]
  }

  lemma {:induction false} XorAllConcat(s: seq<byte>, t: seq<byte>)
    ensures XorAll(s + t) == XorAll(s) ^ XorAll(t)
  {
    if t == [] {
      assert s + t == s;
    } else {
      assert (s + t)[..|s + t| - 1] == s + t[..|t| - 1];
      XorAllConcat(s, t[..|t| - 1]);
    }
  }
}
