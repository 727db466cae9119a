/** Machine words as bit strings, least significant bit first, with GF(2) addition. */
module Bits {
  import opened Bytes
  import opened Arithmetic

  type Bits = seq<bool>

  function Zeros(n: nat): (z: Bits)
    ensures |z| == n
  {
    seq(n, _ => false)
  }

  function Ones(n: nat): (z: Bits)
    ensures |z| == n
  {
    seq(n, _ => true)
  }

  function Add(a: Bits, b: Bits): (c: Bits)
    requires |a| == |b|
    ensures |c| == |a|
    ensures forall i :: 0 <= i < |a| ==> c[i] == (a[i] != b[i])
  {
    seq(|a|, i requires 0 <= i < |a| => a[i] != b[i])
  }

  function Pow2(n: nat): (p: nat)
    ensures p > 0
  {
    if n == 0 then 1 else 2 * Pow2(n - 1)
  }

  /** The low n bits of x. */
  function BitsOf(x: nat, n: nat): (s: Bits)
    ensures |s| == n
  {
    if n == 0 then [] else [x % 2 == 1] + BitsOf(x / 2, n - 1)
  }

  function Value(s: Bits): (x: nat)
    ensures x < Pow2(|s|)
  {
    if s == [] then 0 else (if s[0] then 1 else 0) + 2 * Value(s[1..])
  }

  /** The C++ operator ^ on n-bit unsigned integers. */
  function Xor(a: nat, b: nat, n: nat): (c: nat)
    ensures c < Pow2(n)
  {
    Value(Add(BitsOf(a, n), BitsOf(b, n)))
  }

  function ByteBits(b: byte): (s: Bits)
    ensures |s| == 8
  {
    BitsOf(b as nat, 8)
  }

  /** The bits of a byte string in transmission order: bytes in order, low bit of each first. */
  function StreamBits(s: seq<byte>): (r: Bits)
    ensures |r| == 8 * |s|
  {
    if s == [] then [] else ByteBits(s[0]) + StreamBits(s[1..])
  }

  lemma {:induction false} ValueOfBitsOf(x: nat, n: nat)
    requires x < Pow2(n)
    ensures Value(BitsOf(x, n)) == x
  {
    if n > 0 {
      ValueOfBitsOf(x / 2, n - 1);
    }
  }

  lemma {:induction false} BitsOfValue(s: Bits)
    ensures BitsOf(Value(s), |s|) == s
  {
    if s != [] {
      BitsOfValue(s[1..]);
    }
  }

  lemma {:induction false} BitsOfHalf(x: nat, n: nat)
    requires x < Pow2(n) && n > 0
    ensures BitsOf(x / 2, n) == BitsOf(x, n)[1..] + [false]
  {
    if n > 1 {
      BitsOfHalf(x / 2, n - 1);
    }
  }

  lemma {:induction false} BitsOfDiv(x: nat, n: nat, k: nat)
    requires x < Pow2(n) && k <= n
    ensures x / Pow2(k) < Pow2(n)
    ensures BitsOf(x / Pow2(k), n) == BitsOf(x, n)[k..] + Zeros(k)
    decreases k
  {
    if k > 0 {
      assert x / Pow2(k) == x / 2 / Pow2(k - 1) by {
        DivDiv(x, Pow2(k - 1));
      }
      BitsOfHalf(x, n);
      BitsOfDiv(x / 2, n, k - 1);
    }
  }

  lemma {:induction false} BitsOfMod(x: nat, n: nat)
    ensures BitsOf(x % Pow2(n), n) == BitsOf(x, n)
  {
    if n > 0 {
      var p := Pow2(n - 1);
      assert (x % (2 * p)) % 2 == x % 2 && (x % (2 * p)) / 2 == (x / 2) % p by {
        ModHalf(x, p);
      }
      BitsOfMod(x / 2, n - 1);
    }
  }

  lemma {:induction false} BitsOfPrefix(x: nat, n: nat, k: nat)
    requires k <= n
    ensures BitsOf(x, n)[..k] == BitsOf(x, k)
    decreases k
  {
    if k > 0 {
      BitsOfPrefix(x / 2, n - 1, k - 1);
    }
  }

  lemma Pow2Values()
    ensures Pow2(8) == 256 && Pow2(32) == 0x1_0000_0000
  {
    assert Pow2(4) == 16;
    assert Pow2(8) == 256;
    assert Pow2(12) == 0x1000;
    assert Pow2(16) == 0x1_0000;
    assert Pow2(20) == 0x10_0000;
    assert Pow2(24) == 0x100_0000;
    assert Pow2(28) == 0x1000_0000;
  }

  lemma {:induction false} BitsOfXor(a: nat, b: nat, n: nat)
    ensures BitsOf(Xor(a, b, n), n) == Add(BitsOf(a, n), BitsOf(b, n))
  {
    BitsOfValue(Add(BitsOf(a, n), BitsOf(b, n)));
  }

  lemma ByteBitsInjective(a: byte, b: byte)
    requires ByteBits(a) == ByteBits(b)
    ensures a == b
  {
    Pow2Values();
    ValueOfBitsOf(a as nat, 8);
    ValueOfBitsOf(b as nat, 8);
    NatRoundTrip(a);
    NatRoundTrip(b);
  }

  lemma {:induction false} StreamBitsConcat(s: seq<byte>, t: seq<byte>)
    ensures StreamBits(s + t) == StreamBits(s) + StreamBits(t)
  {
    if s == [] {
      assert s + t == t;
    } else {
      assert (s + t)[1..] == s[1..] + t;
      StreamBitsConcat(s[1..], t);
    }
  }

  lemma {:induction false} StreamBitsInjective(s: seq<byte>, t: seq<byte>)
    requires StreamBits(s) == StreamBits(t)
    ensures s == t
  {
    assert |s| == |t|;
    if s != [] {
      assert ByteBits(s[0]) == StreamBits(s)[..8] == StreamBits(t)[..8] == ByteBits(t[0]);
      assert StreamBits(s[1..]) == StreamBits(s)[8..] == StreamBits(t)[8..] == StreamBits(t[1..]);
      ByteBitsInjective(s[0], t[0]);
      StreamBitsInjective(s[1..], t[1..]);
    }
  }

  lemma {:induction false} ValueOfOnes(n: nat)
    ensures Value(Ones(n)) == Pow2(n) - 1
  {
    if n > 0 {
      assert Ones(n)[1..] == Ones(n - 1);
      ValueOfOnes(n - 1);
    }
  }

  lemma AllOnes()
    ensures 0xffffffff < Pow2(32) && BitsOf(0xffffffff, 32) == Ones(32)
  {
    Pow2Values();
    ValueOfOnes(32);
    BitsOfValue(Ones(32));
  }
}
