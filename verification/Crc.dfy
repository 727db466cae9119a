/**
 The CRC-32 of IEEE Std 802.3 clause 3.2.9.

 A register is the 32 bits of the source's uint32_t, least significant first.  Read as a
 polynomial over GF(2), bit i is the coefficient of x^(31-i): the reflected convention of the
 divisor 0xedb88320.
 */
module Crc {
  import opened Bytes
  import opened Bits
  import opened Arithmetic
  import Gf2

  /** x^e with e < 32 occurs in the clause 3.2.9 generator. */
  predicate IsGeneratorExponent(e: int) {
    e == 26 || e == 23 || e == 22 || e == 16 || e == 12 || e == 11 || e == 10 ||
    e == 8 || e == 7 || e == 5 || e == 4 || e == 2 || e == 1 || e == 0
  }

  /** The source's reflected divisor, and the initial register and final mask. */
  const DIVISOR: nat := 0xedb88320
  const ALL_ONES: nat := 0xffffffff

  function Poly(): (p: Bits)
    ensures |p| == 32
  {
    BitsOf(DIVISOR, 32)
  }

  /** Register after a byte string. */
  function Register(r: Bits, stream: seq<byte>): (s: Bits)
    requires |r| == 32
    ensures |s| == 32
  {
    Gf2.Shift(Poly(), r, StreamBits(stream))
  }

  /** Final complement of a register, as the integer that is transmitted. */
  function Checksum(r: Bits): (c: nat)
    requires |r| == 32
  {
    Value(Add(r, Ones(32)))
  }

  /** The checksum of a whole message. */
  function Crc32(message: seq<byte>): (c: nat) {
    Checksum(Register(Ones(32), message))
  }

  lemma {:induction false} SplitByte(x: nat, n: nat)
    requires n >= 8
    ensures BitsOf(x, n)[..8] == BitsOf(x % 256, 8) && BitsOf(x, n)[8..] == BitsOf(x / 256, n - 8)
  {
    Pow2Values();
    BitsOfMod(x, 8);
    BitsOfPrefix(x, n, 8);
    BitsOfDrop(x, n, 8);
  }

  lemma {:induction false} BitsOfDrop(x: nat, n: nat, k: nat)
    requires k <= n
    ensures BitsOf(x, n)[k..] == BitsOf(x / Pow2(k), n - k)
    decreases k
  {
    if k > 0 {
      DivDiv(x, Pow2(k - 1));
      BitsOfDrop(x / 2, n - 1, k - 1);
    }
  }

  lemma {:induction false} BitInByte(x: nat, n: nat, i: nat, b: nat, rest: nat)
    requires 8 <= n && i < n && b < 256 && x == b + 256 * rest
    ensures BitsOf(x, n)[i] == if i < 8 then BitsOf(b, 8)[i] else BitsOf(rest, n - 8)[i - 8]
  {
    var s, low, high := BitsOf(x, n), BitsOf(b, 8), BitsOf(rest, n - 8);
    assert s[..8] == low && s[8..] == high by {
      assert x % 256 == b && x / 256 == rest;
      SplitByte(x, n);
    }
    assert s == low + high;
  }

  lemma CoefficientsFrom31(i: nat)
    requires i < 8
    ensures BitsOf(0x20, 8)[i] <==> IsGeneratorExponent(31 - i)
  {}

  lemma CoefficientsFrom23(i: nat)
    requires i < 8
    ensures BitsOf(0x83, 8)[i] <==> IsGeneratorExponent(23 - i)
  {}

  lemma CoefficientsFrom15(i: nat)
    requires i < 8
    ensures BitsOf(0xb8, 8)[i] <==> IsGeneratorExponent(15 - i)
  {}

  lemma CoefficientsFrom7(i: nat)
    requires i < 8
    ensures BitsOf(0xed, 8)[i] <==> IsGeneratorExponent(7 - i)
  {}

  /** The divisor is the clause 3.2.9 generator: bit i is set exactly when x^(31-i) occurs in it. */
  lemma DivisorIsGenerator(i: nat)
    requires i < 32
    ensures Poly()[i] <==> IsGeneratorExponent(31 - i)
  {
    hide BitsOf;
    var b0, b1, b2, b3, r1, r2 := 0x20, 0x83, 0xb8, 0xed, 0xedb883, 0xedb8;
    BitInByte(DIVISOR, 32, i, b0, r1);
    if i < 8 {
      CoefficientsFrom31(i);
    } else {
      BitInByte(r1, 24, i - 8, b1, r2);
      if i < 16 {
        CoefficientsFrom23(i - 8);
      } else {
        BitInByte(r2, 16, i - 16, b2, b3);
        if i < 24 {
          CoefficientsFrom15(i - 16);
        } else {
          CoefficientsFrom7(i - 24);
        }
      }
    }
  }

  lemma RegisterConcat(r: Bits, s: seq<byte>, t: seq<byte>)
    requires |r| == 32
    ensures Register(r, s + t) == Register(Register(r, s), t)
  {
    StreamBitsConcat(s, t);
    Gf2.ShiftConcat(Poly(), r, StreamBits(s), StreamBits(t));
  }

  lemma RegisterByte(r: Bits, s: seq<byte>, b: byte)
    requires |r| == 32
    ensures Register(r, s + [b]) == Gf2.Shift(Poly(), Register(r, s), ByteBits(b))
  {
    RegisterConcat(r, s, [b]);
    assert StreamBits([b]) == ByteBits(b) + [] == ByteBits(b);
  }

  lemma ChecksumInjective(a: Bits, b: Bits)
    requires |a| == |b| == 32
    ensures Checksum(a) == Checksum(b) <==> a == b
  {
    if Checksum(a) == Checksum(b) {
      var x, y := Add(a, Ones(32)), Add(b, Ones(32));
      BitsOfValue(x);
      BitsOfValue(y);
      forall i | 0 <= i < 32 ensures a[i] == b[i] {
        assert x[i] == y[i];
      }
    }
  }

  /**
   Clause 3.2.9: complement the first 32 bits of the message, append 32 zero bits, divide by the
   generator, complement the remainder.  The checksum is that value, and nothing else is.
   */
  lemma ChecksumIsComplementedRemainder(message: seq<byte>, r: Bits)
    ensures Gf2.IsRemainder(Poly(), Gf2.Augmented(Ones(32), StreamBits(message)), r)
       <==> |r| == 32 && Checksum(r) == Crc32(message)
  {
    Gf2.RegisterIsTheRemainder(Poly(), Ones(32), StreamBits(message), r);
    if |r| == 32 {
      ChecksumInjective(r, Register(Ones(32), message));
    }
  }

  /** Equal-length messages that differ only inside four consecutive bytes have different checksums. */
  lemma BurstDetected(prefix: seq<byte>, u: seq<byte>, v: seq<byte>, suffix: seq<byte>)
    requires |u| == |v| <= 4
    ensures Crc32(prefix + u + suffix) == Crc32(prefix + v + suffix) <==> u == v
  {
    ThreePartBits(prefix, u, suffix);
    ThreePartBits(prefix, v, suffix);
    DivisorIsGenerator(31);
    Gf2.BurstChangesRegister(Poly(), Ones(32), StreamBits(prefix), StreamBits(u), StreamBits(v), StreamBits(suffix));
    ChecksumInjective(Register(Ones(32), prefix + u + suffix), Register(Ones(32), prefix + v + suffix));
    if StreamBits(u) == StreamBits(v) {
      StreamBitsInjective(u, v);
    }
  }

  lemma ThreePartBits(s: seq<byte>, t: seq<byte>, u: seq<byte>)
    ensures StreamBits(s + t + u) == StreamBits(s) + StreamBits(t) + StreamBits(u)
  {
    StreamBitsConcat(s + t, u);
    StreamBitsConcat(s, t);
  }

  // ----- the table-driven form -----

  /** What calcCrcTable stores for a byte value: eight shifts of the register holding it. */
  function TableWord(i: nat): (w: nat) {
    Value(Gf2.Steps(Poly(), BitsOf(i, 32), 8))
  }

  /** A register whose low k bits are clear only moves down for k shifts. */
  lemma {:induction false} ShiftOut(h: Bits, k: nat)
    requires k + |h| == 32
    ensures Gf2.Steps(Poly(), Zeros(k) + h, k) == h + Zeros(k)
    decreases k
  {
    if k > 0 {
      var s := Zeros(k) + h;
      assert Gf2.Step(Poly(), s) == s[1..] + [false] == Zeros(k - 1) + (h + [false]);
      ShiftOut(h + [false], k - 1);
      assert (h + [false]) + Zeros(k - 1) == h + Zeros(k);
    } else {
      assert Zeros(0) + h == h == h + Zeros(0);
    }
  }

  /** Eight shifts: look the low byte up, move the other three down. */
  lemma TableStep(r: Bits)
    requires |r| == 32
    ensures Gf2.Steps(Poly(), r, 8) ==
            Add(Gf2.Steps(Poly(), r[..8] + Zeros(24), 8), r[8..] + Zeros(8))
  {
    hide Gf2.Steps, BitsOf;
    var low, high := r[..8] + Zeros(24), Zeros(8) + r[8..];
    assert r == Add(low, high);
    Gf2.StepsLinear(Poly(), low, high, 8);
    ShiftOut(r[8..], 8);
  }

  lemma {:induction false} BitsOfPad(x: nat, k: nat, n: nat)
    requires x < Pow2(k)
    ensures BitsOf(x, k + n) == BitsOf(x, k) + Zeros(n)
    decreases k + n
  {
    if k > 0 {
      BitsOfPad(x / 2, k - 1, n);
    } else if n > 0 {
      BitsOfPad(0, 0, n - 1);
    }
  }

  /** One byte through the table equals eight bits through the serial register. */
  lemma TableByte(crc: nat, b: byte)
    requires crc < Pow2(32)
    ensures
      var next := Xor(TableWord(Xor(crc, b as nat, 32) % 256), crc / 256, 32);
      BitsOf(next, 32) == Gf2.Shift(Poly(), BitsOf(crc, 32), ByteBits(b))
  {
    hide BitsOf, Value, Xor, Gf2.Steps, Gf2.Shift, Pow2;
    Pow2Values();
    var r, x := BitsOf(crc, 32), Xor(crc, b as nat, 32);
    var s, word := BitsOf(x, 32), ByteBits(b) + Zeros(24);
    assert s == Add(r, word) by {
      BitsOfPad(b as nat, 8, 24);
      BitsOfXor(crc, b as nat, 32);
    }
    Gf2.ShiftWord(Poly(), r, ByteBits(b));
    TableStep(s);
    assert BitsOf(TableWord(x % 256), 32) == Gf2.Steps(Poly(), s[..8] + Zeros(24), 8) by {
      LowByte(x);
      BitsOfValue(Gf2.Steps(Poly(), s[..8] + Zeros(24), 8));
    }
    assert BitsOf(crc / 256, 32) == s[8..] + Zeros(8) by {
      BitsOfDiv(crc, 32, 8);
      assert r[8..] == s[8..];
    }
    BitsOfXor(TableWord(x % 256), crc / 256, 32);
  }

  lemma LowByte(x: nat)
    ensures BitsOf(x % 256, 32) == BitsOf(x, 32)[..8] + Zeros(24)
  {
    Pow2Values();
    BitsOfMod(x, 8);
    BitsOfPrefix(x, 32, 8);
    BitsOfPad(x % 256, 8, 24);
  }

  /** Shifting an integer register: the two arms of calcCrcTable's conditional. */
  lemma IntegerStep(x: nat)
    requires x < Pow2(32)
    ensures
      var next := if x % 2 == 1 then Xor(x / 2, DIVISOR, 32) else x / 2;
      next < Pow2(32) && BitsOf(next, 32) == Gf2.Step(Poly(), BitsOf(x, 32))
  {
    BitsOfHalf(x, 32);
    BitsOfXor(x / 2, DIVISOR, 32);
  }
}
