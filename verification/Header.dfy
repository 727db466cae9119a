/** The packed 0x30-byte header at the start of the shared region (include/buffer.hpp:36-66). */
module Header {
  import opened Bytes
  import opened PciHandler

  const HEADER_SIZE := 0x30
  const BMC_FLAGS_OFFSET := 0x1d
  const BMC_READ_PTR_OFFSET := 0x21
  const BMC_READ_PTR_END := 0x24
  const BIOS_FLAGS_OFFSET := 0x28

  datatype CircularBufferHeader = CircularBufferHeader(
    bmcInterfaceVersion: bv32,
    biosInterfaceVersion: bv32,
    magicNumber: seq<byte>,
    queueSize: nat,
    ueRegionSize: nat,
    bmcFlags: bv32,
    bmcReadPtr: nat,
    reserved1: seq<byte>,
    biosFlags: bv32,
    biosWritePtr: nat,
    reserved2: byte)
  {
    /** Every field fits its packed width. */
    predicate Fits() {
      |magicNumber| == 16 && queueSize < 0x100_0000 && ueRegionSize < 0x1_0000 &&
      bmcReadPtr < 0x100_0000 && |reserved1| == 4 && biosWritePtr < 0x100_0000
    }
  }

  /** Bytes 0x0 to 0x17. */
  function EncodeIdentity(h: CircularBufferHeader): (s: seq<byte>)
    requires h.Fits()
    ensures |s| == 0x18
  {
    WordBytes(h.bmcInterfaceVersion) + WordBytes(h.biosInterfaceVersion) + h.magicNumber
  }

  /** Bytes 0x18 to 0x23. */
  function EncodeBmcFields(h: CircularBufferHeader): (s: seq<byte>)
    requires h.Fits()
    ensures |s| == 0xc
  {
    LeBytes(h.queueSize, 3) + LeBytes(h.ueRegionSize, 2) + WordBytes(h.bmcFlags) + LeBytes(h.bmcReadPtr, 3)
  }

  /** Bytes 0x24 to 0x2f. */
  function EncodeBiosFields(h: CircularBufferHeader): (s: seq<byte>)
    requires h.Fits()
    ensures |s| == 0xc
  {
    h.reserved1 + WordBytes(h.biosFlags) + LeBytes(h.biosWritePtr, 3) + [h.reserved2]
  }

  function Encode(h: CircularBufferHeader): (s: seq<byte>)
    requires h.Fits()
    ensures |s| == HEADER_SIZE
  {
    EncodeIdentity(h) + EncodeBmcFields(h) + EncodeBiosFields(h)
  }

  function Decode(s: seq<byte>): (h: CircularBufferHeader)
    requires |s| >= HEADER_SIZE
    ensures h.Fits()
  {
    Pow256Values();
    CircularBufferHeader(
      Word(s[..4]), Word(s[4..8]), s[8..0x18], LeNat(s[0x18..0x1b]), LeNat(s[0x1b..0x1d]),
      Word(s[0x1d..0x21]), LeNat(s[0x21..0x24]), s[0x24..0x28], Word(s[0x28..0x2c]),
      LeNat(s[0x2c..0x2f]), s[0x2f])
  }

  lemma Pow256Values()
    ensures Pow256(2) == 0x1_0000 && Pow256(3) == 0x100_0000 && Pow256(4) == 0x1_0000_0000
  {}

  /** A slice of a slice. */
  lemma Inside(s: seq<byte>, from: nat, to: nat, i: nat, j: nat)
    requires from <= to <= |s| && i <= j <= to - from
    ensures s[from..to][i..j] == s[from + i..from + j]
  {
    var a, b := s[from..to][i..j], s[from + i..from + j];
    assert forall k :: 0 <= k < j - i ==> a[k] == b[k];
  }

  lemma IdentityFields(h: CircularBufferHeader)
    requires h.Fits()
    ensures
      var s := EncodeIdentity(h);
      s[0..4] == WordBytes(h.bmcInterfaceVersion) && s[4..8] == WordBytes(h.biosInterfaceVersion) &&
      s[8..0x18] == h.magicNumber
  {
    hide WordBytes;
  }

  lemma BmcFields(h: CircularBufferHeader)
    requires h.Fits()
    ensures
      var s := EncodeBmcFields(h);
      s[0..3] == LeBytes(h.queueSize, 3) && s[3..5] == LeBytes(h.ueRegionSize, 2) &&
      s[5..9] == WordBytes(h.bmcFlags) && s[9..12] == LeBytes(h.bmcReadPtr, 3)
  {
    hide WordBytes, LeBytes;
  }

  lemma BiosFields(h: CircularBufferHeader)
    requires h.Fits()
    ensures
      var s := EncodeBiosFields(h);
      s[0..4] == h.reserved1 && s[4..8] == WordBytes(h.biosFlags) &&
      s[8..11] == LeBytes(h.biosWritePtr, 3) && s[11] == h.reserved2
  {
    hide WordBytes, LeBytes;
  }

  lemma EncodedParts(h: CircularBufferHeader, s: seq<byte>)
    requires h.Fits() && Encode(h) <= s
    ensures s[0..0x18] == EncodeIdentity(h) && s[0x18..0x24] == EncodeBmcFields(h)
    ensures s[0x24..0x30] == EncodeBiosFields(h)
  {
    hide EncodeIdentity, EncodeBmcFields, EncodeBiosFields;
    var e := Encode(h);
    assert e[0..0x18] == EncodeIdentity(h) && e[0x18..0x24] == EncodeBmcFields(h);
    assert e[0x24..0x30] == EncodeBiosFields(h);
    assert e == s[0..0x30];
    Inside(s, 0, 0x30, 0, 0x18);
    Inside(s, 0, 0x30, 0x18, 0x24);
    Inside(s, 0, 0x30, 0x24, 0x30);
  }

  lemma EncodedFields(h: CircularBufferHeader, s: seq<byte>)
    requires h.Fits() && Encode(h) <= s
    ensures s[..4] == WordBytes(h.bmcInterfaceVersion)
    ensures s[4..8] == WordBytes(h.biosInterfaceVersion)
    ensures s[8..0x18] == h.magicNumber
    ensures s[0x18..0x1b] == LeBytes(h.queueSize, 3)
    ensures s[0x1b..0x1d] == LeBytes(h.ueRegionSize, 2)
    ensures s[0x1d..0x21] == WordBytes(h.bmcFlags)
    ensures s[0x21..0x24] == LeBytes(h.bmcReadPtr, 3)
    ensures s[0x24..0x28] == h.reserved1
    ensures s[0x28..0x2c] == WordBytes(h.biosFlags)
    ensures s[0x2c..0x2f] == LeBytes(h.biosWritePtr, 3)
    ensures s[0x2f] == h.reserved2
  {
    hide Encode, EncodeIdentity, EncodeBmcFields, EncodeBiosFields, WordBytes, LeBytes;
    EncodedParts(h, s);
    IdentityFields(h);
    BmcFields(h);
    BiosFields(h);
    Inside(s, 0, 0x18, 0, 4);
    Inside(s, 0, 0x18, 4, 8);
    Inside(s, 0, 0x18, 8, 0x18);
    Inside(s, 0x18, 0x24, 0, 3);
    Inside(s, 0x18, 0x24, 3, 5);
    Inside(s, 0x18, 0x24, 5, 9);
    Inside(s, 0x18, 0x24, 9, 12);
    Inside(s, 0x24, 0x30, 0, 4);
    Inside(s, 0x24, 0x30, 4, 8);
    Inside(s, 0x24, 0x30, 8, 11);
    assert s[0x2f] == s[0x24..0x30][11];
  }

  /** The header's printer and parser undo each other. */
  lemma DecodeEncode(h: CircularBufferHeader, s: seq<byte>)
    requires h.Fits() && Encode(h) <= s
    ensures Decode(s) == h
  {
    hide Encode, Word, WordBytes, LeNat, LeBytes;
    EncodedFields(h, s);
    Pow256Values();
    WordOfWordBytes(h.bmcInterfaceVersion);
    WordOfWordBytes(h.biosInterfaceVersion);
    LeNatOfLeBytes(h.queueSize, 3);
    LeNatOfLeBytes(h.ueRegionSize, 2);
    WordOfWordBytes(h.bmcFlags);
    LeNatOfLeBytes(h.bmcReadPtr, 3);
    WordOfWordBytes(h.biosFlags);
    LeNatOfLeBytes(h.biosWritePtr, 3);
  }

  lemma EncodeDecode(s: seq<byte>)
    requires |s| == HEADER_SIZE
    ensures Encode(Decode(s)) == s
  {
    hide Decode, EncodeIdentity, EncodeBmcFields, EncodeBiosFields;
    ReprintIdentity(s);
    ReprintBmcFields(s);
    ReprintBiosFields(s);
  }

  lemma ReprintIdentity(s: seq<byte>)
    requires |s| == HEADER_SIZE
    ensures EncodeIdentity(Decode(s)) == s[..0x18]
  {
    hide Word, WordBytes, LeNat;
    WordBytesOfWord(s[..4]);
    WordBytesOfWord(s[4..8]);
    assert s[..0x18] == s[..4] + s[4..8] + s[8..0x18];
  }

  lemma ReprintBmcFields(s: seq<byte>)
    requires |s| == HEADER_SIZE
    ensures EncodeBmcFields(Decode(s)) == s[0x18..0x24]
  {
    hide Word, WordBytes, LeNat, LeBytes;
    LeBytesOfLeNat(s[0x18..0x1b]);
    LeBytesOfLeNat(s[0x1b..0x1d]);
    WordBytesOfWord(s[0x1d..0x21]);
    LeBytesOfLeNat(s[0x21..0x24]);
    assert s[0x18..0x24] == s[0x18..0x1b] + s[0x1b..0x1d] + s[0x1d..0x21] + s[0x21..0x24];
  }

  lemma ReprintBiosFields(s: seq<byte>)
    requires |s| == HEADER_SIZE
    ensures EncodeBiosFields(Decode(s)) == s[0x24..]
  {
    hide Word, WordBytes, LeNat, LeBytes;
    WordBytesOfWord(s[0x28..0x2c]);
    LeBytesOfLeNat(s[0x2c..0x2f]);
    assert s[0x24..] == s[0x24..0x28] + s[0x28..0x2c] + s[0x2c..0x2f] + [s[0x2f]];
  }

  /** Storing the BMC's flags in the region changes that header field and no other. */
  lemma DecodeWithFlags(mem: seq<byte>, flags: bv32)
    requires |mem| >= HEADER_SIZE
    ensures Decode(Replace(mem, BMC_FLAGS_OFFSET, WordBytes(flags))) == Decode(mem).(bmcFlags := flags)
  {
    var m := Replace(mem, BMC_FLAGS_OFFSET, WordBytes(flags));
    SameOutside(mem, BMC_FLAGS_OFFSET, WordBytes(flags));
    assert m[0x1d..0x21] == WordBytes(flags);
    WordOfWordBytes(flags);
  }

  /** Storing a read pointer below 2^24 changes that header field and no other. */
  lemma DecodeWithReadPtr(mem: seq<byte>, ptr: nat)
    requires |mem| >= HEADER_SIZE && ptr < 0x100_0000
    ensures Decode(Replace(mem, BMC_READ_PTR_OFFSET, LeBytes(ptr, 3))) == Decode(mem).(bmcReadPtr := ptr)
  {
    var m := Replace(mem, BMC_READ_PTR_OFFSET, LeBytes(ptr, 3));
    SameOutside(mem, BMC_READ_PTR_OFFSET, LeBytes(ptr, 3));
    assert m[0x21..0x24] == LeBytes(ptr, 3);
    Pow256Values();
    LeNatOfLeBytes(ptr, 3);
  }

  lemma DecodePrefix(s: seq<byte>)
    requires |s| >= HEADER_SIZE
    ensures Decode(s[..HEADER_SIZE]) == Decode(s)
  {
    hide Word, LeNat;
    var t := s[..HEADER_SIZE];
    assert t[..4] == s[..4] && t[4..8] == s[4..8] && t[8..0x18] == s[8..0x18];
    assert t[0x18..0x1b] == s[0x18..0x1b] && t[0x1b..0x1d] == s[0x1b..0x1d] && t[0x1d..0x21] == s[0x1d..0x21];
    assert t[0x21..0x24] == s[0x21..0x24] && t[0x24..0x28] == s[0x24..0x28];
    assert t[0x28..0x2c] == s[0x28..0x2c] && t[0x2c..0x2f] == s[0x2c..0x2f];
  }

  lemma SameOutside(mem: seq<byte>, offset: nat, bytes: seq<byte>)
    requires offset + |bytes| <= |mem|
    ensures forall i, j {:trigger Replace(mem, offset, bytes)[i..j]} ::
              0 <= i <= j <= offset || offset + |bytes| <= i <= j <= |mem| ==>
              Replace(mem, offset, bytes)[i..j] == mem[i..j]
  {
    var m := Replace(mem, offset, bytes);
    assert forall k :: 0 <= k < offset || offset + |bytes| <= k < |mem| ==> m[k] == mem[k];
    forall i, j | 0 <= i <= j <= offset || offset + |bytes| <= i <= j <= |mem|
      ensures m[i..j] == mem[i..j]
    {
      var s, t := m[i..j], mem[i..j];
      assert forall k :: 0 <= k < j - i ==> s[k] == m[i + k] && t[k] == mem[i + k];
    }
  }
}
