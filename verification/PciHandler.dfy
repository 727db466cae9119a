/** The memory-mapped region shared with the BIOS (src/pci_handler.cpp). */
module PciHandler {
  import opened Bytes
  import opened Arithmetic

  const UINT16_SPAN := 0x1_0000
  const UINT32_SPAN := 0x1_0000_0000

  /** What a read of length bytes at offset returns: clipped at the end of the region. */
  function ReadAt(mem: seq<byte>, offset: nat, length: nat): (s: seq<byte>) {
    if offset > |mem| then []
    else if offset + length < |mem| then mem[offset..offset + length]
    else mem[offset..]
  }

  /** How many bytes a write stores: clipped at the end of the region, then narrowed to 16 bits. */
  function WriteCount(regionSize: nat, offset: nat, length: nat): (n: nat)
    ensures offset <= regionSize ==> offset + n <= regionSize
    ensures n <= length
    ensures offset + length <= regionSize && length < UINT16_SPAN ==> n == length
  {
    if offset > regionSize then 0
    else (if offset + length < regionSize then length else regionSize - offset) % UINT16_SPAN
  }

  /** The region after bytes have replaced what was at offset. */
  function Replace(mem: seq<byte>, offset: nat, bytes: seq<byte>): (m: seq<byte>)
    requires offset + |bytes| <= |mem|
    ensures |m| == |mem|
  {
    mem[..offset] + bytes + mem[offset + |bytes|..]
  }

  /** Exactly what a read returns, also where it runs past the end of the region. */
  lemma ReadBytes(mem: seq<byte>, offset: nat, length: nat)
    ensures
      var s := ReadAt(mem, offset, length);
      (offset >= |mem| ==> s == []) &&
      (offset < |mem| ==> |s| == if length < |mem| - offset then length else |mem| - offset) &&
      forall i :: 0 <= i < |s| ==> s[i] == mem[offset + i]
  {}

  /** Exactly how many bytes a write stores, also where they run past the end of the region. */
  lemma WriteCounts(regionSize: nat, offset: nat, length: nat)
    requires length < UINT16_SPAN
    ensures WriteCount(regionSize, offset, length) ==
            if offset >= regionSize then 0
            else if length < regionSize - offset then length
            else regionSize - offset
  {
    if offset <= regionSize && offset + length >= regionSize {
      ModSmall(regionSize - offset, UINT16_SPAN);
    }
  }

  /** What a write stored is what a read of the same range returns; other ranges are as before. */
  lemma ReadBack(mem: seq<byte>, offset: nat, bytes: seq<byte>, from: nat, length: nat)
    requires offset + |bytes| <= |mem| && from + length <= |mem|
    ensures ReadAt(Replace(mem, offset, bytes), offset, |bytes|) == bytes
    ensures from + length <= offset || offset + |bytes| <= from ==>
              ReadAt(Replace(mem, offset, bytes), from, length) == ReadAt(mem, from, length)
  {
    var m := Replace(mem, offset, bytes);
    assert m[offset..offset + |bytes|] == bytes;
    if from + length <= offset || offset + |bytes| <= from {
      assert m[from..from + length] == mem[from..from + length];
      if from + length == |mem| {
        assert m[from..] == m[from..from + length] && mem[from..] == mem[from..from + length];
      }
    }
    if offset + |bytes| == |mem| {
      assert m[offset..] == m[offset..offset + |bytes|];
    }
  }

  lemma ReplaceOneMore(mem: seq<byte>, offset: nat, bytes: seq<byte>, i: nat)
    requires i < |bytes| && offset + i < |mem|
    ensures Replace(mem, offset, bytes[..i])[offset + i := bytes[i]] == Replace(mem, offset, bytes[..i + 1])
  {}

  class PciDataHandler {
    const mem: array<byte>

    constructor (regionSize: nat)
      requires regionSize < UINT32_SPAN
      ensures mem.Length == regionSize && fresh(mem)
    {
      mem := new byte[regionSize];
    }

    function RegionSize(): (n: nat) {
      mem.Length
    }

    /**
     The sum of offset and length wraps at 32 bits.  The source's own loop stays inside the region
     exactly if that does not make a read past the end look like one that fits.
     */
    method Read(offset: nat, length: nat) returns (results: seq<byte>)
      requires offset < UINT32_SPAN && length < UINT32_SPAN
      requires offset > mem.Length || length == 0 || offset + length < UINT32_SPAN ||
               (offset + length) % UINT32_SPAN >= mem.Length
      ensures results == ReadAt(mem[..], offset, length)
    {
      if offset > mem.Length || length == 0 {
        return [];
      }
      var finalLength := if (offset + length) % UINT32_SPAN < mem.Length then length else mem.Length - offset;
      if offset + length < UINT32_SPAN {
        ModSmall(offset + length, UINT32_SPAN);
      }
      var buffer := new byte[finalLength];
      for i := 0 to finalLength
        invariant buffer[..i] == mem[offset..offset + i]
      {
        buffer[i] := mem[offset + i];
        assert mem[offset..offset + i + 1] == mem[offset..offset + i] + [mem[offset + i]];
      }
      assert buffer[..] == buffer[..finalLength];
      assert mem[..][offset..offset + finalLength] == mem[offset..offset + finalLength];
      return buffer[..];
    }

    method Write(offset: nat, bytes: seq<byte>) returns (written: nat)
      modifies mem
      ensures written == WriteCount(mem.Length, offset, |bytes|)
      ensures mem[..] == if offset > mem.Length then old(mem[..])
                         else Replace(old(mem[..]), offset, bytes[..written])
    {
      if offset > mem.Length || |bytes| == 0 {
        return 0;
      }
      var finalLength := (if offset + |bytes| < mem.Length then |bytes| else mem.Length - offset) % UINT16_SPAN;
      ghost var was := mem[..];
      for i := 0 to finalLength
        invariant mem[..] == Replace(was, offset, bytes[..i])
      {
        mem[offset + i] := bytes[i];
        ReplaceOneMore(was, offset, bytes, i);
      }
      return finalLength;
    }
  }
}
