/**
 The BMC's side of the shared buffer (src/buffer.cpp).

 Layout of the region: header, reserved UE region, error-log queue.  The queue is the ring of
 module Ring; every method is specified by what it reads from the region and which header
 bytes it stores.
 */
module Buffer {
  import opened Bytes
  import opened Header
  import opened PciHandler
  import opened Wrappers
  import opened Arithmetic
  import Ring

  const UE_SWITCH: bv32 := 1
  const OVERFLOW: bv32 := 2
  const READY: bv32 := 4

  /** The build's QUEUE_REGION_SIZE and UE_REGION_SIZE. */
  datatype Config = Config(queueSize: nat, ueRegionSize: nat) {
    /** The queue holds at least one entry header, and sizes fit their C++ types. */
    predicate Valid() {
      HEADER_SIZE + ueRegionSize + Ring.ENTRY_HEADER_SIZE <= queueSize < UINT16_SPAN
    }

    function QueueOffset(): nat {
      HEADER_SIZE + ueRegionSize
    }

    function MaxOffset(): nat
      requires Valid()
    {
      queueSize - ueRegionSize - HEADER_SIZE
    }
  }

  /** The header announces the sizes of the build. */
  predicate SizesMatch(c: Config, h: CircularBufferHeader) {
    h.queueSize == c.queueSize && h.ueRegionSize == c.ueRegionSize
  }

  function Queue(c: Config, mem: seq<byte>): (q: seq<byte>)
    requires c.Valid() && |mem| >= c.queueSize
    ensures |q| == c.MaxOffset()
  {
    mem[c.QueueOffset()..c.queueSize]
  }

  function SetReadPtr(mem: seq<byte>, ptr: nat): (m: seq<byte>)
    requires |mem| >= HEADER_SIZE
    ensures |m| == |mem|
  {
    Replace(mem, BMC_READ_PTR_OFFSET, LeBytes(ptr, 3))
  }

  function SetFlags(mem: seq<byte>, flags: bv32): (m: seq<byte>)
    requires |mem| >= HEADER_SIZE
    ensures |m| == |mem|
  {
    Replace(mem, BMC_FLAGS_OFFSET, WordBytes(flags))
  }

  /** Everything but the BMC's flags and read pointer, bytes 0x1d to 0x23. */
  predicate SameOutsideBmcFields(m: seq<byte>, m': seq<byte>)
    requires |m| >= HEADER_SIZE && |m'| >= HEADER_SIZE
  {
    |m| == |m'| && m[..BMC_FLAGS_OFFSET] == m'[..BMC_FLAGS_OFFSET] && m[BMC_READ_PTR_END..] == m'[BMC_READ_PTR_END..]
  }

  function InitialHeader(
      bmcInterfaceVersion: bv32, queueSize: nat, ueRegionSize: nat, magicNumber: seq<byte>): CircularBufferHeader
  {
    CircularBufferHeader(
      bmcInterfaceVersion, 0, magicNumber, queueSize, ueRegionSize, 0, 0, [0, 0, 0, 0], 0, 0, 0)
  }

  /** The region after it was zeroed up to queueSize and then given header h. */
  function Initialized(mem: seq<byte>, h: CircularBufferHeader, queueSize: nat): (m: seq<byte>)
    requires HEADER_SIZE <= |mem| && queueSize <= |mem| && h.Fits()
    ensures |m| == |mem|
  {
    Replace(Replace(mem, 0, seq(queueSize, _ => 0)), 0, Encode(h))
  }

  lemma InitializedRegion(mem: seq<byte>, h: CircularBufferHeader, queueSize: nat)
    requires HEADER_SIZE <= queueSize <= |mem| && h.Fits()
    ensures Initialized(mem, h, queueSize) ==
            Encode(h) + seq(queueSize - HEADER_SIZE, _ => 0) + mem[queueSize..]
    ensures Decode(Initialized(mem, h, queueSize)) == h
  {
    DecodeEncode(h, Initialized(mem, h, queueSize));
  }

  /**
   The bytes that initialize leaves: version, magic number and sizes in their places, zeros elsewhere
   up to queueSize and in the rest of the header, and what was there behind.
   */
  ghost predicate InitialBytes(
      m: seq<byte>, was: seq<byte>, version: bv32, queueSize: nat, ueRegionSize: nat, magicNumber: seq<byte>)
    requires |was| >= 0x30
  {
    |m| == |was| && m[0..4] == WordBytes(version) && m[8..0x18] == magicNumber &&
    m[0x18..0x1b] == LeBytes(queueSize, 3) && m[0x1b..0x1d] == LeBytes(ueRegionSize, 2) &&
    (forall i :: 4 <= i < 8 || 0x1d <= i < 0x30 ==> m[i] == 0) &&
    (forall i :: 0x30 <= i < |m| ==> m[i] == if i < queueSize then 0 else was[i])
  }

  lemma ZeroFields()
    ensures WordBytes(0) == [0, 0, 0, 0] && LeBytes(0, 3) == [0, 0, 0]
  {
    assert LeBytes(0, 1) == [0] + LeBytes(0, 0) == [0];
    assert LeBytes(0, 2) == [0] + LeBytes(0, 1) == [0, 0];
  }

  lemma ZeroSlice(m: seq<byte>, from: nat, to: nat, zeros: seq<byte>)
    requires from <= to <= |m| && m[from..to] == zeros && forall i :: 0 <= i < |zeros| ==> zeros[i] == 0
    ensures forall i :: from <= i < to ==> m[i] == 0
  {
    assert forall i :: from <= i < to ==> m[i] == zeros[i - from];
  }

  lemma InitializedBytes(
      mem: seq<byte>, version: bv32, queueSize: nat, ueRegionSize: nat, magicNumber: seq<byte>)
    requires HEADER_SIZE <= |mem| && queueSize <= |mem| && |magicNumber| == 16
    requires queueSize < UINT16_SPAN && ueRegionSize < UINT16_SPAN
    ensures
      var m := Initialized(mem, InitialHeader(version, queueSize, ueRegionSize, magicNumber), queueSize);
      InitialBytes(m, mem, version, queueSize, ueRegionSize, magicNumber)
  {
    hide Encode, WordBytes, LeBytes;
    var h := InitialHeader(version, queueSize, ueRegionSize, magicNumber);
    var m := Initialized(mem, h, queueSize);
    assert Encode(h) <= m;
    EncodedFields(h, m);
    ZeroFields();
    assert m[0..4] == m[..4];
    ZeroSlice(m, 4, 8, [0, 0, 0, 0]);
    ZeroSlice(m, 0x1d, 0x21, [0, 0, 0, 0]);
    ZeroSlice(m, 0x21, 0x24, [0, 0, 0]);
    ZeroSlice(m, 0x24, 0x28, [0, 0, 0, 0]);
    ZeroSlice(m, 0x28, 0x2c, [0, 0, 0, 0]);
    ZeroSlice(m, 0x2c, 0x2f, [0, 0, 0]);
  }

  lemma InitializedTwice(mem: seq<byte>, h: CircularBufferHeader, queueSize: nat)
    requires HEADER_SIZE <= |mem| && queueSize <= |mem| && h.Fits()
    ensures Initialized(mem, h, queueSize) == Replace(Replace(mem, 0, seq(queueSize, _ => 0)), 0, Encode(h))
  {}

  lemma DecodeInitialized(mem: seq<byte>, h: CircularBufferHeader, queueSize: nat)
    requires HEADER_SIZE <= |mem| && queueSize <= |mem| && h.Fits()
    ensures Decode(Initialized(mem, h, queueSize)) == h
  {
    hide Encode, Decode;
    assert Encode(h) <= Initialized(mem, h, queueSize);
    DecodeEncode(h, Initialized(mem, h, queueSize));
  }

  /** readErrorLogs on a region whose header announces the sizes of the build. */
  function ReadLogs(c: Config, mem: seq<byte>): (d: Ring.Drained)
    requires c.Valid() && |mem| >= c.queueSize
  {
    var h := Decode(mem);
    Ring.ReadLogs(Queue(c, mem), h.bmcReadPtr, h.biosWritePtr)
  }

  predicate DifferIn(a: bv32, b: bv32, flag: bv32) {
    (a ^ b) & flag != 0
  }

  /** The two sides disagree on a flag. */
  predicate Differ(h: CircularBufferHeader, flag: bv32) {
    DifferIn(h.biosFlags, h.bmcFlags, flag)
  }

  /** Two words have the same bits under mask. */
  predicate AgreeOn(a: bv32, b: bv32, mask: bv32) {
    a & mask == b & mask
  }

  /** The bit of mask is set. */
  predicate Has(flags: bv32, mask: bv32) {
    flags & mask == mask
  }

  /** readUeLogFromReservedRegion: an unread UE log is the region after the header. */
  function UeLog(mem: seq<byte>): (r: Result<seq<byte>>)
    requires |mem| >= HEADER_SIZE
  {
    var h := Decode(mem);
    if h.ueRegionSize == 0 || !Differ(h, UE_SWITCH) then Success([])
    else if HEADER_SIZE + h.ueRegionSize <= |mem| then Success(mem[HEADER_SIZE..HEADER_SIZE + h.ueRegionSize])
    else Failure(ShortRead)
  }

  function Acknowledged(flags: bv32): bv32 { flags ^ OVERFLOW }

  /** BMC flags with the BIOS's overflow bit. */
  function AckedFlags(h: CircularBufferHeader): bv32 {
    if Differ(h, OVERFLOW) then Acknowledged(h.bmcFlags) else h.bmcFlags
  }

  function AcknowledgeOverflow(mem: seq<byte>): (m: seq<byte>)
    requires |mem| >= HEADER_SIZE
    ensures |m| == |mem|
  {
    var h := Decode(mem);
    if Differ(h, OVERFLOW) then SetFlags(mem, AckedFlags(h)) else mem
  }

  /** wraparoundRead, given the cached header: one or two reads of the region, which may fall short. */
  function WrapRead(c: Config, h: CircularBufferHeader, mem: seq<byte>, o: nat, n: nat): (r: Result<seq<byte>>)
    requires c.Valid()
    ensures r.Success? ==> SizesMatch(c, h) && o <= c.MaxOffset() && n == |r.value| <= c.MaxOffset()
  {
    var m := c.MaxOffset();
    if h.queueSize != c.queueSize then Failure(QueueSizeMismatch)
    else if h.ueRegionSize != c.ueRegionSize then Failure(UeRegionSizeMismatch)
    else if o > m then Failure(OffsetTooBig)
    else if n > m then Failure(LengthTooBig)
    else
      var wrapped := if n > m - o then n - (m - o) else 0;
      var first := ReadAt(mem, c.QueueOffset() + o, n - wrapped);
      var second := ReadAt(mem, c.QueueOffset(), wrapped);
      if |first| != n - wrapped || |second| != wrapped then Failure(ShortRead) else Success(first + second)
  }

  /** readEntry, given the cached header. */
  function EntryAt(c: Config, h: CircularBufferHeader, mem: seq<byte>, p: nat): (r: Ring.EntryRead)
    requires c.Valid()
    ensures p < 0x100_0000 ==> r.ptr < 0x100_0000
  {
    match WrapRead(c, h, mem, p, Ring.ENTRY_HEADER_SIZE)
    case Failure(e) => Ring.EntryRead(Failure(e), p)
    case Success(head) =>
      var entryHeader := Ring.DecodeHeader(head);
      var p' := Ring.Advance(c.MaxOffset(), p, Ring.ENTRY_HEADER_SIZE);
      match WrapRead(c, h, mem, p', entryHeader.entrySize)
      case Failure(e) => Ring.EntryRead(Failure(e), p')
      case Success(body) =>
        Ring.EntryRead(
          if XorAll(head) ^ XorAll(body) == 0 then Success(Ring.Entry(entryHeader, body)) else Failure(BadChecksum),
          Ring.Advance(c.MaxOffset(), p', entryHeader.entrySize))
  }

  function EntriesOf(c: Config, h: CircularBufferHeader, mem: seq<byte>): nat -> Ring.EntryRead
    requires c.Valid()
  {
    (p: nat) => EntryAt(c, h, mem, p)
  }

  /** readErrorLogs on a region of any size whose header announces the sizes of the build. */
  function RegionLogs(c: Config, mem: seq<byte>): (d: Ring.Drained)
    requires c.Valid() && |mem| >= HEADER_SIZE
  {
    var h := Decode(mem);
    Ring.ReadLogsWith(c.MaxOffset(), EntriesOf(c, h, mem), h.bmcReadPtr, h.biosWritePtr)
  }

  /** In a region that holds the queue no read falls short, and the ring's functions say it all. */
  lemma EntryAtIsRing(c: Config, h: CircularBufferHeader, mem: seq<byte>, p: nat)
    requires c.Valid() && |mem| >= c.queueSize && SizesMatch(c, h)
    ensures EntryAt(c, h, mem, p) == Ring.ReadEntry(Queue(c, mem), p)
  {
    hide Queue, Ring.Read, ReadAt, Ring.DecodeHeader, XorAll, Ring.Advance;
    if p <= c.MaxOffset() {
      ReadPieces(c, mem, p, Ring.ENTRY_HEADER_SIZE);
      var head := Ring.Read(Queue(c, mem), p, Ring.ENTRY_HEADER_SIZE);
      var p' := Ring.Advance(c.MaxOffset(), p, Ring.ENTRY_HEADER_SIZE);
      var n := Ring.DecodeHeader(head).entrySize;
      if n <= c.MaxOffset() {
        ReadPieces(c, mem, p', n);
      }
    }
  }

  lemma RegionLogsIsReadLogs(c: Config, mem: seq<byte>)
    requires c.Valid() && |mem| >= c.queueSize && SizesMatch(c, Decode(mem))
    ensures RegionLogs(c, mem) == ReadLogs(c, mem)
  {
    hide Decode, EntryAt, Queue, Ring.ReadEntry, Ring.DrainWith;
    var h, q := Decode(mem), Queue(c, mem);
    forall p: nat ensures EntriesOf(c, h, mem)(p) == Ring.Reader(q)(p) {
      EntryAtIsRing(c, h, mem, p);
    }
    if h.bmcReadPtr <= |q| && h.biosWritePtr <= |q| {
      Ring.SameDrain(
        EntriesOf(c, h, mem), Ring.Reader(q), h.bmcReadPtr, Ring.Distance(|q|, h.bmcReadPtr, h.biosWritePtr));
    }
  }

  /** Reads behind the header do not see what is stored in it. */
  lemma ReadAtFrame(mem: seq<byte>, m: seq<byte>, offset: nat, length: nat)
    requires |m| == |mem| >= HEADER_SIZE && m[BMC_READ_PTR_END..] == mem[BMC_READ_PTR_END..] && offset >= HEADER_SIZE
    ensures ReadAt(m, offset, length) == ReadAt(mem, offset, length)
  {
    var a, b, k := m[BMC_READ_PTR_END..], mem[BMC_READ_PTR_END..], offset - BMC_READ_PTR_END;
    if offset <= |mem| {
      assert m[offset..] == a[k..] && mem[offset..] == b[k..];
      if offset + length < |mem| {
        assert m[offset..offset + length] == a[k..k + length] && mem[offset..offset + length] == b[k..k + length];
      }
    }
  }

  lemma WrapReadFrame(
      c: Config, h: CircularBufferHeader, h': CircularBufferHeader, mem: seq<byte>, m: seq<byte>, o: nat, n: nat)
    requires c.Valid() && |m| == |mem| >= HEADER_SIZE && m[BMC_READ_PTR_END..] == mem[BMC_READ_PTR_END..]
    requires h'.queueSize == h.queueSize && h'.ueRegionSize == h.ueRegionSize
    ensures WrapRead(c, h', m, o, n) == WrapRead(c, h, mem, o, n)
  {
    hide ReadAt;
    var wrapped := if o <= c.MaxOffset() && n > c.MaxOffset() - o then n - (c.MaxOffset() - o) else 0;
    if o <= c.MaxOffset() && n <= c.MaxOffset() {
      ReadAtFrame(mem, m, c.QueueOffset() + o, n - wrapped);
      ReadAtFrame(mem, m, c.QueueOffset(), wrapped);
    }
  }

  lemma EntryAtFrame(
      c: Config, h: CircularBufferHeader, h': CircularBufferHeader, mem: seq<byte>, m: seq<byte>, p: nat)
    requires c.Valid() && |m| == |mem| >= HEADER_SIZE && m[BMC_READ_PTR_END..] == mem[BMC_READ_PTR_END..]
    requires h'.queueSize == h.queueSize && h'.ueRegionSize == h.ueRegionSize
    ensures EntryAt(c, h', m, p) == EntryAt(c, h, mem, p)
  {
    hide WrapRead, XorAll, Ring.DecodeHeader;
    WrapReadFrame(c, h, h', mem, m, p, Ring.ENTRY_HEADER_SIZE);
    var r := WrapRead(c, h, mem, p, Ring.ENTRY_HEADER_SIZE);
    if r.Success? {
      var p' := Ring.Advance(c.MaxOffset(), p, Ring.ENTRY_HEADER_SIZE);
      WrapReadFrame(c, h, h', mem, m, p', Ring.DecodeHeader(r.value).entrySize);
    }
  }

  lemma SetReadPtrFrame(c: Config, mem: seq<byte>, ptr: nat)
    requires c.Valid() && |mem| >= c.queueSize && ptr < 0x100_0000
    ensures Decode(SetReadPtr(mem, ptr)) == Decode(mem).(bmcReadPtr := ptr)
    ensures Queue(c, SetReadPtr(mem, ptr)) == Queue(c, mem)
    ensures SameOutsideBmcFields(mem, SetReadPtr(mem, ptr))
    ensures forall p: nat :: p < 0x100_0000 ==> SetReadPtr(SetReadPtr(mem, ptr), p) == SetReadPtr(mem, p)
  {
    DecodeWithReadPtr(mem, ptr);
  }

  lemma SetFlagsFrame(c: Config, mem: seq<byte>, flags: bv32)
    requires c.Valid() && |mem| >= c.queueSize
    ensures Decode(SetFlags(mem, flags)) == Decode(mem).(bmcFlags := flags)
    ensures Queue(c, SetFlags(mem, flags)) == Queue(c, mem)
    ensures SameOutsideBmcFields(mem, SetFlags(mem, flags))
  {
    DecodeWithFlags(mem, flags);
  }

  /** A pointer store leaves everything behind it alone, and a later one overrides it. */
  lemma SetReadPtrTwice(mem: seq<byte>, ptr: nat)
    requires |mem| >= HEADER_SIZE
    ensures SetReadPtr(mem, ptr)[BMC_READ_PTR_END..] == mem[BMC_READ_PTR_END..]
    ensures forall p: nat :: SetReadPtr(SetReadPtr(mem, ptr), p) == SetReadPtr(mem, p)
  {}

  /** An empty read never falls short. */
  lemma NothingAt(mem: seq<byte>, offset: nat)
    ensures ReadAt(mem, offset, 0) == []
  {}

  lemma SetSameReadPtr(mem: seq<byte>)
    requires |mem| >= HEADER_SIZE
    ensures SetReadPtr(mem, Decode(mem).bmcReadPtr) == mem
  {
    LeBytesOfLeNat(mem[0x21..0x24]);
  }

  lemma InsideRead(mem: seq<byte>, from: nat, to: nat, o: nat, n: nat)
    requires from + o + n <= to <= |mem|
    ensures ReadAt(mem, from + o, n) == mem[from..to][o..][..n]
  {
    var s, t := mem[from..to][o..][..n], mem[from + o..from + o + n];
    assert forall i :: 0 <= i < n ==> s[i] == t[i];
    assert ReadAt(mem, from + o, n) == t;
  }

  lemma TwoPieces(q: seq<byte>, o: nat, n: nat, wrapped: nat)
    requires o <= |q| && n <= |q| && wrapped == if n > |q| - o then n - (|q| - o) else 0
    ensures Ring.Read(q, o, n) == q[o..][..n - wrapped] + q[..wrapped]
  {
    var s, t := Ring.Read(q, o, n), q[o..][..n - wrapped] + q[..wrapped];
    assert forall i :: 0 <= i < n ==> s[i] == t[i];
  }

  /** The one or two clipped reads of a wraparound read are the ring's bytes. */
  lemma ReadPieces(c: Config, mem: seq<byte>, o: nat, n: nat)
    requires c.Valid() && |mem| >= c.queueSize && o <= c.MaxOffset() && n <= c.MaxOffset()
    ensures
      var wrapped := if n > c.MaxOffset() - o then n - (c.MaxOffset() - o) else 0;
      var first := ReadAt(mem, c.QueueOffset() + o, n - wrapped);
      var second := ReadAt(mem, c.QueueOffset(), wrapped);
      |first| == n - wrapped && |second| == wrapped &&
      first + second == Ring.Read(Queue(c, mem), o, n)
  {
    hide Ring.Read, ReadAt;
    var q, m := Queue(c, mem), c.MaxOffset();
    var wrapped := if n > m - o then n - (m - o) else 0;
    InsideRead(mem, c.QueueOffset(), c.queueSize, o, n - wrapped);
    InsideRead(mem, c.QueueOffset(), c.queueSize, 0, wrapped);
    assert q[0..] == q;
    TwoPieces(q, o, n, wrapped);
  }

  class BufferImpl {
    const config: Config
    const data: PciDataHandler
    var cachedBufferHeader: CircularBufferHeader

    constructor (config: Config, data: PciDataHandler)
      ensures this.config == config && this.data == data
      ensures cachedBufferHeader ==
              CircularBufferHeader(0, 0, seq(16, _ => 0), 0, 0, 0, 0, [0, 0, 0, 0], 0, 0, 0)
    {
      this.config := config;
      this.data := data;
      cachedBufferHeader := InitialHeader(0, 0, 0, seq(16, _ => 0));
    }

    /** What initialize establishes for good: the region holds the whole queue. */
    predicate RegionFits() {
      config.Valid() && config.queueSize <= data.mem.Length < UINT32_SPAN
    }

    /** A cached header that announces the build's sizes came from a region that holds a header. */
    predicate Usable()
      reads this
    {
      config.Valid() && data.mem.Length < UINT32_SPAN &&
      (SizesMatch(config, cachedBufferHeader) ==> data.mem.Length >= HEADER_SIZE)
    }

    /** The cached header is the header in the region. */
    ghost predicate Coherent()
      requires data.mem.Length >= HEADER_SIZE
      reads this, data.mem
    {
      cachedBufferHeader == Decode(data.mem[..])
    }

    method Initialize(bmcInterfaceVersion: bv32, queueSize: nat, ueRegionSize: nat, magicNumber: seq<byte>)
      returns (r: Result<()>)
      requires queueSize < UINT16_SPAN && ueRegionSize < UINT16_SPAN && |magicNumber| == 16
      modifies this, data.mem
      ensures queueSize > data.mem.Length ==> r == Failure(RegionTooSmall)
      ensures r.Success? <==> queueSize <= data.mem.Length && HEADER_SIZE <= data.mem.Length
      ensures r.Success? ==>
                var h := InitialHeader(bmcInterfaceVersion, queueSize, ueRegionSize, magicNumber);
                cachedBufferHeader == h && data.mem[..] == Initialized(old(data.mem[..]), h, queueSize)
      ensures r.Success? ==>
                InitialBytes(
                  data.mem[..], old(data.mem[..]), bmcInterfaceVersion, queueSize, ueRegionSize, magicNumber) &&
                cachedBufferHeader == Decode(data.mem[..])
    {
      hide Encode, Replace, Decode, InitialBytes, Initialized;
      ghost var was := data.mem[..];
      if queueSize > data.RegionSize() {
        return Failure(RegionTooSmall);
      }
      var zeros := seq(queueSize, _ => 0);
      assert zeros[..queueSize] == zeros;
      var byteWritten := data.Write(0, zeros);
      if byteWritten != queueSize {
        return Failure(ShortWrite);
      }
      var header := InitialHeader(bmcInterfaceVersion, queueSize, ueRegionSize, magicNumber);
      assert Encode(header)[..HEADER_SIZE] == Encode(header);
      byteWritten := data.Write(0, Encode(header));
      if byteWritten != HEADER_SIZE {
        return Failure(ShortWrite);
      }
      cachedBufferHeader := header;
      assert data.mem[..] == Initialized(was, header, queueSize) by {
        InitializedTwice(was, header, queueSize);
      }
      InitializedBytes(was, bmcInterfaceVersion, queueSize, ueRegionSize, magicNumber);
      DecodeInitialized(was, header, queueSize);
      return Success(());
    }

    method ReadBufferHeader() returns (r: Result<()>)
      modifies this
      ensures r.Success? <==> data.mem.Length >= HEADER_SIZE
      ensures r.Success? ==> cachedBufferHeader == Decode(data.mem[..])
    {
      var bytesRead := data.Read(0, HEADER_SIZE);
      if |bytesRead| != HEADER_SIZE {
        return Failure(ShortRead);
      }
      cachedBufferHeader := Decode(bytesRead);
      assert bytesRead == data.mem[..][..HEADER_SIZE];
      DecodePrefix(data.mem[..]);
      return Success(());
    }

    method UpdateReadPtr(newReadPtr: nat) returns (r: Result<()>)
      requires newReadPtr < UINT32_SPAN
      modifies this, data.mem
      ensures r.Success? <==> data.mem.Length >= BMC_READ_PTR_END
      ensures data.mem.Length >= HEADER_SIZE ==>
                data.mem[..] == SetReadPtr(old(data.mem[..]), newReadPtr % 0x100_0000) &&
                cachedBufferHeader == old(cachedBufferHeader).(bmcReadPtr := newReadPtr % 0x100_0000)
    {
      var truncatedReadPtr := newReadPtr % 0x100_0000;
      var writtenSize := data.Write(BMC_READ_PTR_OFFSET, LeBytes(truncatedReadPtr, 3));
      if writtenSize != 3 {
        return Failure(ShortWrite);
      }
      cachedBufferHeader := cachedBufferHeader.(bmcReadPtr := truncatedReadPtr);
      return Success(());
    }

    method UpdateBmcFlags(newBmcFlags: bv32) returns (r: Result<()>)
      modifies this, data.mem
      ensures r.Success? <==> data.mem.Length >= BMC_READ_PTR_OFFSET
      ensures data.mem.Length >= HEADER_SIZE ==>
                data.mem[..] == SetFlags(old(data.mem[..]), newBmcFlags) &&
                cachedBufferHeader == old(cachedBufferHeader).(bmcFlags := newBmcFlags)
    {
      var writtenSize := data.Write(BMC_FLAGS_OFFSET, WordBytes(newBmcFlags));
      if writtenSize != 4 {
        return Failure(ShortWrite);
      }
      cachedBufferHeader := cachedBufferHeader.(bmcFlags := newBmcFlags);
      return Success(());
    }

    function GetMaxOffset(): (r: Result<nat>)
      requires config.Valid()
      reads this
      ensures r.Success? <==> SizesMatch(config, cachedBufferHeader)
      ensures r.Success? ==> r.value == config.MaxOffset()
    {
      if cachedBufferHeader.queueSize != config.queueSize then Failure(QueueSizeMismatch)
      else if cachedBufferHeader.ueRegionSize != config.ueRegionSize then Failure(UeRegionSizeMismatch)
      else Success(cachedBufferHeader.queueSize - cachedBufferHeader.ueRegionSize - HEADER_SIZE)
    }

    function GetQueueOffset(): (r: Result<nat>)
      reads this
      ensures r.Success? ==> r.value == config.QueueOffset()
    {
      if cachedBufferHeader.ueRegionSize != config.ueRegionSize then Failure(UeRegionSizeMismatch)
      else Success(HEADER_SIZE + cachedBufferHeader.ueRegionSize)
    }

    /**
     Bytes relativeOffset.. of the ring, wrapping at its end; the pointer past them is published
     and cached.
     */
    method WraparoundRead(relativeOffset: nat, length: nat) returns (r: Result<seq<byte>>)
      requires Usable() && relativeOffset < UINT32_SPAN && length < UINT32_SPAN
      modifies this, data.mem
      ensures r == WrapRead(config, old(cachedBufferHeader), old(data.mem[..]), relativeOffset, length)
      ensures r.Failure? ==> data.mem[..] == old(data.mem[..]) && cachedBufferHeader == old(cachedBufferHeader)
      ensures r.Success? ==>
                var ptr := Ring.Advance(config.MaxOffset(), relativeOffset, length);
                data.mem.Length >= HEADER_SIZE &&
                data.mem[..] == SetReadPtr(old(data.mem[..]), ptr) &&
                cachedBufferHeader == old(cachedBufferHeader).(bmcReadPtr := ptr)
    {
      hide SetReadPtr, ReadAt;
      var maxOffset :- GetMaxOffset();
      if relativeOffset > maxOffset {
        return Failure(OffsetTooBig);
      }
      if length > maxOffset {
        return Failure(LengthTooBig);
      }
      var offset := GetQueueOffset();
      if offset.Failure? {
        return Failure(UeRegionSizeMismatch);
      }
      var queueOffset := offset.value;
      var writableSpace := maxOffset - relativeOffset;
      var numWraparoundBytesToRead := 0;
      if length > writableSpace {
        numWraparoundBytesToRead := length - writableSpace;
      }
      var numBytesToReadTillQueueEnd := length - numWraparoundBytesToRead;

      NothingAt(data.mem[..], queueOffset);
      var bytesRead := data.Read(queueOffset + relativeOffset, numBytesToReadTillQueueEnd);
      if |bytesRead| != numBytesToReadTillQueueEnd {
        return Failure(ShortRead);
      }
      var updatedReadPtr := relativeOffset + numBytesToReadTillQueueEnd;
      if updatedReadPtr == maxOffset {
        updatedReadPtr := 0;
      }
      if numWraparoundBytesToRead > 0 {
        var wrappedBytesRead := data.Read(queueOffset, numWraparoundBytesToRead);
        if |wrappedBytesRead| != numWraparoundBytesToRead {
          return Failure(ShortRead);
        }
        bytesRead := bytesRead + wrappedBytesRead;
        updatedReadPtr := numWraparoundBytesToRead;
      }
      assert numWraparoundBytesToRead == 0 ==> bytesRead + [] == bytesRead;
      assert updatedReadPtr == Ring.Advance(maxOffset, relativeOffset, length);
      ModSmall(updatedReadPtr, 0x100_0000);
      var written := UpdateReadPtr(updatedReadPtr);
      if written.Failure? {
        return Failure(ShortWrite);
      }
      return Success(bytesRead);
    }

    method ReadEntryHeader() returns (r: Result<Ring.QueueEntryHeader>)
      requires Usable() && cachedBufferHeader.bmcReadPtr < UINT32_SPAN
      modifies this, data.mem
      ensures r.Failure? ==> data.mem[..] == old(data.mem[..]) && cachedBufferHeader == old(cachedBufferHeader)
      ensures
        var p := old(cachedBufferHeader).bmcReadPtr;
        match WrapRead(config, old(cachedBufferHeader), old(data.mem[..]), p, Ring.ENTRY_HEADER_SIZE)
        case Failure(e) => r == Failure(e)
        case Success(bytes) =>
          var ptr := Ring.Advance(config.MaxOffset(), p, Ring.ENTRY_HEADER_SIZE);
          r == Success(Ring.DecodeHeader(bytes)) && data.mem.Length >= HEADER_SIZE &&
          data.mem[..] == SetReadPtr(old(data.mem[..]), ptr) &&
          cachedBufferHeader == old(cachedBufferHeader).(bmcReadPtr := ptr)
    {
      var bytesRead :- WraparoundRead(cachedBufferHeader.bmcReadPtr, Ring.ENTRY_HEADER_SIZE);
      return Success(Ring.DecodeHeader(bytesRead));
    }

    /** One entry at the cached read pointer, its bytes XORed by the two accumulate loops. */
    method ReadEntry() returns (r: Result<Ring.Entry>)
      requires Usable() && cachedBufferHeader.bmcReadPtr < 0x100_0000
      modifies this, data.mem
      ensures
        var e := EntryAt(config, old(cachedBufferHeader), old(data.mem[..]), old(cachedBufferHeader).bmcReadPtr);
        r == e.result &&
        cachedBufferHeader == old(cachedBufferHeader).(bmcReadPtr := e.ptr) &&
        ((data.mem[..] == old(data.mem[..]) && e.ptr == old(cachedBufferHeader).bmcReadPtr) ||
         (data.mem.Length >= HEADER_SIZE && data.mem[..] == SetReadPtr(old(data.mem[..]), e.ptr)))
    {
      hide SetReadPtr, Decode, WrapRead, Ring.DecodeHeader, XorAll;
      ghost var was, h, p := data.mem[..], cachedBufferHeader, cachedBufferHeader.bmcReadPtr;
      var entryHeader :- ReadEntryHeader();
      var entrySize := entryHeader.entrySize;
      ghost var p' := cachedBufferHeader.bmcReadPtr;
      SetReadPtrTwice(was, p');
      WrapReadFrame(config, h, cachedBufferHeader, was, data.mem[..], p', entrySize);
      var entry :- WraparoundRead(cachedBufferHeader.bmcReadPtr, entrySize);

      var headerBytes := Ring.EncodeHeader(entryHeader);
      Ring.HeaderReprint(WrapRead(config, h, was, p, Ring.ENTRY_HEADER_SIZE).value);
      var headerSum := Accumulate(headerBytes);
      var entrySum := Accumulate(entry);
      if headerSum ^ entrySum != 0 {
        return Failure(BadChecksum);
      }
      return Success(Ring.Entry(entryHeader, entry));
    }

    /** std::accumulate with std::bit_xor. */
    method Accumulate(s: seq<byte>) returns (sum: byte)
      ensures sum == XorAll(s)
    {
      sum := 0;
      for i := 0 to |s|
        invariant sum == XorAll(s[..i])
      {
        assert s[..i + 1][..i] == s[..i];
        sum := sum ^ s[i];
      }
      assert s[..|s|] == s;
    }

    /**
     Drain the queue up to the write pointer found in the header.  The entries come back only if
     all of them were good and the pointers met; the read pointer moves in any case.
     */
    method ReadErrorLogs() returns (r: Result<seq<Ring.Entry>>)
      requires config.Valid() && data.mem.Length < UINT32_SPAN
      modifies this, data.mem
      ensures data.mem.Length < HEADER_SIZE ==> r == Failure(ShortRead) && data.mem[..] == old(data.mem[..])
      ensures data.mem.Length >= HEADER_SIZE ==>
        var h := Decode(old(data.mem[..]));
        if !SizesMatch(config, h) then
          r.Failure? && data.mem[..] == old(data.mem[..]) && cachedBufferHeader == h
        else
          var d := RegionLogs(config, old(data.mem[..]));
          r == d.Outcome() && (RegionFits() ==> d == ReadLogs(config, old(data.mem[..]))) &&
          data.mem[..] == SetReadPtr(old(data.mem[..]), d.ptr) &&
          cachedBufferHeader == h.(bmcReadPtr := d.ptr)
    {
      hide Ring.DrainWith, EntriesOf, Decode, SetReadPtr, ReadLogs;
      var header := ReadBufferHeader();
      if header.Failure? {
        return Failure(ShortRead);
      }
      ghost var was, h := data.mem[..], cachedBufferHeader;
      ghost var read := EntriesOf(config, h, was);
      SetSameReadPtr(was);
      var maxOffset :- GetMaxOffset();
      if RegionFits() {
        RegionLogsIsReadLogs(config, was);
      }
      var currentBiosWritePtr := cachedBufferHeader.biosWritePtr;
      if currentBiosWritePtr > maxOffset {
        return Failure(WritePtrTooBig);
      }
      var currentReadPtr := cachedBufferHeader.bmcReadPtr;
      if currentReadPtr > maxOffset {
        return Failure(ReadPtrTooBig);
      }
      var bytesToRead: nat;
      if currentBiosWritePtr == currentReadPtr {
        Ring.DrainStops(read, currentReadPtr, 0);
        return Success([]);
      }
      if currentBiosWritePtr > currentReadPtr {
        bytesToRead := currentBiosWritePtr - currentReadPtr;
      } else {
        bytesToRead := (maxOffset - currentReadPtr) + currentBiosWritePtr;
      }

      var entryPairs :- DrainEntries(bytesToRead);
      currentReadPtr := cachedBufferHeader.bmcReadPtr;
      if currentBiosWritePtr != currentReadPtr {
        return Failure(PointerMismatch);
      }
      return Success(entryPairs);
    }

    /** The loop of readErrorLogs: entries until bytesToRead bytes have been consumed. */
    method DrainEntries(bytesToRead: nat) returns (r: Result<seq<Ring.Entry>>)
      requires Usable() && data.mem.Length >= HEADER_SIZE && cachedBufferHeader.bmcReadPtr < 0x100_0000
      modifies this, data.mem
      ensures
        var h := old(cachedBufferHeader);
        var d := Ring.DrainWith(EntriesOf(config, h, old(data.mem[..])), h.bmcReadPtr, bytesToRead);
        r == d.Outcome() && cachedBufferHeader == h.(bmcReadPtr := d.ptr) &&
        (data.mem[..] == SetReadPtr(old(data.mem[..]), d.ptr) ||
         (data.mem[..] == old(data.mem[..]) && d.ptr == h.bmcReadPtr))
    {
      hide EntryAt, Ring.Remaining, Ring.DrainWith, SetReadPtr, Decode;
      ghost var was, h := data.mem[..], cachedBufferHeader;
      ghost var read := EntriesOf(config, h, was);
      ghost var all := Ring.DrainWith(read, cachedBufferHeader.bmcReadPtr, bytesToRead);
      Ring.RemainingStart(read, cachedBufferHeader.bmcReadPtr, bytesToRead);
      var byteRead := 0;
      var entryPairs: seq<Ring.Entry> := [];
      while byteRead < bytesToRead
        invariant cachedBufferHeader.bmcReadPtr < 0x100_0000
        invariant data.mem[..] == SetReadPtr(was, cachedBufferHeader.bmcReadPtr) ||
                  (data.mem[..] == was && cachedBufferHeader == h)
        invariant cachedBufferHeader == h.(bmcReadPtr := cachedBufferHeader.bmcReadPtr)
        invariant Ring.Remaining(read, cachedBufferHeader.bmcReadPtr, bytesToRead - byteRead, entryPairs, all)
      {
        ghost var p := cachedBufferHeader.bmcReadPtr;
        SetReadPtrTwice(was, p);
        EntryAtFrame(config, h, cachedBufferHeader, was, data.mem[..], p);
        Ring.RemainingStep(read, p, bytesToRead - byteRead, entryPairs, all);
        var entryPair :- ReadEntry();
        byteRead := byteRead + entryPair.Size();
        entryPairs := entryPairs + [entryPair];
      }
      Ring.RemainingStep(read, cachedBufferHeader.bmcReadPtr, bytesToRead - byteRead, entryPairs, all);
      return Success(entryPairs);
    }

    /** The UE log when the switch bits differ, nothing otherwise. */
    method ReadUeLogFromReservedRegion() returns (r: Result<seq<byte>>)
      requires data.mem.Length < UINT32_SPAN
      modifies this
      ensures data.mem.Length < HEADER_SIZE ==> r == Failure(ShortRead)
      ensures data.mem.Length >= HEADER_SIZE ==> r == UeLog(data.mem[..]) && Coherent()
    {
      var header := ReadBufferHeader();
      if header.Failure? {
        return Failure(ShortRead);
      }
      var currentUeRegionSize := cachedBufferHeader.ueRegionSize;
      if currentUeRegionSize == 0 {
        return Success([]);
      }
      var biosSideFlags := cachedBufferHeader.biosFlags;
      var bmcSideFlags := cachedBufferHeader.bmcFlags;
      if (biosSideFlags ^ bmcSideFlags) & UE_SWITCH == 0 {
        return Success([]);
      }
      var ueLogData := data.Read(HEADER_SIZE, currentUeRegionSize);
      if |ueLogData| == currentUeRegionSize {
        assert ueLogData == data.mem[..][HEADER_SIZE..HEADER_SIZE + currentUeRegionSize];
        return Success(ueLogData);
      }
      return Failure(ShortRead);
    }

    /** Copy the BIOS's overflow bit into the BMC's flags if they differ. */
    method CheckForOverflowAndAcknowledge() returns (r: Result<bool>)
      modifies this, data.mem
      ensures data.mem.Length < HEADER_SIZE ==> r == Failure(ShortRead)
      ensures data.mem.Length >= HEADER_SIZE ==>
                r == Success(Differ(Decode(old(data.mem[..])), OVERFLOW)) &&
                data.mem[..] == AcknowledgeOverflow(old(data.mem[..])) && Coherent()
    {
      var header := ReadBufferHeader();
      if header.Failure? {
        return Failure(ShortRead);
      }
      var biosSideFlags := cachedBufferHeader.biosFlags;
      var bmcSideFlags := cachedBufferHeader.bmcFlags;
      if (biosSideFlags ^ bmcSideFlags) & OVERFLOW != 0 {
        var newBmcFlags := bmcSideFlags ^ OVERFLOW;
        DecodeWithFlags(data.mem[..], newBmcFlags);
        var written := UpdateBmcFlags(newBmcFlags);
        if written.Failure? {
          return Failure(ShortWrite);
        }
        return Success(true);
      }
      return Success(false);
    }
  }
}
