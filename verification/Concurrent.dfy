/**
 The daemon's whole loop and the BIOS at the same time: header reads, flag and pointer stores, the UE
 log, and initialize byte by byte, with BIOS steps between any two of them (src/main.cpp:39-169,
 src/buffer.cpp:27-143, 226-300).

 What the drain finds and what the decoder answers is left open here: any pointers may be stored and
 any part may fail, so every behaviour of the other modules is among the runs.
 */
module Concurrent {
  import opened Bytes
  import opened Header
  import opened Buffer
  import opened Polling
  import Handshake

  /** Where the daemon is in its loop. */
  datatype Pc =
    | Idle
    | UeSeen
    | Toggling
    | BeforeAck
    | Acking
    | BeforeDrain
    | Draining
    | Decoding
    | Zeroing(i: nat)
    | Storing(i: nat)
  {
    predicate Initializing() {
      Zeroing? || Storing?
    }

    /** Initializing, and the BIOS's flags are still to be stored. */
    predicate BeforeBiosFlags() {
      Zeroing? || (Storing? && i <= BIOS_FLAGS_OFFSET)
    }
  }

  /** The latest posted UE log, by its number: not yet handed to the decoder, or handed but not acknowledged. */
  datatype Unread = Nothing | Waiting(number: nat) | InHand(number: nat)

  datatype Handed = Handed(number: nat, log: seq<byte>)

  /**
   Region, cached header, place in the loop; and for the record the UE logs posted and handed to the
   decoder so far, the numbers of those that a re-initialization erased unread, the state of the
   latest one, and whether a transfer was completed since the last initialize.
   */
  datatype World = World(
    mem: seq<byte>, cached: CircularBufferHeader, pc: Pc,
    posted: seq<seq<byte>>, handed: seq<Handed>, lost: set<nat>, unread: Unread, stopped: bool)

  datatype Step =
    | BiosStores(m: seq<byte>)
    | BiosPosts(m: seq<byte>)
    | ReadForUe
    | DecodeUe(ok: bool)
    | ToggleUe
    | ReadForAck
    | StoreAck
    | ReadForDrain
    | StorePtr(ptr: nat)
    | Drained
    | DrainFails
    | StoreReady
    | Decoded
    | DecodeThrows
    | ZeroByte
    | HeaderByte

  /** The UE switch bits of the two sides differ. */
  predicate UeDiffer(m: seq<byte>)
    requires |m| >= HEADER_SIZE
  {
    (m[BIOS_FLAGS_OFFSET] ^ m[BMC_FLAGS_OFFSET]) & 1 != 0
  }

  function UeRegion(s: Settings, m: seq<byte>): (log: seq<byte>)
    requires s.Valid() && |m| >= s.config.queueSize
    ensures |log| == s.config.ueRegionSize
  {
    m[HEADER_SIZE..HEADER_SIZE + s.config.ueRegionSize]
  }

  /** What the BIOS may store outside of posting: not the BMC's bytes, not its switch, and no unread log. */
  ghost predicate BiosMay(s: Settings, m: seq<byte>, m': seq<byte>)
    requires s.Valid() && |m| >= s.config.queueSize
  {
    Handshake.KeepsBmcBytes(m, m') && (m'[BIOS_FLAGS_OFFSET] ^ m[BIOS_FLAGS_OFFSET]) & 1 == 0 &&
    (UeDiffer(m) ==> UeRegion(s, m') == UeRegion(s, m))
  }

  /** The BIOS flips its switch, when both agree, over the log it has stored before. */
  ghost predicate BiosFlips(s: Settings, m: seq<byte>, m': seq<byte>)
    requires s.Valid() && |m| >= s.config.queueSize
  {
    s.config.ueRegionSize > 0 && !UeDiffer(m) && m' == m[BIOS_FLAGS_OFFSET := m[BIOS_FLAGS_OFFSET] ^ 1]
  }

  ghost predicate Enabled(s: Settings, x: World, step: Step) {
    s.Valid() && |x.mem| >= s.config.queueSize &&
    match step
    case BiosStores(m) => BiosMay(s, x.mem, m)
    case BiosPosts(m) => BiosFlips(s, x.mem, m)
    case ReadForUe => x.pc == Idle
    case DecodeUe(_) => x.pc == UeSeen && HEADER_SIZE + x.cached.ueRegionSize <= |x.mem|
    case ToggleUe => x.pc == Toggling
    case ReadForAck => x.pc == BeforeAck
    case StoreAck => x.pc == Acking
    case ReadForDrain => x.pc == BeforeDrain
    case StorePtr(ptr) => x.pc == Draining && ptr < 0x100_0000
    case Drained => x.pc == Draining
    case DrainFails => x.pc == Draining
    case StoreReady => x.pc == Decoding
    case Decoded => x.pc == Decoding
    case DecodeThrows => x.pc == Decoding
    case ZeroByte => x.pc.Zeroing? && x.pc.i < s.config.queueSize
    case HeaderByte => x.pc.Storing? && x.pc.i < HEADER_SIZE
  }

  /** An unread log is no longer there to be read. */
  function Drop(x: World): (y: World) {
    x.(unread := Nothing, lost := if x.unread.Waiting? then x.lost + {x.unread.number} else x.lost)
  }

  function StoreFlags(x: World, flags: bv32, pc: Pc): (y: World)
    requires |x.mem| >= HEADER_SIZE
  {
    x.(mem := SetFlags(x.mem, flags), cached := x.cached.(bmcFlags := flags), pc := pc)
  }

  /** The loop of initialize that zeroes the region. */
  function DoZero(s: Settings, x: World): (y: World)
    requires x.pc.Zeroing? && x.pc.i < s.config.queueSize <= |x.mem|
  {
    var i := x.pc.i;
    x.(mem := x.mem[i := 0], pc := if i + 1 < s.config.queueSize then Zeroing(i + 1) else Storing(0))
  }

  /** The loop of initialize that stores the header; storing the BIOS's flags erases an unread log. */
  function DoHeader(s: Settings, x: World): (y: World)
    requires s.Valid() && |x.mem| >= s.config.queueSize && x.pc.Storing? && x.pc.i < HEADER_SIZE
  {
    var i, h := x.pc.i, s.FreshHeader();
    var y := if i == BIOS_FLAGS_OFFSET then Drop(x) else x;
    var z := y.(mem := x.mem[i := Encode(h)[i]]);
    if i + 1 < HEADER_SIZE then z.(pc := Storing(i + 1)) else z.(pc := Idle, cached := h, stopped := false)
  }

  ghost function Do(s: Settings, x: World, step: Step): (y: World)
    requires Enabled(s, x, step)
  {
    match step
    case BiosStores(m) => x.(mem := m)
    case BiosPosts(m) =>
      Drop(x).(mem := m, posted := x.posted + [UeRegion(s, x.mem)], unread := Waiting(|x.posted|))
    case ReadForUe =>
      var h := Decode(x.mem);
      x.(cached := h, pc := if h.ueRegionSize == 0 || !Differ(h, UE_SWITCH) then BeforeAck else UeSeen)
    case DecodeUe(ok) =>
      var number := if x.unread.Waiting? then x.unread.number else |x.posted|;
      x.(handed := x.handed + [Handed(number, x.mem[HEADER_SIZE..HEADER_SIZE + x.cached.ueRegionSize])],
         unread := InHand(number), pc := if ok then Toggling else Zeroing(0))
    case ToggleUe => StoreFlags(x, Toggled(x.cached.bmcFlags), BeforeAck).(unread := Nothing)
    case ReadForAck =>
      var h := Decode(x.mem);
      x.(cached := h, pc := if Differ(h, OVERFLOW) then Acking else BeforeDrain)
    case StoreAck => StoreFlags(x, Acknowledged(x.cached.bmcFlags), BeforeDrain)
    case ReadForDrain => x.(cached := Decode(x.mem), pc := Draining)
    case StorePtr(ptr) => x.(mem := SetReadPtr(x.mem, ptr), cached := x.cached.(bmcReadPtr := ptr))
    case Drained => x.(pc := Decoding)
    case DrainFails => x.(pc := Zeroing(0))
    case StoreReady => StoreFlags(x, WithReady(x.cached.bmcFlags), Decoding).(stopped := true)
    case Decoded => x.(pc := Idle)
    case DecodeThrows => x.(pc := Zeroing(0))
    case ZeroByte => DoZero(s, x)
    case HeaderByte => DoHeader(s, x)
  }

  ghost predicate Runs(s: Settings, x: World, schedule: seq<Step>, y: World)
    decreases |schedule|
  {
    if schedule == [] then x == y
    else Enabled(s, x, schedule[0]) && Runs(s, Do(s, x, schedule[0]), schedule[1..], y)
  }

  // ----- the record -----

  /** Handed in the order posted, each at most once, unaltered. */
  ghost predicate HandedInOrder(x: World) {
    (forall i :: 0 <= i < |x.handed| ==>
       x.handed[i].number < |x.posted| && x.handed[i].log == x.posted[x.handed[i].number]) &&
    (forall i, j :: 0 <= i < j < |x.handed| ==> x.handed[i].number < x.handed[j].number)
  }

  ghost predicate WasHanded(x: World, number: nat) {
    exists i :: 0 <= i < |x.handed| && x.handed[i].number == number
  }

  /** Every posted log was handed on, or erased unread, or is still waiting, and only one of these. */
  ghost predicate Accounted(x: World) {
    forall n: nat ::
      (n < |x.posted| <==> WasHanded(x, n) || n in x.lost || x.unread == Waiting(n)) &&
      (n in x.lost ==> !WasHanded(x, n)) &&
      (x.unread == Waiting(n) ==> n + 1 == |x.posted| && !WasHanded(x, n) && n !in x.lost) &&
      (x.unread == InHand(n) ==> n + 1 == |x.posted| && WasHanded(x, n))
  }

  ghost predicate Recorded(x: World) {
    HandedInOrder(x) && Accounted(x)
  }

  // ----- the invariant -----

  /** The switch bits say whether a log is unread, and an unread log is still in the region. */
  ghost predicate SwitchTells(s: Settings, x: World)
    requires s.Valid() && |x.mem| >= s.config.queueSize
  {
    (x.unread != Nothing <==> UeDiffer(x.mem)) &&
    (x.unread != Nothing ==> s.config.ueRegionSize > 0) &&
    (x.unread.Waiting? ==> x.unread.number < |x.posted| && UeRegion(s, x.mem) == x.posted[x.unread.number])
  }

  /** The fields the BMC owns are the same in the cache and in the region. */
  ghost predicate OwnFieldsAgree(s: Settings, x: World)
    requires s.Valid() && |x.mem| >= s.config.queueSize
  {
    var h := Decode(x.mem);
    x.cached.bmcFlags == h.bmcFlags && x.cached.bmcReadPtr == h.bmcReadPtr &&
    SizesMatch(s.config, h) && SizesMatch(s.config, x.cached)
  }

  ghost predicate Looping(s: Settings, x: World)
    requires s.Valid() && |x.mem| >= s.config.queueSize
  {
    SwitchTells(s, x) && OwnFieldsAgree(s, x) &&
    (x.cached.bmcFlags & READY != 0 <==> x.stopped) &&
    (x.pc == UeSeen ==> x.unread.Waiting?) && (x.unread.InHand? <==> x.pc == Toggling)
  }

  /** Bytes the BIOS leaves alone. */
  predicate BmcByte(j: nat) {
    j < 4 || 8 <= j < BMC_READ_PTR_END
  }

  ghost predicate HeaderStored(s: Settings, x: World, i: nat)
    requires s.Valid() && |x.mem| >= s.config.queueSize && i <= HEADER_SIZE
  {
    forall j: nat :: j < i && BmcByte(j) ==> x.mem[j] == Encode(s.FreshHeader())[j]
  }

  ghost predicate Inv(s: Settings, x: World) {
    s.Valid() && |x.mem| >= s.config.queueSize && Recorded(x) &&
    match x.pc
    case Zeroing(i) => i < s.config.queueSize
    case Storing(i) =>
      i < HEADER_SIZE && HeaderStored(s, x, i) &&
      (i > BIOS_FLAGS_OFFSET ==> SwitchTells(s, x) && !x.unread.InHand?)
    case _ => Looping(s, x)
  }

  // ----- bits -----

  lemma LowBits(a: seq<byte>, b: seq<byte>)
    requires |a| == |b| == 4
    ensures (Word(a) ^ Word(b)) & 1 != 0 <==> (a[0] ^ b[0]) & 1 != 0
  {}

  lemma DifferIsUeDiffer(m: seq<byte>)
    requires |m| >= HEADER_SIZE
    ensures Differ(Decode(m), UE_SWITCH) <==> UeDiffer(m)
  {
    hide Word;
    LowBits(m[BIOS_FLAGS_OFFSET..0x2c], m[BMC_FLAGS_OFFSET..BMC_READ_PTR_OFFSET]);
  }

  lemma SameLowBit(a: byte, a': byte, b: byte)
    requires (a' ^ a) & 1 == 0
    ensures (a' ^ b) & 1 == (a ^ b) & 1
  {}

  lemma OtherLowBit(a: byte, b: byte)
    ensures ((a ^ 1) ^ b) & 1 != 0 <==> (a ^ b) & 1 == 0
  {}

  // ----- what the record keeps -----

  lemma RecordsDrop(x: World)
    requires Recorded(x)
    ensures Recorded(Drop(x))
  {
    var y := Drop(x);
    assert forall n: nat :: WasHanded(y, n) <==> WasHanded(x, n);
  }

  lemma RecordsPost(x: World, log: seq<byte>)
    requires Recorded(x) && x.unread == Nothing
    ensures Recorded(x.(posted := x.posted + [log], unread := Waiting(|x.posted|)))
  {
    var y := x.(posted := x.posted + [log], unread := Waiting(|x.posted|));
    assert forall n: nat :: WasHanded(y, n) <==> WasHanded(x, n);
  }

  lemma RecordsHand(x: World)
    requires Recorded(x) && x.unread.Waiting?
    ensures
      var n := x.unread.number;
      n < |x.posted| && Recorded(x.(handed := x.handed + [Handed(n, x.posted[n])], unread := InHand(n)))
  {
    var n := x.unread.number;
    var y := x.(handed := x.handed + [Handed(n, x.posted[n])], unread := InHand(n));
    forall k: nat
      ensures WasHanded(y, k) <==> WasHanded(x, k) || k == n
    {
      if WasHanded(x, k) {
        var i :| 0 <= i < |x.handed| && x.handed[i].number == k;
        assert y.handed[i].number == k;
      }
      assert y.handed[|x.handed|].number == n;
    }
    forall i, j | 0 <= i < j < |y.handed| ensures y.handed[i].number < y.handed[j].number {
      assert WasHanded(x, x.handed[i].number);
    }
  }

  lemma RecordsAcknowledge(x: World)
    requires Recorded(x) && x.unread.InHand?
    ensures Recorded(x.(unread := Nothing))
  {
    var y := x.(unread := Nothing);
    assert forall n: nat :: WasHanded(y, n) <==> WasHanded(x, n);
  }

  /** The record does not depend on the rest of the world. */
  lemma RecordsOnly(x: World, y: World)
    requires Recorded(x)
    requires y.posted == x.posted && y.handed == x.handed && y.lost == x.lost && y.unread == x.unread
    ensures Recorded(y)
  {
    assert forall n: nat :: WasHanded(y, n) <==> WasHanded(x, n);
  }

  // ----- BIOS steps -----

  lemma KeptByte(m: seq<byte>, m': seq<byte>, j: nat)
    requires |m| >= HEADER_SIZE && Handshake.KeepsBmcBytes(m, m') && BmcByte(j)
    ensures m'[j] == m[j]
  {
    if j < 4 {
      assert m'[j] == m'[..4][j] && m[j] == m[..4][j];
    } else {
      assert m'[j] == m'[8..BMC_READ_PTR_END][j - 8] && m[j] == m[8..BMC_READ_PTR_END][j - 8];
    }
  }

  lemma KeptLength(m: seq<byte>, m': seq<byte>)
    requires |m| >= HEADER_SIZE && Handshake.KeepsBmcBytes(m, m')
    ensures |m'| == |m|
  {}

  lemma HeaderStoredKept(s: Settings, x: World, y: World, i: nat)
    requires s.Valid() && |x.mem| >= s.config.queueSize && i <= HEADER_SIZE && HeaderStored(s, x, i)
    requires Handshake.KeepsBmcBytes(x.mem, y.mem)
    ensures HeaderStored(s, y, i)
  {
    hide Encode, Handshake.KeepsBmcBytes;
    KeptLength(x.mem, y.mem);
    forall j: nat | j < i && BmcByte(j) ensures y.mem[j] == Encode(s.FreshHeader())[j] {
      KeptByte(x.mem, y.mem, j);
    }
  }

  lemma OwnFieldsKept(s: Settings, x: World, y: World)
    requires s.Valid() && |x.mem| >= s.config.queueSize && OwnFieldsAgree(s, x)
    requires Handshake.KeepsBmcBytes(x.mem, y.mem) && y.cached == x.cached
    ensures OwnFieldsAgree(s, y)
  {
    hide Decode, Handshake.KeepsBmcBytes;
    Handshake.BmcBytesDecode(x.mem, y.mem);
  }

  lemma BiosStoresDiffer(s: Settings, m: seq<byte>, m': seq<byte>)
    requires s.Valid() && |m| >= s.config.queueSize && BiosMay(s, m, m')
    ensures UeDiffer(m') <==> UeDiffer(m)
  {
    KeptByte(m, m', BMC_FLAGS_OFFSET);
    SameLowBit(m[BIOS_FLAGS_OFFSET], m'[BIOS_FLAGS_OFFSET], m[BMC_FLAGS_OFFSET]);
  }

  lemma BiosStoresKeeps(s: Settings, x: World, m: seq<byte>)
    requires Inv(s, x) && Enabled(s, x, BiosStores(m))
    ensures Inv(s, Do(s, x, BiosStores(m)))
  {
    hide Decode, UeDiffer, Recorded, HeaderStored, OwnFieldsAgree;
    var y := Do(s, x, BiosStores(m));
    RecordsOnly(x, y);
    BiosStoresDiffer(s, x.mem, m);
    if x.pc.Storing? {
      HeaderStoredKept(s, x, y, x.pc.i);
    } else if !x.pc.Zeroing? {
      OwnFieldsKept(s, x, y);
    }
  }

  lemma FlipKeeps(s: Settings, m: seq<byte>, m': seq<byte>)
    requires s.Valid() && |m| >= s.config.queueSize && BiosFlips(s, m, m')
    ensures Handshake.KeepsBmcBytes(m, m') && UeDiffer(m') && UeRegion(s, m') == UeRegion(s, m)
  {
    OtherLowBit(m[BIOS_FLAGS_OFFSET], m[BMC_FLAGS_OFFSET]);
  }

  lemma BiosPostsKeeps(s: Settings, x: World, m: seq<byte>)
    requires Inv(s, x) && Enabled(s, x, BiosPosts(m))
    ensures Inv(s, Do(s, x, BiosPosts(m)))
    ensures !x.pc.BeforeBiosFlags() ==> x.unread == Nothing
  {
    hide Decode, UeDiffer, Recorded, HeaderStored, OwnFieldsAgree, Handshake.KeepsBmcBytes;
    var y := Do(s, x, BiosPosts(m));
    RecordsDrop(x);
    RecordsPost(Drop(x), UeRegion(s, x.mem));
    RecordsOnly(
      Drop(x).(posted := x.posted + [UeRegion(s, x.mem)], unread := Waiting(|x.posted|)), y);
    FlipKeeps(s, x.mem, m);
    if x.pc.Storing? {
      HeaderStoredKept(s, x, y, x.pc.i);
    } else if !x.pc.Zeroing? {
      OwnFieldsKept(s, x, y);
    }
  }

  // ----- BMC steps -----

  lemma ReadForUeKeeps(s: Settings, x: World)
    requires Inv(s, x) && Enabled(s, x, ReadForUe)
    ensures Inv(s, Do(s, x, ReadForUe))
    ensures Do(s, x, ReadForUe).pc == UeSeen <==> x.unread != Nothing
  {
    hide Decode, UeDiffer, Recorded, Differ;
    RecordsOnly(x, Do(s, x, ReadForUe));
    DifferIsUeDiffer(x.mem);
  }

  lemma DecodeUeKeeps(s: Settings, x: World, ok: bool)
    requires Inv(s, x) && Enabled(s, x, DecodeUe(ok))
    ensures Inv(s, Do(s, x, DecodeUe(ok))) && WasHanded(Do(s, x, DecodeUe(ok)), x.unread.number)
  {
    hide Decode, UeDiffer, Recorded, Differ;
    var y := Do(s, x, DecodeUe(ok));
    var n := x.unread.number;
    RecordsHand(x);
    RecordsOnly(x.(handed := x.handed + [Handed(n, x.posted[n])], unread := InHand(n)), y);
    assert y.handed[|x.handed|].number == n;
  }

  lemma ToggleUeKeeps(s: Settings, x: World)
    requires Inv(s, x) && Enabled(s, x, ToggleUe)
    ensures Inv(s, Do(s, x, ToggleUe))
  {
    hide Decode, UeDiffer, Recorded, Differ, SetFlags, Toggled;
    var y, f := Do(s, x, ToggleUe), Toggled(x.cached.bmcFlags);
    RecordsAcknowledge(x);
    RecordsOnly(x.(unread := Nothing), y);
    SetFlagsFrame(s.config, x.mem, f);
    DifferIsUeDiffer(x.mem);
    DifferIsUeDiffer(y.mem);
    Handshake.DifferUe(Decode(x.mem));
  }

  /** A flags store that keeps the switch keeps what the switch tells. */
  lemma FlagsKeep(s: Settings, x: World, f: bv32, y: World)
    requires s.Valid() && |x.mem| >= s.config.queueSize && OwnFieldsAgree(s, x) && SwitchTells(s, x)
    requires y.mem == SetFlags(x.mem, f) && y.cached == x.cached.(bmcFlags := f)
    requires y.posted == x.posted && y.unread == x.unread
    requires f & UE_SWITCH == x.cached.bmcFlags & UE_SWITCH
    ensures OwnFieldsAgree(s, y) && SwitchTells(s, y)
  {
    hide Decode, UeDiffer, Differ, SetFlags;
    SetFlagsFrame(s.config, x.mem, f);
    SameUeRegion(s, x.mem, y.mem);
    DifferIsUeDiffer(x.mem);
    DifferIsUeDiffer(y.mem);
    Handshake.SameSwitch(Decode(x.mem), f);
  }

  lemma SameUeRegion(s: Settings, m: seq<byte>, m': seq<byte>)
    requires s.Valid() && |m| >= s.config.queueSize && |m'| == |m| && SameOutsideBmcFields(m, m')
    ensures UeRegion(s, m') == UeRegion(s, m)
  {
    var a, b, n := m[BMC_READ_PTR_END..], m'[BMC_READ_PTR_END..], s.config.ueRegionSize;
    assert UeRegion(s, m) == a[0xc..0xc + n] && UeRegion(s, m') == b[0xc..0xc + n];
  }

  lemma ReadForAckKeeps(s: Settings, x: World)
    requires Inv(s, x) && (Enabled(s, x, ReadForAck) || Enabled(s, x, ReadForDrain))
    ensures Enabled(s, x, ReadForAck) ==> Inv(s, Do(s, x, ReadForAck))
    ensures Enabled(s, x, ReadForDrain) ==> Inv(s, Do(s, x, ReadForDrain))
  {
    hide Decode, UeDiffer, Recorded, Differ;
    if Enabled(s, x, ReadForAck) {
      RecordsOnly(x, Do(s, x, ReadForAck));
    } else {
      RecordsOnly(x, Do(s, x, ReadForDrain));
    }
  }

  lemma AcknowledgedBits(f: bv32)
    ensures Acknowledged(f) & UE_SWITCH == f & UE_SWITCH && Acknowledged(f) & READY == f & READY
  {
    Handshake.AckedBits(f);
  }

  lemma StoreAckKeeps(s: Settings, x: World)
    requires Inv(s, x) && Enabled(s, x, StoreAck)
    ensures Inv(s, Do(s, x, StoreAck))
  {
    hide Decode, UeDiffer, Recorded, Differ, SetFlags, SwitchTells, OwnFieldsAgree, Acknowledged;
    var y := Do(s, x, StoreAck);
    RecordsOnly(x, y);
    AcknowledgedBits(x.cached.bmcFlags);
    FlagsKeep(s, x, Acknowledged(x.cached.bmcFlags), y);
  }

  lemma StoreReadyKeeps(s: Settings, x: World)
    requires Inv(s, x) && Enabled(s, x, StoreReady)
    ensures Inv(s, Do(s, x, StoreReady))
  {
    hide Decode, UeDiffer, Recorded, Differ, SetFlags, SwitchTells, OwnFieldsAgree, WithReady;
    var y := Do(s, x, StoreReady);
    RecordsOnly(x, y);
    Handshake.ReadyBits(x.cached.bmcFlags);
    FlagsKeep(s, x, WithReady(x.cached.bmcFlags), y);
  }

  lemma StorePtrKeeps(s: Settings, x: World, ptr: nat)
    requires Inv(s, x) && Enabled(s, x, StorePtr(ptr))
    ensures Inv(s, Do(s, x, StorePtr(ptr)))
  {
    hide Decode, UeDiffer, Recorded, Differ, SetReadPtr;
    var y := Do(s, x, StorePtr(ptr));
    RecordsOnly(x, y);
    SetReadPtrFrame(s.config, x.mem, ptr);
    SameUeRegion(s, x.mem, y.mem);
    DifferIsUeDiffer(x.mem);
    DifferIsUeDiffer(y.mem);
    Handshake.DifferIgnoresReadPtr(Decode(x.mem), ptr);
  }

  /** Steps that only move on in the loop. */
  lemma MoveKeeps(s: Settings, x: World, step: Step)
    requires Inv(s, x) && Enabled(s, x, step)
    requires step.Drained? || step.DrainFails? || step.Decoded? || step.DecodeThrows?
    ensures Inv(s, Do(s, x, step))
  {
    hide Decode, UeDiffer, Recorded, Differ;
    RecordsOnly(x, Do(s, x, step));
  }

  lemma ZeroByteKeeps(s: Settings, x: World)
    requires Inv(s, x) && Enabled(s, x, ZeroByte)
    ensures Inv(s, Do(s, x, ZeroByte))
  {
    hide Decode, UeDiffer, Recorded, Encode;
    RecordsOnly(x, Do(s, x, ZeroByte));
  }

  lemma FreshHeaderBytes(s: Settings)
    requires s.Valid()
    ensures
      var e := Encode(s.FreshHeader());
      e[BMC_FLAGS_OFFSET] == 0 && e[BIOS_FLAGS_OFFSET] == 0
  {
    hide Encode, WordBytes, LeBytes;
    var h := s.FreshHeader();
    var e := Encode(h);
    EncodedFields(h, e);
    ZeroWord();
    assert e[BMC_FLAGS_OFFSET] == e[0x1d..0x21][0] && e[BIOS_FLAGS_OFFSET] == e[0x28..0x2c][0];
  }

  lemma ZeroWord()
    ensures WordBytes(0)[0] == 0
  {}

  lemma SameBits(a: byte)
    ensures (a ^ a) & 1 == 0
  {}

  /** Once all its bytes are stored, the BMC's fields are those of the initial header. */
  lemma StoredFields(s: Settings, x: World)
    requires s.Valid() && |x.mem| >= s.config.queueSize && HeaderStored(s, x, HEADER_SIZE)
    requires x.cached == s.FreshHeader()
    ensures OwnFieldsAgree(s, x)
  {
    hide Decode;
    var e := Encode(s.FreshHeader());
    assert Handshake.KeepsBmcBytes(e, x.mem[..HEADER_SIZE]) by {
      var m := x.mem[..HEADER_SIZE];
      assert forall j: nat :: j < 4 ==> m[j] == e[j];
      assert forall j: nat :: 8 <= j < BMC_READ_PTR_END ==> m[j] == e[j];
    }
    Handshake.BmcBytesDecode(e, x.mem[..HEADER_SIZE]);
    DecodeEncode(s.FreshHeader(), e);
    DecodePrefix(x.mem);
  }

  lemma HeaderByteStored(s: Settings, x: World, y: World, i: nat)
    requires s.Valid() && |x.mem| >= s.config.queueSize && i < HEADER_SIZE && HeaderStored(s, x, i)
    requires y.mem == x.mem[i := Encode(s.FreshHeader())[i]]
    ensures HeaderStored(s, y, i + 1)
  {
    hide Encode;
  }

  lemma HeaderByteSwitch(s: Settings, x: World, i: nat)
    requires s.Valid() && |x.mem| >= s.config.queueSize && BIOS_FLAGS_OFFSET <= i < HEADER_SIZE && HeaderStored(s, x, i)
    ensures
      var m := x.mem[i := Encode(s.FreshHeader())[i]];
      UeRegion(s, m) == UeRegion(s, x.mem) &&
      (i == BIOS_FLAGS_OFFSET ==> !UeDiffer(m)) &&
      (i > BIOS_FLAGS_OFFSET ==> (UeDiffer(m) <==> UeDiffer(x.mem)))
  {
    hide Encode;
    FreshHeaderBytes(s);
    SameBits(0);
    assert BmcByte(BMC_FLAGS_OFFSET);
  }

  lemma HeaderByteKeeps(s: Settings, x: World)
    requires Inv(s, x) && Enabled(s, x, HeaderByte)
    ensures Inv(s, Do(s, x, HeaderByte))
  {
    hide Decode, UeDiffer, Recorded, Encode, HeaderStored, OwnFieldsAgree;
    var y, i := Do(s, x, HeaderByte), x.pc.i;
    RecordsDrop(x);
    RecordsOnly(if i == BIOS_FLAGS_OFFSET then Drop(x) else x, y);
    HeaderByteStored(s, x, y, i);
    if i >= BIOS_FLAGS_OFFSET {
      HeaderByteSwitch(s, x, i);
    }
    if i + 1 == HEADER_SIZE {
      StoredFields(s, y);
    }
  }

  // ----- every schedule -----

  lemma StepKeeps(s: Settings, x: World, step: Step)
    requires Inv(s, x) && Enabled(s, x, step)
    ensures Inv(s, Do(s, x, step))
  {
    hide Inv, Do;
    match step
    case BiosStores(m) => BiosStoresKeeps(s, x, m);
    case BiosPosts(m) => BiosPostsKeeps(s, x, m);
    case ReadForUe => ReadForUeKeeps(s, x);
    case DecodeUe(ok) => DecodeUeKeeps(s, x, ok);
    case ToggleUe => ToggleUeKeeps(s, x);
    case ReadForAck => ReadForAckKeeps(s, x);
    case StoreAck => StoreAckKeeps(s, x);
    case ReadForDrain => ReadForAckKeeps(s, x);
    case StorePtr(ptr) => StorePtrKeeps(s, x, ptr);
    case Drained => MoveKeeps(s, x, step);
    case DrainFails => MoveKeeps(s, x, step);
    case StoreReady => StoreReadyKeeps(s, x);
    case Decoded => MoveKeeps(s, x, step);
    case DecodeThrows => MoveKeeps(s, x, step);
    case ZeroByte => ZeroByteKeeps(s, x);
    case HeaderByte => HeaderByteKeeps(s, x);
  }

  /** Power-up: any memory, any cache, and initialize about to store its first byte. */
  ghost predicate Initial(s: Settings, x: World) {
    s.Valid() && |x.mem| >= s.config.queueSize && x.pc == Zeroing(0) &&
    x.posted == [] && x.handed == [] && x.lost == {} && x.unread == Nothing
  }

  lemma InitialHolds(s: Settings, x: World)
    requires Initial(s, x)
    ensures Inv(s, x)
  {}

  lemma {:induction false} ScheduleKeeps(s: Settings, x: World, schedule: seq<Step>, y: World)
    requires Inv(s, x) && Runs(s, x, schedule, y)
    ensures Inv(s, y)
    decreases |schedule|
  {
    hide Inv, Do, Enabled;
    if schedule != [] {
      StepKeeps(s, x, schedule[0]);
      ScheduleKeeps(s, Do(s, x, schedule[0]), schedule[1..], y);
    }
  }

  /**
   Under every interleaving from power-up, however often the buffer is re-initialized: the UE logs
   handed to the decoder are posted ones, unaltered, in the order posted, each at most once.
   */
  lemma HandedAtMostOnce(s: Settings, x: World, schedule: seq<Step>, y: World)
    requires Initial(s, x) && Runs(s, x, schedule, y)
    ensures HandedInOrder(y)
  {
    hide Inv, Initial, Runs;
    InitialHolds(s, x);
    ScheduleKeeps(s, x, schedule, y);
    InvRecorded(s, y);
  }

  lemma InvRecorded(s: Settings, x: World)
    requires Inv(s, x)
    ensures Recorded(x) && s.Valid() && |x.mem| >= s.config.queueSize
  {}

  /**
   Under every interleaving, after every step of either side outside of initialize (a store of flags
   or of the pointer is one step here): flags, read pointer and sizes are the same in the cached
   header and in the region, and the ready bit says whether a transfer was completed since the last
   initialize.
   */
  lemma OwnFieldsAlwaysAgree(s: Settings, x: World, schedule: seq<Step>, y: World)
    requires Initial(s, x) && Runs(s, x, schedule, y) && !y.pc.Initializing()
    ensures s.Valid() && |y.mem| >= s.config.queueSize && OwnFieldsAgree(s, y)
    ensures Decode(y.mem).bmcFlags & READY != 0 <==> y.stopped
  {
    hide Runs, Decode, UeDiffer, Recorded, Initial;
    InitialHolds(s, x);
    ScheduleKeeps(s, x, schedule, y);
  }

  // ----- what becomes of a posted log -----

  /** A store of initialize that erases a log nobody has read. */
  predicate Wipes(x: World, step: Step) {
    step == HeaderByte && x.pc == Storing(BIOS_FLAGS_OFFSET)
  }

  /** The daemon reads the header for UE logs, and no initialize stores the BIOS's flags before. */
  ghost predicate ReadBeforeWipe(s: Settings, x: World, schedule: seq<Step>, y: World)
    requires Runs(s, x, schedule, y)
    decreases |schedule|
  {
    schedule != [] &&
    (schedule[0] == ReadForUe ||
     (!Wipes(x, schedule[0]) && ReadBeforeWipe(s, Do(s, x, schedule[0]), schedule[1..], y)))
  }

  /** What was handed on, and what was erased, stays so. */
  lemma StepRecords(s: Settings, x: World, step: Step)
    requires Enabled(s, x, step)
    ensures x.handed <= Do(s, x, step).handed && x.lost <= Do(s, x, step).lost
  {
    hide Decode, BiosMay, BiosFlips;
  }

  lemma {:induction false} RunRecords(s: Settings, x: World, schedule: seq<Step>, y: World)
    requires Runs(s, x, schedule, y)
    ensures x.handed <= y.handed && x.lost <= y.lost
    decreases |schedule|
  {
    hide Do, Enabled;
    if schedule != [] {
      StepRecords(s, x, schedule[0]);
      RunRecords(s, Do(s, x, schedule[0]), schedule[1..], y);
    }
  }

  lemma HandedStays(x: World, y: World, n: nat)
    requires WasHanded(x, n) && x.handed <= y.handed
    ensures WasHanded(y, n)
  {
    var i :| 0 <= i < |x.handed| && x.handed[i].number == n;
    assert y.handed[i].number == n;
  }

  /** A log that was erased is never handed on. */
  lemma LostStaysLost(s: Settings, x: World, schedule: seq<Step>, y: World, n: nat)
    requires Inv(s, x) && Runs(s, x, schedule, y) && n in x.lost
    ensures !WasHanded(y, n)
  {
    hide Inv, Runs, WasHanded, HandedInOrder;
    RunRecords(s, x, schedule, y);
    ScheduleKeeps(s, x, schedule, y);
    InvRecorded(s, y);
  }

  /** Once initialize has begun it stores the BIOS's flags before the daemon reads a header. */
  lemma {:induction false} InitializeWipes(s: Settings, x: World, schedule: seq<Step>, y: World)
    requires Runs(s, x, schedule, y) && x.pc.BeforeBiosFlags()
    ensures !ReadBeforeWipe(s, x, schedule, y)
    decreases |schedule|
  {
    hide Decode, BiosMay, BiosFlips;
    if schedule != [] && !Wipes(x, schedule[0]) && schedule[0] != ReadForUe {
      InitializeWipes(s, Do(s, x, schedule[0]), schedule[1..], y);
    }
  }

  /** A log whose header read found it is handed on, whatever the BIOS does meanwhile. */
  lemma {:induction false} SeenIsHanded(s: Settings, x: World, schedule: seq<Step>, y: World)
    requires Inv(s, x) && x.pc == UeSeen && Runs(s, x, schedule, y) && y.pc != UeSeen
    ensures x.unread.Waiting? && WasHanded(y, x.unread.number)
    decreases |schedule|
  {
    hide Inv, Do, Runs, WasHanded;
    SeenWaits(s, x);
    RunsStep(s, x, schedule, y);
    if schedule != [] {
      var step := schedule[0];
      var z := Do(s, x, step);
      StepKeeps(s, x, step);
      SeenStep(s, x, step);
      if step.DecodeUe? {
        DecodeUeKeeps(s, x, step.ok);
        RunRecords(s, z, schedule[1..], y);
        HandedStays(z, y, x.unread.number);
      } else {
        SeenIsHanded(s, z, schedule[1..], y);
      }
    }
  }

  lemma RunsStep(s: Settings, x: World, schedule: seq<Step>, y: World)
    requires Runs(s, x, schedule, y)
    ensures schedule == [] ==> x == y
    ensures schedule != [] ==> Enabled(s, x, schedule[0]) && Runs(s, Do(s, x, schedule[0]), schedule[1..], y)
  {}

  lemma SeenWaits(s: Settings, x: World)
    requires Inv(s, x) && x.pc == UeSeen
    ensures x.unread.Waiting? && UeDiffer(x.mem)
  {
    hide Decode, UeDiffer, Recorded;
  }

  lemma SeenStep(s: Settings, x: World, step: Step)
    requires Inv(s, x) && x.pc == UeSeen && Enabled(s, x, step)
    ensures step.BiosStores? || step.DecodeUe?
    ensures step.BiosStores? ==> Do(s, x, step).pc == UeSeen && Do(s, x, step).unread == x.unread
  {
    hide Decode, UeDiffer, Recorded, BiosMay;
    SeenWaits(s, x);
  }

  /** A step that neither reads nor wipes leaves a waiting log waiting, or loses it to initialize. */
  lemma WaitingStep(s: Settings, x: World, step: Step, n: nat)
    requires Inv(s, x) && x.unread == Waiting(n) && x.pc != UeSeen && Enabled(s, x, step)
    requires step != ReadForUe && !Wipes(x, step)
    ensures
      var y := Do(s, x, step);
      y.pc != UeSeen &&
      (y.unread == Waiting(n) || (n in y.lost && y.pc.BeforeBiosFlags()))
  {
    hide Decode, UeDiffer, Recorded, BiosMay, BiosFlips;
    if step.BiosPosts? {
      BiosPostsKeeps(s, x, step.m);
    }
  }

  lemma WipeStep(s: Settings, x: World, step: Step, n: nat)
    requires Enabled(s, x, step) && x.unread == Waiting(n) && Wipes(x, step)
    ensures n in Do(s, x, step).lost
  {}

  lemma WaitingIsNotHanded(s: Settings, x: World, n: nat)
    requires Inv(s, x) && x.unread == Waiting(n)
    ensures !WasHanded(x, n)
  {}

  /**
   Exactly when a posted log reaches the decoder: from the post on, under every interleaving, it
   has been handed on if and only if the daemon has read the header for UE logs before an
   initialize stored the BIOS's flags.
   */
  lemma {:induction false} HandedExactly(s: Settings, x: World, schedule: seq<Step>, y: World, n: nat)
    requires Inv(s, x) && x.unread == Waiting(n) && x.pc != UeSeen
    requires Runs(s, x, schedule, y) && y.pc != UeSeen
    ensures WasHanded(y, n) <==> ReadBeforeWipe(s, x, schedule, y)
    decreases |schedule|
  {
    hide Inv, Do, WasHanded, Enabled;
    if schedule == [] {
      WaitingIsNotHanded(s, x, n);
    } else {
      var step := schedule[0];
      var z := Do(s, x, step);
      StepKeeps(s, x, step);
      if step == ReadForUe {
        WaitingIsSeen(s, x);
        SeenIsHanded(s, z, schedule[1..], y);
      } else if Wipes(x, step) {
        WipeStep(s, x, step, n);
        LostStaysLost(s, z, schedule[1..], y, n);
      } else {
        WaitingStep(s, x, step, n);
        if z.unread == Waiting(n) {
          HandedExactly(s, z, schedule[1..], y, n);
        } else {
          LostStaysLost(s, z, schedule[1..], y, n);
          InitializeWipes(s, z, schedule[1..], y);
        }
      }
    }
  }

  lemma WaitingIsSeen(s: Settings, x: World)
    requires Inv(s, x) && x.unread.Waiting? && Enabled(s, x, ReadForUe)
    ensures Do(s, x, ReadForUe).pc == UeSeen && Do(s, x, ReadForUe).unread == x.unread
  {
    ReadForUeKeeps(s, x);
  }

  /**
   From power-up: a log posted at any time is handed to the decoder exactly once if the daemon's
   next header read for UE logs comes before initialize stores the BIOS's flags, and never otherwise.
   */
  lemma PostedLogFate(
      s: Settings, x: World, before: seq<Step>, y: World, m: seq<byte>, after: seq<Step>, z: World)
    requires Initial(s, x) && Runs(s, x, before, y) && Enabled(s, y, BiosPosts(m))
    requires Runs(s, Do(s, y, BiosPosts(m)), after, z) && z.pc != UeSeen
    ensures
      var n := |y.posted|;
      HandedInOrder(z) && n < |z.posted| && z.posted[n] == UeRegion(s, y.mem) &&
      (WasHanded(z, n) <==> ReadBeforeWipe(s, Do(s, y, BiosPosts(m)), after, z))
  {
    hide Inv, Runs, Initial, ReadBeforeWipe, WasHanded, HandedInOrder, UeRegion;
    InitialHolds(s, x);
    ScheduleKeeps(s, x, before, y);
    BiosPostsKeeps(s, y, m);
    var p := Do(s, y, BiosPosts(m));
    ScheduleKeeps(s, p, after, z);
    InvRecorded(s, z);
    PostedWaits(s, y, m);
    PostedStays(s, p, after, z);
    HandedExactly(s, p, after, z, |y.posted|);
  }

  lemma PostedWaits(s: Settings, y: World, m: seq<byte>)
    requires Inv(s, y) && Enabled(s, y, BiosPosts(m))
    ensures
      var p := Do(s, y, BiosPosts(m));
      p.pc != UeSeen && p.unread == Waiting(|y.posted|) && p.posted == y.posted + [UeRegion(s, y.mem)]
  {
    hide Decode, UeDiffer, Recorded;
    if y.pc == UeSeen {
      SeenWaits(s, y);
    }
  }

  lemma {:induction false} PostedStays(s: Settings, x: World, schedule: seq<Step>, y: World)
    requires Runs(s, x, schedule, y)
    ensures x.posted <= y.posted
    decreases |schedule|
  {
    hide Decode, BiosMay, BiosFlips;
    if schedule != [] {
      PostedStays(s, Do(s, x, schedule[0]), schedule[1..], y);
    }
  }
}
