/** Whole runs of the daemon: the BIOS acts, the BMC polls, over and over. */
module Handshake {
  import opened Bytes
  import opened Header
  import opened Wrappers
  import opened Buffer
  import opened Polling
  import Ring
  import T = Transfer

  /** What the BIOS left in the region before a poll, the UE log it posted, and the answers of that poll. */
  datatype Round = Round(mem: seq<byte>, post: Option<seq<byte>>, answers: Answers)

  /**
   The region and the transfer state after some rounds; the UE logs posted and those handed to the
   decoder so far; whether a queue entry was answered by StopFlagReceived since the last initialize.
   */
  datatype World = World(
    mem: seq<byte>,
    transfer: T.State,
    posted: seq<seq<byte>>,
    handed: seq<seq<byte>>,
    stopped: bool)

  /** The BIOS leaves the BMC's header bytes alone: versions, magic, sizes, BMC flags, read pointer. */
  ghost predicate KeepsBmcBytes(m: seq<byte>, m': seq<byte>)
    requires |m| >= HEADER_SIZE
  {
    |m'| == |m| && m'[..4] == m[..4] && m'[8..BMC_READ_PTR_END] == m[8..BMC_READ_PTR_END]
  }

  /**
   The BIOS's side of the protocol: it posts a UE log only when both switch bits agree, by storing
   the log and flipping its bit; while a log is unread it leaves it alone.  Queue, write pointer
   and all other BIOS fields are unconstrained.
   */
  ghost predicate BiosStep(s: Settings, m: seq<byte>, r: Round)
    requires s.Valid() && |m| >= s.config.queueSize
  {
    KeepsBmcBytes(m, r.mem) &&
    match r.post
    case None => UnreadUeLog(s, r.mem) == UnreadUeLog(s, m)
    case Some(log) => UnreadUeLog(s, m) == None && UnreadUeLog(s, r.mem) == Some(log)
  }

  function Listed<A>(o: Option<A>): seq<A> {
    match o case None => [] case Some(a) => [a]
  }

  /** One round. */
  function Next(s: Settings, w: World, r: Round): (w': World)
    requires s.Valid() && |r.mem| >= s.config.queueSize && w.transfer.Wide()
    ensures |w'.mem| == |r.mem| && w'.transfer.Wide()
  {
    var p := Poll(s, r.mem, w.transfer, r.answers);
    World(
      p.mem, p.transfer, w.posted + Listed(r.post), w.handed + Listed(p.ueLog),
      !p.reinitialized && (w.stopped || T.StopFlagReceived in p.statuses))
  }

  /** main: initialize, then wait for the first timer. */
  function Boot(s: Settings, mem: seq<byte>): (w: World)
    requires s.Valid() && |mem| >= s.config.queueSize
    ensures |w.mem| == |mem|
  {
    World(s.Fresh(mem), T.INITIAL, [], [], false)
  }

  /** The worlds reached in this order by a protocol-abiding BIOS and the daemon. */
  ghost predicate Reaches(s: Settings, w: World, rounds: seq<Round>, w': World)
    requires s.Valid() && |w.mem| >= s.config.queueSize && w.transfer.Wide()
    decreases |rounds|
  {
    if rounds == [] then w' == w
    else
      var r := rounds[0];
      BiosStep(s, w.mem, r) && Reaches(s, Next(s, w, r), rounds[1..], w')
  }

  /** What holds after every poll. */
  ghost predicate Settled(s: Settings, w: World) {
    Invariant(s, w.mem) && w.transfer.Wide() &&
    w.handed == w.posted && UnreadUeLog(s, w.mem) == None &&
    (Decode(w.mem).bmcFlags & READY != 0 <==> w.stopped)
  }

  // ----- flag bits -----

  lemma ToggledBits(f: bv32, b: bv32)
    requires (b ^ f) & UE_SWITCH != 0
    ensures (b ^ Toggled(f)) & UE_SWITCH == 0
    ensures Toggled(f) & READY == f & READY && Toggled(f) & OVERFLOW == f & OVERFLOW
  {}

  lemma AckedBits(f: bv32)
    ensures (f ^ OVERFLOW) & UE_SWITCH == f & UE_SWITCH
    ensures (f ^ OVERFLOW) & READY == f & READY
  {}

  lemma ReadyBits(f: bv32)
    ensures WithReady(f) & READY != 0
    ensures WithReady(f) & UE_SWITCH == f & UE_SWITCH
  {}

  lemma SwitchAgrees(b: bv32, f: bv32, g: bv32)
    requires f & UE_SWITCH == g & UE_SWITCH
    ensures (b ^ f) & UE_SWITCH == (b ^ g) & UE_SWITCH
  {}

  /** Toggling flips bit 0 and no other; if it differed it is the BIOS's then. */
  lemma TogglesBitZero(b: bv32, f: bv32)
    ensures !AgreeOn(Toggled(f), f, 1) && AgreeOn(Toggled(f), f, 0xffff_fffe)
    ensures AgreeOn(Toggled(f), f, 2) && AgreeOn(Toggled(f), f, 4) && AgreeOn(Toggled(f), f, 0xffff_fff8)
    ensures if DifferIn(b, f, 1) then AgreeOn(Toggled(f), b, 1) else AgreeOn(f, b, 1)
  {
    hide AgreeOn, DifferIn, Toggled;
    ToggleFlips(f);
    ToggleKeeps(f);
    ToggleMeets(b, f);
  }

  lemma ToggleFlips(f: bv32)
    ensures !AgreeOn(Toggled(f), f, 1)
  {}

  lemma ToggleKeeps(f: bv32)
    ensures AgreeOn(Toggled(f), f, 0xffff_fffe)
    ensures AgreeOn(Toggled(f), f, 2) && AgreeOn(Toggled(f), f, 4) && AgreeOn(Toggled(f), f, 0xffff_fff8)
  {}

  lemma ToggleMeets(b: bv32, f: bv32)
    ensures DifferIn(b, f, 1) ==> AgreeOn(Toggled(f), b, 1)
    ensures !DifferIn(b, f, 1) ==> AgreeOn(f, b, 1)
  {}

  /** Acknowledging flips bit 1 and no other; if it differed it is the BIOS's then. */
  lemma AcknowledgesBitOne(b: bv32, f: bv32)
    ensures !AgreeOn(Acknowledged(f), f, 2) && AgreeOn(Acknowledged(f), f, 0xffff_fffd)
    ensures AgreeOn(Acknowledged(f), f, 1) && AgreeOn(Acknowledged(f), f, 4) && AgreeOn(Acknowledged(f), f, 0xffff_fff8)
    ensures if DifferIn(b, f, 2) then AgreeOn(Acknowledged(f), b, 2) else AgreeOn(f, b, 2)
  {
    hide AgreeOn, DifferIn, Acknowledged;
    AcknowledgeFlips(f);
    AcknowledgeKeeps(f);
    AcknowledgeMeets(b, f);
  }

  lemma AcknowledgeFlips(f: bv32)
    ensures !AgreeOn(Acknowledged(f), f, 2)
  {}

  lemma AcknowledgeKeeps(f: bv32)
    ensures AgreeOn(Acknowledged(f), f, 0xffff_fffd)
    ensures AgreeOn(Acknowledged(f), f, 1) && AgreeOn(Acknowledged(f), f, 4) && AgreeOn(Acknowledged(f), f, 0xffff_fff8)
  {}

  lemma AcknowledgeMeets(b: bv32, f: bv32)
    ensures DifferIn(b, f, 2) ==> AgreeOn(Acknowledged(f), b, 2)
    ensures !DifferIn(b, f, 2) ==> AgreeOn(f, b, 2)
  {}

  /** Setting the ready bit sets bit 2 and changes no other. */
  lemma ReadySetsBitTwo(f: bv32)
    ensures Has(WithReady(f), 4) && AgreeOn(WithReady(f), f, 0xffff_fffb)
    ensures AgreeOn(WithReady(f), f, 1) && AgreeOn(WithReady(f), f, 2) && AgreeOn(WithReady(f), f, 0xffff_fff8)
  {}

  lemma Agrees(f: bv32, g: bv32, h: bv32, mask: bv32)
    requires AgreeOn(f, g, mask) && AgreeOn(g, h, mask)
    ensures AgreeOn(f, h, mask)
  {}

  lemma SameFlags(f: bv32)
    ensures AgreeOn(f, f, 1) && AgreeOn(f, f, 2) && AgreeOn(f, f, 4)
    ensures AgreeOn(f, f, 0xffff_fffd) && AgreeOn(f, f, 0xffff_fff8)
  {}

  lemma AgreeHas(f: bv32, g: bv32)
    requires AgreeOn(f, g, 4)
    ensures Has(f, 4) == Has(g, 4)
  {}

  /** Acknowledging flips the BMC's overflow bit, and no other, exactly if the two sides disagree; then they agree. */
  lemma AcknowledgeFlipsOnlyOverflow(h: CircularBufferHeader)
    ensures AckedFlags(h) == if Differ(h, OVERFLOW) then h.bmcFlags ^ OVERFLOW else h.bmcFlags
    ensures !Differ(h.(bmcFlags := AckedFlags(h)), OVERFLOW)
    ensures AckedFlags(h) & UE_SWITCH == h.bmcFlags & UE_SWITCH && AckedFlags(h) & READY == h.bmcFlags & READY
    ensures AckedFlags(h.(bmcFlags := AckedFlags(h))) == AckedFlags(h)
  {
    AckedBits(h.bmcFlags);
  }

  lemma AcknowledgeTwice(mem: seq<byte>)
    requires |mem| >= HEADER_SIZE
    ensures AcknowledgeOverflow(AcknowledgeOverflow(mem)) == AcknowledgeOverflow(mem)
  {
    hide SetFlags, Decode;
    var h := Decode(mem);
    DecodeStored(mem, AckedFlags(h));
    AcknowledgeFlipsOnlyOverflow(h);
  }

  lemma DecodeStored(mem: seq<byte>, flags: bv32)
    requires |mem| >= HEADER_SIZE
    ensures Decode(SetFlags(mem, flags)) == Decode(mem).(bmcFlags := flags)
  {
    DecodeWithFlags(mem, flags);
  }

  // ----- one round -----

  lemma BmcBytesDecode(m: seq<byte>, m': seq<byte>)
    requires |m| >= HEADER_SIZE && KeepsBmcBytes(m, m')
    ensures |m'| == |m|
    ensures
      var h, h' := Decode(m), Decode(m');
      h'.queueSize == h.queueSize && h'.ueRegionSize == h.ueRegionSize &&
      h'.bmcFlags == h.bmcFlags && h'.bmcReadPtr == h.bmcReadPtr
  {
    SameSlice(m, m', 0x18, 0x1b);
    SameSlice(m, m', 0x1b, 0x1d);
    SameSlice(m, m', 0x1d, 0x21);
    SameSlice(m, m', 0x21, 0x24);
  }

  lemma SameSlice(m: seq<byte>, m': seq<byte>, i: nat, j: nat)
    requires |m| >= HEADER_SIZE && KeepsBmcBytes(m, m') && 8 <= i <= j <= BMC_READ_PTR_END
    ensures m'[i..j] == m[i..j]
  {
    assert forall k :: i <= k < j ==> m[k] == m[8..BMC_READ_PTR_END][k - 8] && m'[k] == m'[8..BMC_READ_PTR_END][k - 8];
  }

  /** The flags after a possible toggle and acknowledgement. */
  lemma AckedMasks(h: CircularBufferHeader)
    ensures
      var g := AckedFlags(h);
      AgreeOn(g, h.biosFlags, 2) && AgreeOn(g, h.bmcFlags, 1) && AgreeOn(g, h.bmcFlags, 4) &&
      AgreeOn(g, h.bmcFlags, 0xffff_fff8) && AgreeOn(g, h.bmcFlags, 0xffff_fffd)
  {
    hide AgreeOn, DifferIn, Acknowledged;
    SameFlags(h.bmcFlags);
    AcknowledgesBitOne(h.biosFlags, h.bmcFlags);
  }

  /**
   The BMC's flags after an uninterrupted poll: bit 1 is the BIOS's, and so is bit 0 if there is a UE
   region; bit 2 is set if it was or a transfer was completed; all other bits are as before.
   */
  lemma PolledMasks(s: Settings, mem: seq<byte>, statuses: seq<T.Status>)
    requires s.Valid() && |mem| >= s.config.queueSize
    ensures
      var h, f := Decode(mem), FlagsPolled(s, mem, statuses);
      AgreeOn(f, h.biosFlags, 2) && AgreeOn(f, if s.config.ueRegionSize > 0 then h.biosFlags else h.bmcFlags, 1) &&
      (Has(f, 4) <==> Has(h.bmcFlags, 4) || T.StopFlagReceived in statuses) &&
      AgreeOn(f, h.bmcFlags, 0xffff_fff8)
  {
    hide Decode, AgreeOn, DifferIn, Has, Acknowledged, Toggled, WithReady, AckedFlags;
    var h := Decode(mem);
    var h' := if UnreadUeLog(s, mem).Some? then h.(bmcFlags := Toggled(h.bmcFlags)) else h;
    var t, a := h'.bmcFlags, AckedFlags(h');
    SameFlags(h.bmcFlags);
    TogglesBitZero(h.biosFlags, h.bmcFlags);
    AckedMasks(h');
    var ue := if s.config.ueRegionSize > 0 then h.biosFlags else h.bmcFlags;
    assert AgreeOn(t, ue, 1) && AgreeOn(t, h.bmcFlags, 4) && AgreeOn(t, h.bmcFlags, 0xffff_fff8);
    Agrees(a, t, ue, 1);
    Agrees(a, t, h.bmcFlags, 4);
    Agrees(a, t, h.bmcFlags, 0xffff_fff8);
    AgreeHas(a, h.bmcFlags);
    ReadySetsBitTwo(a);
    Agrees(WithReady(a), a, ue, 1);
    Agrees(WithReady(a), a, h.biosFlags, 2);
    Agrees(WithReady(a), a, h.bmcFlags, 0xffff_fff8);
  }

  /** The same by name, for the flags that the run invariant speaks of. */
  lemma PolledBits(s: Settings, mem: seq<byte>, statuses: seq<T.Status>)
    requires s.Valid() && |mem| >= s.config.queueSize
    ensures
      var h, f := Decode(mem), FlagsPolled(s, mem, statuses);
      (s.config.ueRegionSize > 0 ==> !Differ(h.(bmcFlags := f), UE_SWITCH)) &&
      (f & READY != 0 <==> h.bmcFlags & READY != 0 || T.StopFlagReceived in statuses)
  {
    hide Decode, Differ, Toggled, WithReady, AckedFlags;
    var h := Decode(mem);
    var h' := if UnreadUeLog(s, mem).Some? then h.(bmcFlags := Toggled(h.bmcFlags)) else h;
    var acked := AckedFlags(h');
    if Differ(h, UE_SWITCH) {
      DifferUe(h);
    }
    AcknowledgeFlipsOnlyOverflow(h');
    ReadyBits(acked);
    SameSwitch(h', acked);
    SameSwitch(h', WithReady(acked));
  }

  lemma DifferUe(h: CircularBufferHeader)
    requires Differ(h, UE_SWITCH)
    ensures !Differ(h.(bmcFlags := Toggled(h.bmcFlags)), UE_SWITCH)
    ensures Toggled(h.bmcFlags) & READY == h.bmcFlags & READY
  {
    ToggledBits(h.bmcFlags, h.biosFlags);
  }

  lemma SameSwitch(h: CircularBufferHeader, flags: bv32)
    ensures flags & UE_SWITCH == h.bmcFlags & UE_SWITCH ==>
            Differ(h.(bmcFlags := flags), UE_SWITCH) == Differ(h, UE_SWITCH)
  {
    if flags & UE_SWITCH == h.bmcFlags & UE_SWITCH {
      SwitchAgrees(h.biosFlags, flags, h.bmcFlags);
    }
  }

  lemma FreshIsSettled(s: Settings, mem: seq<byte>)
    requires s.Valid() && |mem| >= s.config.queueSize
    ensures
      var m := s.Fresh(mem);
      Invariant(s, m) && UnreadUeLog(s, m) == None && Decode(m).bmcFlags & READY == 0
  {
    FreshDecodes(s, mem);
  }

  /** The bytes of a re-initialized region. */
  lemma FreshBytes(s: Settings, mem: seq<byte>)
    requires s.Valid() && |mem| >= s.config.queueSize
    ensures
      InitialBytes(
        s.Fresh(mem), mem, s.bmcInterfaceVersion, s.config.queueSize, s.config.ueRegionSize, s.magicNumber)
  {
    hide InitialBytes, Encode;
    InitializedRegion(mem, s.FreshHeader(), s.config.queueSize);
    InitializedBytes(mem, s.bmcInterfaceVersion, s.config.queueSize, s.config.ueRegionSize, s.magicNumber);
  }

  lemma NoDifference(h: CircularBufferHeader)
    requires h.biosFlags == h.bmcFlags == 0
    ensures !Differ(h, UE_SWITCH) && !Differ(h, OVERFLOW)
  {}

  /** Polling a re-initialized region finds nothing at all and changes nothing. */
  lemma FreshIsQuiet(s: Settings, mem: seq<byte>, t: T.State, answers: Answers)
    requires s.Valid() && |mem| >= s.config.queueSize && t.Wide()
    ensures
      var m := s.Fresh(mem);
      !Differ(Decode(m), OVERFLOW) && AcknowledgeOverflow(m) == m &&
      ReadLogs(s.config, m) == Ring.Drained([], None, 0) &&
      Poll(s, m, t, answers) == Polled(m, t, None, [], [], false)
  {
    hide Decode, Differ, SetFlags, Settings.Fresh, SetReadPtr, Queue, Ring.Drain;
    var m := s.Fresh(mem);
    FreshDecodes(s, mem);
    NoDifference(Decode(m));
    SetSameReadPtr(m);
    Ring.DrainNothing(Queue(s.config, m), 0);
    assert Commands([], answers.entries) == [];
  }

  lemma NextSettles(s: Settings, w: World, r: Round)
    requires Settled(s, w) && BiosStep(s, w.mem, r)
    ensures Settled(s, Next(s, w, r))
  {
    hide Decode, Differ, FlagsPolled, Poll, KeepsBmcBytes, Settings.Fresh, Stores;
    BmcBytesDecode(w.mem, r.mem);
    PollOutcome(s, r.mem, w.transfer, r.answers);
    var p := Poll(s, r.mem, w.transfer, r.answers);
    if p.reinitialized {
      FreshIsSettled(s, r.mem);
    } else {
      var h, flags := Decode(r.mem), FlagsPolled(s, r.mem, p.statuses);
      StoresView(s, r.mem, p.mem, flags, h.biosWritePtr);
      PolledBits(s, r.mem, p.statuses);
      DifferIgnoresReadPtr(h.(bmcFlags := flags), h.biosWritePtr);
    }
  }

  lemma DifferIgnoresReadPtr(h: CircularBufferHeader, ptr: nat)
    ensures Differ(h.(bmcReadPtr := ptr), UE_SWITCH) == Differ(h, UE_SWITCH)
  {}

  // ----- every run -----

  /**
   Every run from initialize in which the BIOS acts between polls (module Concurrent lets it act
   anywhere), whatever the queue holds and however often the buffer is re-initialized: after each
   poll the header announces the build's sizes and the read pointer is inside the ring; every posted
   UE log has been handed to the decoder exactly once, in order; and the ready bit is set exactly if
   a stop flag was received since the last initialize.
   */
  lemma {:induction false} EveryRunSettles(s: Settings, w: World, rounds: seq<Round>, w': World)
    requires Settled(s, w) && Reaches(s, w, rounds, w')
    ensures Settled(s, w')
    decreases |rounds|
  {
    if rounds != [] {
      NextSettles(s, w, rounds[0]);
      EveryRunSettles(s, Next(s, w, rounds[0]), rounds[1..], w');
    }
  }

  lemma EveryRunFromBoot(s: Settings, mem: seq<byte>, rounds: seq<Round>, w: World)
    requires s.Valid() && |mem| >= s.config.queueSize && Reaches(s, Boot(s, mem), rounds, w)
    ensures Invariant(s, w.mem) && w.handed == w.posted && UnreadUeLog(s, w.mem) == None
    ensures Decode(w.mem).bmcFlags & READY != 0 <==> w.stopped
  {
    FreshIsSettled(s, mem);
    EveryRunSettles(s, Boot(s, mem), rounds, w);
  }
}
