/** One pass of the read loop as a function of the region and the transfer state (src/main.cpp:39-169). */
module Polling {
  import opened Bytes
  import opened Header
  import opened Wrappers
  import opened Buffer
  import Ring
  import T = Transfer

  /** The build's constants. */
  datatype Settings = Settings(config: Config, bmcInterfaceVersion: bv32, magicNumber: seq<byte>) {
    predicate Valid() {
      config.Valid() && |magicNumber| == 16
    }

    function FreshHeader(): (h: CircularBufferHeader)
      requires Valid()
      ensures h.Fits()
    {
      InitialHeader(bmcInterfaceVersion, config.queueSize, config.ueRegionSize, magicNumber)
    }

    /** The region right after initialize: the initial header, zeros up to queueSize, then whatever was there. */
    function Fresh(mem: seq<byte>): (m: seq<byte>)
      requires Valid() && |mem| >= config.queueSize
      ensures |m| == |mem|
    {
      Encode(FreshHeader()) + seq(config.queueSize - HEADER_SIZE, _ => 0) + mem[config.queueSize..]
    }
  }

  /** What the outside world answers during one poll. */
  datatype Answers = Answers(ue: T.BejOutcome, entries: nat -> T.BejOutcome)

  /**
   Outcome of a poll: the region, the transfer state, the UE log handed to the decoder, the queue
   entries handed to it, the statuses of those that did not throw, and whether the buffer was
   re-initialized.
   */
  datatype Polled = Polled(
    mem: seq<byte>,
    transfer: T.State,
    ueLog: Option<seq<byte>>,
    entries: seq<Ring.Entry>,
    statuses: seq<T.Status>,
    reinitialized: bool)

  function Commands(es: seq<Ring.Entry>, answers: nat -> T.BejOutcome): (cs: seq<T.Command>)
    ensures |cs| == |es|
  {
    seq(|es|, i requires 0 <= i < |es| => T.Command(es[i].header.rdeCommandType, es[i].body, answers(i)))
  }

  /** The catch branch, when nothing was decoded. */
  function Reinitialize(s: Settings, mem: seq<byte>, t: T.State, ueLog: Option<seq<byte>>): (p: Polled)
    requires s.Valid() && |mem| >= s.config.queueSize
  {
    Polled(s.Fresh(mem), t, ueLog, [], [], true)
  }

  /** The for loop over the drained entries; the first one that throws leads to the catch branch. */
  function DecodeAll(
      s: Settings, mem: seq<byte>, t: T.State, ueLog: Option<seq<byte>>, es: seq<Ring.Entry>,
      answers: nat -> T.BejOutcome): (p: Polled)
    requires s.Valid() && |mem| >= s.config.queueSize && t.Wide()
    ensures |p.mem| == |mem| && p.transfer.Wide()
  {
    var o := T.Run(t, Commands(es, answers));
    var k := |o.statuses|;
    if k < |es| then Polled(s.Fresh(mem), o.state, ueLog, es[..k + 1], o.statuses, true)
    else
      Polled(
        if T.StopFlagReceived in o.statuses then SetReady(mem) else mem, o.state, ueLog, es, o.statuses, false)
  }

  function Toggled(flags: bv32): bv32 { flags ^ UE_SWITCH }

  function WithReady(flags: bv32): bv32 { flags | READY }

  function ToggleUeSwitch(mem: seq<byte>): (m: seq<byte>)
    requires |mem| >= HEADER_SIZE
    ensures |m| == |mem|
  {
    SetFlags(mem, Toggled(Decode(mem).bmcFlags))
  }

  function SetReady(mem: seq<byte>): (m: seq<byte>)
    requires |mem| >= HEADER_SIZE
    ensures |m| == |mem|
  {
    SetFlags(mem, WithReady(Decode(mem).bmcFlags))
  }

  /** The part of a poll after the UE log: acknowledge an overflow, then drain and decode the queue. */
  function PollQueue(
      s: Settings, mem: seq<byte>, t: T.State, ueLog: Option<seq<byte>>, answers: nat -> T.BejOutcome): (p: Polled)
    requires s.Valid() && |mem| >= s.config.queueSize && t.Wide()
    ensures |p.mem| == |mem| && p.transfer.Wide()
  {
    var acked := AcknowledgeOverflow(mem);
    if !SizesMatch(s.config, Decode(acked)) then Reinitialize(s, mem, t, ueLog)
    else
      var d := ReadLogs(s.config, acked);
      if d.error.Some? then Reinitialize(s, mem, t, ueLog)
      else
        DecodeAll(s, SetReadPtr(acked, d.ptr), t, ueLog, d.entries, answers)
  }

  function Poll(s: Settings, mem: seq<byte>, t: T.State, answers: Answers): (p: Polled)
    requires s.Valid() && |mem| >= s.config.queueSize && t.Wide()
    ensures |p.mem| == |mem| && p.transfer.Wide()
  {
    match UeLog(mem)
    case Failure(_) => Reinitialize(s, mem, t, None)
    case Success(log) =>
      if log == [] then PollQueue(s, mem, t, None, answers.entries)
      else if T.OperationInit(t.dicts, log, answers.ue) != Success(T.Ok) then Reinitialize(s, mem, t, Some(log))
      else PollQueue(s, ToggleUeSwitch(mem), t, Some(log), answers.entries)
  }

  // ----- what every poll keeps -----

  /** True from initialize onward, whatever the queue holds. */
  ghost predicate Invariant(s: Settings, mem: seq<byte>) {
    s.Valid() && |mem| >= s.config.queueSize &&
    SizesMatch(s.config, Decode(mem)) && Decode(mem).bmcReadPtr < s.config.MaxOffset()
  }

  lemma FreshDecodes(s: Settings, mem: seq<byte>)
    requires s.Valid() && |mem| >= s.config.queueSize
    ensures Decode(s.Fresh(mem)) == s.FreshHeader() && Invariant(s, s.Fresh(mem))
  {
    DecodeEncode(s.FreshHeader(), s.Fresh(mem));
  }

  /** Re-initializing forgets anything a poll stored in the BMC's fields before. */
  lemma FreshForgets(s: Settings, m: seq<byte>, m': seq<byte>)
    requires s.Valid() && |m| == |m'| >= s.config.queueSize && SameOutsideBmcFields(m, m')
    ensures s.Fresh(m) == s.Fresh(m')
  {
    var k := s.config.queueSize;
    assert m[k..] == m[BMC_READ_PTR_END..][k - BMC_READ_PTR_END..];
    assert m'[k..] == m'[BMC_READ_PTR_END..][k - BMC_READ_PTR_END..];
  }

  /** m' is m with these BMC flags and this read pointer stored, and nothing else touched. */
  ghost predicate Stores(s: Settings, m: seq<byte>, m': seq<byte>, flags: bv32, ptr: nat)
    requires s.Valid() && |m| >= s.config.queueSize
  {
    |m'| == |m| && SameOutsideBmcFields(m, m') && Queue(s.config, m') == Queue(s.config, m) &&
    Decode(m') == Decode(m).(bmcFlags := flags, bmcReadPtr := ptr)
  }

  lemma StoresNothing(s: Settings, m: seq<byte>)
    requires s.Valid() && |m| >= s.config.queueSize
    ensures Stores(s, m, m, Decode(m).bmcFlags, Decode(m).bmcReadPtr)
  {}

  lemma StoresFlags(s: Settings, m: seq<byte>, m': seq<byte>, flags: bv32, ptr: nat, newFlags: bv32)
    requires s.Valid() && |m| >= s.config.queueSize && Stores(s, m, m', flags, ptr)
    ensures Stores(s, m, SetFlags(m', newFlags), newFlags, ptr)
  {
    SetFlagsFrame(s.config, m', newFlags);
  }

  lemma StoresReadPtr(s: Settings, m: seq<byte>, m': seq<byte>, flags: bv32, ptr: nat, newPtr: nat)
    requires s.Valid() && |m| >= s.config.queueSize && Stores(s, m, m', flags, ptr) && newPtr < 0x100_0000
    ensures Stores(s, m, SetReadPtr(m', newPtr), flags, newPtr)
  {
    SetReadPtrFrame(s.config, m', newPtr);
  }

  /** What a store keeps in view for the rest of a poll. */
  lemma StoresView(s: Settings, m: seq<byte>, m': seq<byte>, flags: bv32, ptr: nat)
    requires s.Valid() && |m| >= s.config.queueSize && Stores(s, m, m', flags, ptr)
    ensures |m'| == |m| && Queue(s.config, m') == Queue(s.config, m)
    ensures Decode(m') == Decode(m).(bmcFlags := flags, bmcReadPtr := ptr)
    ensures s.Fresh(m') == s.Fresh(m)
  {
    FreshForgets(s, m, m');
  }

  /** BMC flags after the queue part of a poll that was not cut short. */
  function FlagsAfter(h: CircularBufferHeader, statuses: seq<T.Status>): bv32 {
    if T.StopFlagReceived in statuses then WithReady(AckedFlags(h)) else AckedFlags(h)
  }

  lemma AckStores(s: Settings, mem: seq<byte>)
    requires s.Valid() && |mem| >= s.config.queueSize
    ensures Stores(s, mem, AcknowledgeOverflow(mem), AckedFlags(Decode(mem)), Decode(mem).bmcReadPtr)
  {
    hide Decode, SetFlags, Stores;
    var h := Decode(mem);
    StoresNothing(s, mem);
    StoresFlags(s, mem, mem, h.bmcFlags, h.bmcReadPtr, AckedFlags(h));
  }

  lemma CommandsPrefix(es: seq<Ring.Entry>, answers: nat -> T.BejOutcome, k: nat)
    requires k <= |es|
    ensures Commands(es, answers)[..k] == Commands(es[..k], answers)
  {}

  /** The loop, seen by how it ends: through all entries, or at the first one that throws. */
  lemma DecodeAllCases(
      s: Settings, mem: seq<byte>, t: T.State, ueLog: Option<seq<byte>>, es: seq<Ring.Entry>,
      answers: nat -> T.BejOutcome)
    requires s.Valid() && |mem| >= s.config.queueSize && t.Wide()
    ensures
      var p := DecodeAll(s, mem, t, ueLog, es, answers);
      var k := |p.statuses|;
      p.ueLog == ueLog && (p.reinitialized <==> !T.Completes(t, Commands(es, answers))) &&
      k <= |es| && T.Run(t, Commands(es[..k], answers)) == T.Outcome(p.transfer, p.statuses) &&
      (p.reinitialized ==>
         k < |es| && p.entries == es[..k + 1] && p.mem == s.Fresh(mem) &&
         T.Decode(p.transfer, Commands(es, answers)[k]).Failure?) &&
      (!p.reinitialized ==>
         k == |es| && p.entries == es &&
         p.mem == if T.StopFlagReceived in p.statuses then SetReady(mem) else mem)
  {
    hide T.Run, T.Decode, SetReady, Settings.Fresh, Commands;
    var cs := Commands(es, answers);
    var o := T.Run(t, cs);
    T.RunStops(t, cs);
    CommandsPrefix(es, answers, |o.statuses|);
    if |o.statuses| == |es| {
      assert es[..|es|] == es;
    }
  }

  /** The drain succeeds but decoding one of its entries throws. */
  predicate Throws(s: Settings, mem: seq<byte>, t: T.State, answers: nat -> T.BejOutcome)
    requires s.Valid() && |mem| >= s.config.queueSize && t.Wide()
  {
    var d := ReadLogs(s.config, mem);
    d.error.None? && !T.Completes(t, Commands(d.entries, answers))
  }

  /**
   The first k drained entries were decoded, and the one after them threw: it was handed to the
   decoder, the ones behind it were not.
   */
  ghost predicate StoppedAt(
      s: Settings, mem: seq<byte>, t: T.State, answers: nat -> T.BejOutcome, p: Polled, k: nat)
    requires s.Valid() && |mem| >= s.config.queueSize && t.Wide()
  {
    var es := ReadLogs(s.config, mem).entries;
    k < |es| && |p.statuses| == k && p.entries == es[..k + 1] &&
    T.Run(t, Commands(es[..k], answers)) == T.Outcome(p.transfer, p.statuses) &&
    T.Decode(p.transfer, Commands(es, answers)[k]).Failure?
  }

  /** The queue part of a poll on any region the daemon keeps. */
  lemma QueuePolled(s: Settings, mem: seq<byte>, t: T.State, ueLog: Option<seq<byte>>, answers: nat -> T.BejOutcome)
    requires Invariant(s, mem) && t.Wide()
    ensures
      var p := PollQueue(s, mem, t, ueLog, answers);
      p.ueLog == ueLog &&
      (p.reinitialized <==> ReadLogs(s.config, mem).error.Some? || Throws(s, mem, t, answers)) &&
      (p.reinitialized ==> p.mem == s.Fresh(mem)) &&
      (ReadLogs(s.config, mem).error.Some? ==> p == Reinitialize(s, mem, t, ueLog)) &&
      (Throws(s, mem, t, answers) ==> StoppedAt(s, mem, t, answers, p, |p.statuses|)) &&
      (!p.reinitialized ==>
        var h := Decode(mem);
        ReadLogs(s.config, mem) == Ring.Drained(p.entries, None, h.biosWritePtr) &&
        Stores(s, mem, p.mem, FlagsAfter(h, p.statuses), h.biosWritePtr) &&
        h.biosWritePtr < s.config.MaxOffset() && |p.statuses| == |p.entries| &&
        T.Run(t, Commands(p.entries, answers)) == T.Outcome(p.transfer, p.statuses))
  {
    hide Decode, SetFlags, SetReadPtr, Queue, Ring.ReadLogs, T.Run, T.Decode, Stores, Differ, AckedFlags, WithReady;
    hide DecodeAll, Settings.Fresh, Commands, T.Completes;
    var h, acked := Decode(mem), AcknowledgeOverflow(mem);
    var flags := AckedFlags(h);
    AckStores(s, mem);
    StoresView(s, mem, acked, flags, h.bmcReadPtr);
    var d := ReadLogs(s.config, mem);
    Ring.DrainBounds(Queue(s.config, mem), h.bmcReadPtr, h.biosWritePtr);
    if d.error.None? {
      var read := SetReadPtr(acked, d.ptr);
      StoresReadPtr(s, mem, acked, flags, h.bmcReadPtr, d.ptr);
      StoresView(s, mem, read, flags, d.ptr);
      StoresFlags(s, mem, read, flags, d.ptr, WithReady(flags));
      DecodeAllCases(s, read, t, ueLog, d.entries, answers);
      assert d.entries[..|d.entries|] == d.entries;
    }
  }

  // ----- the whole poll -----

  /** The UE log this poll finds unread. */
  function UnreadUeLog(s: Settings, mem: seq<byte>): (log: Option<seq<byte>>)
    requires s.Valid() && |mem| >= s.config.queueSize
  {
    if s.config.ueRegionSize > 0 && Differ(Decode(mem), UE_SWITCH) then
      Some(mem[HEADER_SIZE..HEADER_SIZE + s.config.ueRegionSize])
    else None
  }

  /** The UE log, if any, is refused by the decoder, or the storer throws over it. */
  predicate UeRefused(s: Settings, mem: seq<byte>, t: T.State, answers: Answers)
    requires s.Valid() && |mem| >= s.config.queueSize
  {
    UnreadUeLog(s, mem).Some? && T.OperationInit(t.dicts, UnreadUeLog(s, mem).value, answers.ue) != Success(T.Ok)
  }

  /** BMC flags after an uninterrupted poll. */
  function FlagsPolled(s: Settings, mem: seq<byte>, statuses: seq<T.Status>): bv32
    requires s.Valid() && |mem| >= s.config.queueSize
  {
    var h := Decode(mem);
    FlagsAfter(if UnreadUeLog(s, mem).Some? then h.(bmcFlags := Toggled(h.bmcFlags)) else h, statuses)
  }

  /** What this poll throws over while decoding the queue; the UE log does not change what it finds there. */
  predicate PollThrows(s: Settings, mem: seq<byte>, t: T.State, answers: Answers)
    requires s.Valid() && |mem| >= s.config.queueSize && t.Wide()
  {
    !UeRefused(s, mem, t, answers) && Throws(s, mem, t, answers.entries)
  }

  /**
   How a poll can end.  It re-initializes the buffer exactly when the UE log is refused, the drain
   fails, or decoding an entry throws; then the region is the initial header followed by zeros.  In
   the first two cases nothing was decoded; in the third exactly the entries before the first
   throwing one were.  Otherwise all entries of the drained segment were decoded, in ring order,
   and only the BMC's flags and read pointer changed.
   */
  lemma PollOutcome(s: Settings, mem: seq<byte>, t: T.State, answers: Answers)
    requires Invariant(s, mem) && t.Wide()
    ensures
      var p, d := Poll(s, mem, t, answers), ReadLogs(s.config, mem);
      Invariant(s, p.mem) && p.ueLog == UnreadUeLog(s, mem) &&
      (p.reinitialized <==> UeRefused(s, mem, t, answers) || d.error.Some? || PollThrows(s, mem, t, answers)) &&
      (p.reinitialized ==> p.mem == s.Fresh(mem)) &&
      (UeRefused(s, mem, t, answers) || d.error.Some? ==> p.transfer == t && p.entries == [] && p.statuses == []) &&
      (PollThrows(s, mem, t, answers) ==> StoppedAt(s, mem, t, answers.entries, p, |p.statuses|)) &&
      (!p.reinitialized ==>
        var w := Decode(mem).biosWritePtr;
        d == Ring.Drained(p.entries, None, w) &&
        Stores(s, mem, p.mem, FlagsPolled(s, mem, p.statuses), w) && w < s.config.MaxOffset() &&
        |p.statuses| == |p.entries| &&
        T.Run(t, Commands(p.entries, answers.entries)) == T.Outcome(p.transfer, p.statuses))
  {
    hide Decode, SetFlags, Queue, Ring.ReadLogs, T.Run, T.Decode, T.OperationInit, Stores, Differ, FlagsAfter, Toggled;
    hide Settings.Fresh, Commands, T.Completes, PollQueue;
    var h, log := Decode(mem), UnreadUeLog(s, mem);
    FreshDecodes(s, mem);
    assert UeLog(mem) == Success(if log.Some? then log.value else []);
    if !UeRefused(s, mem, t, answers) {
      var from := if log.Some? then ToggleUeSwitch(mem) else mem;
      var flags := if log.Some? then Toggled(h.bmcFlags) else h.bmcFlags;
      StoresNothing(s, mem);
      StoresFlags(s, mem, mem, h.bmcFlags, h.bmcReadPtr, flags);
      assert Stores(s, mem, from, flags, h.bmcReadPtr);
      StoresView(s, mem, from, flags, h.bmcReadPtr);
      QueuePolled(s, from, t, log, answers.entries);
      var p := Poll(s, mem, t, answers);
      if !p.reinitialized {
        StoresTrans(s, mem, from, p.mem, flags, h.bmcReadPtr, FlagsPolled(s, mem, p.statuses), h.biosWritePtr);
        StoresView(s, mem, p.mem, FlagsPolled(s, mem, p.statuses), h.biosWritePtr);
      }
    }
  }

  /** A UE log is acceptable exactly if, decoded as a command of type 2, it is answered Ok. */
  lemma UeRefusedExactly(s: Settings, mem: seq<byte>, t: T.State, answers: Answers)
    requires s.Valid() && |mem| >= s.config.queueSize && t.Wide()
    ensures
      UeRefused(s, mem, t, answers) <==>
        UnreadUeLog(s, mem).Some? &&
        T.Decode(t, T.Command(2, UnreadUeLog(s, mem).value, answers.ue)) != Success(T.Reply(t, T.Ok))
  {
    hide T.OperationInit, UnreadUeLog;
  }

  /** A queue pass over a header that does not announce the build's sizes, or over pointers outside the ring. */
  lemma CorruptQueue(s: Settings, mem: seq<byte>, t: T.State, ueLog: Option<seq<byte>>, answers: nat -> T.BejOutcome)
    requires s.Valid() && |mem| >= s.config.queueSize && t.Wide()
    requires
      var h := Decode(mem);
      !SizesMatch(s.config, h) || h.bmcReadPtr > s.config.MaxOffset() || h.biosWritePtr > s.config.MaxOffset()
    ensures
      var p := PollQueue(s, mem, t, ueLog, answers);
      p.reinitialized && p.mem == s.Fresh(mem) && p.transfer == t && p.entries == [] && p.statuses == []
  {
    hide Decode, SetFlags, Ring.Drain, T.Run, Commands, Settings.Fresh, Stores, Differ, AckedFlags, DecodeAll;
    var h := Decode(mem);
    AckStores(s, mem);
    StoresView(s, mem, AcknowledgeOverflow(mem), AckedFlags(h), h.bmcReadPtr);
    if SizesMatch(s.config, h) {
      Ring.PointerReasons(Queue(s.config, mem), h.bmcReadPtr, h.biosWritePtr);
    }
  }

  /** Such a region is re-initialized by the next poll, whatever else it holds, and nothing is decoded. */
  lemma CorruptIsReinitialized(s: Settings, mem: seq<byte>, t: T.State, answers: Answers)
    requires s.Valid() && |mem| >= s.config.queueSize && t.Wide()
    requires
      var h := Decode(mem);
      !SizesMatch(s.config, h) || h.bmcReadPtr > s.config.MaxOffset() || h.biosWritePtr > s.config.MaxOffset()
    ensures
      var p := Poll(s, mem, t, answers);
      p.reinitialized && p.mem == s.Fresh(mem) && p.transfer == t && p.entries == [] && p.statuses == []
  {
    hide Decode, SetFlags, T.OperationInit, Settings.Fresh, Stores, Toggled, PollQueue, UeLog;
    var h, log := Decode(mem), UeLog(mem);
    var f := Toggled(h.bmcFlags);
    StoresNothing(s, mem);
    StoresFlags(s, mem, mem, h.bmcFlags, h.bmcReadPtr, f);
    StoresView(s, mem, ToggleUeSwitch(mem), f, h.bmcReadPtr);
    CorruptQueue(s, mem, t, None, answers.entries);
    if log.Success? {
      CorruptQueue(s, ToggleUeSwitch(mem), t, Some(log.value), answers.entries);
    }
  }

  /** Every drained entry took effect, or none did. */
  ghost predicate AllOrNothing(s: Settings, mem: seq<byte>, t: T.State, answers: Answers)
    requires s.Valid() && |mem| >= s.config.queueSize && t.Wide()
  {
    var p, d := Poll(s, mem, t, answers), ReadLogs(s.config, mem);
    (p.statuses == [] && p.transfer == t) || (d.error.None? && |p.statuses| == |d.entries|)
  }

  /** The drain succeeds, and an entry other than its first is the first one whose decoding throws. */
  ghost predicate ThrowsLater(s: Settings, mem: seq<byte>, t: T.State, answers: nat -> T.BejOutcome)
    requires s.Valid() && |mem| >= s.config.queueSize && t.Wide()
  {
    var d := ReadLogs(s.config, mem);
    d.error.None? &&
    exists k: nat {:trigger d.entries[..k]} ::
      0 < k < |d.entries| && T.Completes(t, Commands(d.entries[..k], answers)) &&
      T.Decode(T.Run(t, Commands(d.entries[..k], answers)).state, Commands(d.entries, answers)[k]).Failure?
  }

  /** A poll is all or nothing exactly if no entry behind the first one is the first to throw. */
  lemma PollIsAtomic(s: Settings, mem: seq<byte>, t: T.State, answers: Answers)
    requires Invariant(s, mem) && t.Wide()
    ensures AllOrNothing(s, mem, t, answers) <==>
              UeRefused(s, mem, t, answers) || !ThrowsLater(s, mem, t, answers.entries)
  {
    hide Decode, Ring.ReadLogs, T.Run, T.Decode, T.OperationInit, Stores, Poll, UeRefused, Commands, Settings.Fresh;
    PollOutcome(s, mem, t, answers);
    var p, d := Poll(s, mem, t, answers), ReadLogs(s.config, mem);
    var cs := Commands(d.entries, answers.entries);
    if PollThrows(s, mem, t, answers) {
      var k := |p.statuses|;
      CommandsPrefix(d.entries, answers.entries, k);
      FirstThrow(t, cs, k);
      if k > 0 {
        assert T.Completes(t, Commands(d.entries[..k], answers.entries));
      } else {
        assert d.entries[..0] == [];
        T.RunNil(t);
        assert Commands([], answers.entries) == [];
      }
    }
    if d.error.None? && ThrowsLater(s, mem, t, answers.entries) {
      var k: nat :| 0 < k < |d.entries| && T.Completes(t, Commands(d.entries[..k], answers.entries)) &&
        T.Decode(T.Run(t, Commands(d.entries[..k], answers.entries)).state, cs[k]).Failure?;
      CommandsPrefix(d.entries, answers.entries, k);
      FirstThrow(t, cs, k);
    }
  }

  /** A run whose first k commands complete and whose next one throws stops there. */
  lemma FirstThrow(t: T.State, cs: seq<T.Command>, k: nat)
    requires t.Wide() && k < |cs| && T.Completes(t, cs[..k]) && T.Decode(T.Run(t, cs[..k]).state, cs[k]).Failure?
    ensures T.Run(t, cs) == T.Run(t, cs[..k])
  {
    hide T.Run, T.Decode;
    var a, b, c := cs[..k], cs[k + 1..], cs[k];
    T.RunSnoc(t, a, c);
    T.RunConcat(t, a + [c], b);
    assert a + [c] + b == cs;
  }

  lemma StoresTrans(s: Settings, a: seq<byte>, b: seq<byte>, c: seq<byte>, f: bv32, p: nat, g: bv32, r: nat)
    requires s.Valid() && |a| >= s.config.queueSize && Stores(s, a, b, f, p) && Stores(s, b, c, g, r)
    ensures Stores(s, a, c, g, r)
  {}
}
