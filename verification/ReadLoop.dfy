/** The read loop over the buffer and handler objects (src/main.cpp:39-169). */
module ReadLoop {
  import opened Bytes
  import opened Header
  import opened Wrappers
  import opened Buffer
  import opened Polling
  import Ring
  import T = Transfer
  import Handshake
  import RdeHandler

  /** The mapped region is not the handler's private table. */
  ghost predicate Separate(buffer: BufferImpl, handler: RdeHandler.RdeCommandHandler) {
    buffer.data.mem as object != handler.crcTable
  }

  /**
   The for loop: decode the entries in order; every received stop flag sets the ready bit.  It is
   left at the first entry that throws.
   */
  method DecodeEntries(
      buffer: BufferImpl, handler: RdeHandler.RdeCommandHandler, entryPairs: seq<Ring.Entry>,
      answers: nat -> T.BejOutcome)
    returns (r: Result<()>)
    requires handler.Valid() && Separate(buffer, handler)
    requires buffer.data.mem.Length >= HEADER_SIZE && buffer.Coherent()
    modifies buffer, buffer.data.mem, handler, handler.dictionaryManager
    ensures handler.Valid() && buffer.Coherent()
    ensures
      var o := T.Run(old(handler.State()), Commands(entryPairs, answers));
      handler.State() == o.state && (r.Success? <==> |o.statuses| == |entryPairs|) &&
      buffer.data.mem[..] ==
        if T.StopFlagReceived in o.statuses then SetReady(old(buffer.data.mem[..])) else old(buffer.data.mem[..])
  {
    hide T.Decode, T.Run, Decode, SetFlags, WithReady, SetReady, Commands;
    hide RdeHandler.RdeCommandHandler.Valid, RdeHandler.RdeCommandHandler.State;
    ghost var was, t, cs := buffer.data.mem[..], handler.State(), Commands(entryPairs, answers);
    ghost var statuses: seq<T.Status> := [];
    T.RunNil(t);
    assert cs[..0] == [];
    for i := 0 to |entryPairs|
      invariant handler.Valid() && buffer.Coherent()
      invariant T.Run(t, cs[..i]) == T.Outcome(handler.State(), statuses) && |statuses| == i
      invariant buffer.data.mem[..] == if T.StopFlagReceived in statuses then SetReady(was) else was
    {
      var entry := entryPairs[i];
      CommandAt(entryPairs, answers, i);
      T.RunSnoc(t, cs[..i], cs[i]);
      var decoded := handler.DecodeRdeCommand(entry.body, entry.header.rdeCommandType, answers(i));
      if decoded.Failure? {
        FirstThrow(t, cs, i);
        return Failure(StorerThrew);
      }
      var rdeDecodeStatus := decoded.value;
      statuses := statuses + [rdeDecodeStatus];
      if rdeDecodeStatus == T.StopFlagReceived {
        DecodeReady(was);
        ReadyStore(buffer.data.mem[..]);
        var written := buffer.UpdateBmcFlags(WithReady(buffer.cachedBufferHeader.bmcFlags));
        if written.Failure? {
          return Failure(ShortWrite);
        }
      }
    }
    assert cs[..|cs|] == cs;
    return Success(());
  }

  lemma CommandAt(es: seq<Ring.Entry>, answers: nat -> T.BejOutcome, i: nat)
    requires i < |es|
    ensures
      var cs := Commands(es, answers);
      cs[i] == T.Command(es[i].header.rdeCommandType, es[i].body, answers(i)) &&
      cs[..i] + [cs[i]] == cs[..i + 1]
  {}

  lemma ReadyStore(mem: seq<byte>)
    requires |mem| >= HEADER_SIZE
    ensures SetReady(mem) == SetFlags(mem, WithReady(Decode(mem).bmcFlags))
    ensures Decode(SetReady(mem)) == Decode(mem).(bmcFlags := WithReady(Decode(mem).bmcFlags))
  {
    DecodeReady(mem);
  }

  /** Setting the ready bit sets bit 2 of the flags and changes no other; twice is once. */
  lemma DecodeReady(mem: seq<byte>)
    requires |mem| >= HEADER_SIZE
    ensures Decode(SetReady(mem)) == Decode(mem).(bmcFlags := WithReady(Decode(mem).bmcFlags))
    ensures
      var f, g := Decode(mem).bmcFlags, Decode(SetReady(mem)).bmcFlags;
      Has(g, 4) && AgreeOn(g, f, 0xffff_fffb)
    ensures SetReady(SetReady(mem)) == SetReady(mem)
  {
    hide Decode, WithReady, SetFlags, Has, AgreeOn;
    Handshake.DecodeStored(mem, WithReady(Decode(mem).bmcFlags));
    Handshake.ReadySetsBitTwo(Decode(mem).bmcFlags);
    var flags := Decode(mem).bmcFlags;
    DecodeWithFlags(mem, WithReady(flags));
    ReadyTwice(flags);
    SetFlagsTwice(mem, WithReady(flags), WithReady(flags));
  }

  lemma ReadyTwice(flags: bv32)
    ensures WithReady(WithReady(flags)) == WithReady(flags)
  {}

  lemma SetFlagsTwice(mem: seq<byte>, f: bv32, g: bv32)
    requires |mem| >= HEADER_SIZE
    ensures SetFlags(SetFlags(mem, f), g) == SetFlags(mem, g)
  {
    hide WordBytes;
  }

  /** After a successful drain the cached header is again the one in the region. */
  lemma DecodeReadPtrStore(c: Config, mem: seq<byte>)
    requires c.Valid() && |mem| >= c.queueSize
    ensures
      var d := ReadLogs(c, mem);
      SizesMatch(c, Decode(mem)) && d.error.None? ==>
        Decode(SetReadPtr(mem, d.ptr)) == Decode(mem).(bmcReadPtr := d.ptr)
  {
    hide Ring.Drain;
    var h, d := Decode(mem), ReadLogs(c, mem);
    if d.error.None? {
      assert d.ptr == h.biosWritePtr || d.ptr == h.bmcReadPtr;
      DecodeWithReadPtr(mem, d.ptr);
    }
  }

  /** First part of the try block: hand an unread UE log to the decoder and acknowledge it. */
  method ProcessUeLog(s: Settings, buffer: BufferImpl, handler: RdeHandler.RdeCommandHandler, ue: T.BejOutcome)
    returns (r: Result<()>)
    requires s.Valid() && buffer.config == s.config && buffer.RegionFits()
    requires handler.Valid() && Separate(buffer, handler)
    modifies buffer, buffer.data.mem, handler, handler.dictionaryManager
    ensures handler.Valid() && handler.State() == old(handler.State())
    ensures
      var mem, log := old(buffer.data.mem[..]), UeLog(old(buffer.data.mem[..]));
      if log.Failure? then r.Failure? && buffer.data.mem[..] == mem
      else if log.value == [] then r.Success? && buffer.data.mem[..] == mem
      else if T.OperationInit(old(handler.State()).dicts, log.value, ue) != Success(T.Ok) then
        r.Failure? && buffer.data.mem[..] == mem
      else r.Success? && buffer.data.mem[..] == ToggleUeSwitch(mem)
  {
    hide Decode, SetFlags, UeLog, T.OperationInit, Toggled;
    hide RdeHandler.RdeCommandHandler.Valid, RdeHandler.RdeCommandHandler.State;
    var ueLog :- buffer.ReadUeLogFromReservedRegion();
    if ueLog != [] {
      var ueDecodeStatus :- handler.DecodeRdeCommand(ueLog, T.TYPE_OPERATION_INIT, ue);
      if ueDecodeStatus != T.Ok && ueDecodeStatus != T.StopFlagReceived {
        return Failure(UeLogRefused);
      }
      var written := buffer.UpdateBmcFlags(Toggled(buffer.cachedBufferHeader.bmcFlags));
      if written.Failure? {
        return Failure(ShortWrite);
      }
    }
    return Success(());
  }

  /** Second part of the try block: acknowledge an overflow, drain the queue, decode what was drained. */
  method ProcessQueue(
      s: Settings, buffer: BufferImpl, handler: RdeHandler.RdeCommandHandler, answers: nat -> T.BejOutcome)
    returns (r: Result<()>)
    requires s.Valid() && buffer.config == s.config && buffer.RegionFits()
    requires handler.Valid() && Separate(buffer, handler)
    modifies buffer, buffer.data.mem, handler, handler.dictionaryManager
    ensures handler.Valid()
    ensures forall log: Option<seq<byte>> ::
      var p := PollQueue(s, old(buffer.data.mem[..]), old(handler.State()), log, answers);
      handler.State() == p.transfer &&
      if p.reinitialized then
        r.Failure? && SameOutsideBmcFields(old(buffer.data.mem[..]), buffer.data.mem[..])
      else
        r.Success? && buffer.data.mem[..] == p.mem && buffer.Coherent()
  {
    hide Decode, SetFlags, SetReadPtr, Queue, Ring.ReadLogs, T.Run, Differ, AckedFlags, Settings.Fresh;
    hide RdeHandler.RdeCommandHandler.Valid, RdeHandler.RdeCommandHandler.State;
    ghost var was := buffer.data.mem[..];
    SetFlagsFrame(s.config, was, AckedFlags(Decode(was)));
    var acknowledged := buffer.CheckForOverflowAndAcknowledge();
    if acknowledged.Failure? {
      return Failure(ShortRead);
    }
    ghost var acked := buffer.data.mem[..];
    AckedOutside(was, ReadLogs(s.config, acked).ptr);
    DecodeReadPtrStore(s.config, acked);
    var entryPairs :- buffer.ReadErrorLogs();
    r := DecodeEntries(buffer, handler, entryPairs, answers);
  }

  lemma ToggleOutside(mem: seq<byte>)
    requires |mem| >= HEADER_SIZE
    ensures SameOutsideBmcFields(mem, mem) && SameOutsideBmcFields(mem, ToggleUeSwitch(mem))
  {}

  lemma InitializedIsFresh(s: Settings, was: seq<byte>, broken: seq<byte>)
    requires s.Valid() && |was| == |broken| >= s.config.queueSize && SameOutsideBmcFields(was, broken)
    ensures Initialized(broken, s.FreshHeader(), s.config.queueSize) == s.Fresh(was)
    ensures Decode(s.Fresh(was)) == s.FreshHeader()
  {
    hide Decode, Initialized, SameOutsideBmcFields;
    InitializedRegion(broken, s.FreshHeader(), s.config.queueSize);
    FreshForgets(s, was, broken);
  }

  lemma PollQueueReinitializes(s: Settings, mem: seq<byte>, t: T.State, answers: nat -> T.BejOutcome)
    requires s.Valid() && |mem| >= s.config.queueSize && t.Wide()
    ensures forall log: Option<seq<byte>> {:trigger PollQueue(s, mem, t, log, answers)} ::
              PollQueue(s, mem, t, log, answers).reinitialized ==>
              PollQueue(s, mem, t, log, answers).mem == s.Fresh(mem)
  {
    hide Decode, Settings.Fresh, SameOutsideBmcFields, SetReadPtr, SetFlags;
    var acked := AcknowledgeOverflow(mem);
    var ptr := ReadLogs(s.config, acked).ptr;
    AckedOutside(mem, ptr);
    FreshForgets(s, mem, SetReadPtr(acked, ptr));
  }

  lemma AckedOutside(mem: seq<byte>, ptr: nat)
    requires |mem| >= HEADER_SIZE
    ensures
      var m := SetReadPtr(AcknowledgeOverflow(mem), ptr);
      SameOutsideBmcFields(mem, m) && SameOutsideBmcFields(mem, SetReady(m))
  {
    hide Decode;
  }

  /**
   One call of readLoop.  Any failure in the try block re-initializes the buffer; the loop goes on
   unless the timer reported an error or re-initializing failed.
   */
  method ReadLoop(
      s: Settings, buffer: BufferImpl, handler: RdeHandler.RdeCommandHandler, timerError: bool, answers: Answers)
    returns (continues: bool)
    requires s.Valid() && buffer.config == s.config && buffer.RegionFits()
    requires handler.Valid() && Separate(buffer, handler)
    modifies buffer, buffer.data.mem, handler, handler.dictionaryManager
    ensures handler.Valid() && continues == !timerError
    ensures
      var mem, t := old(buffer.data.mem[..]), old(handler.State());
      if timerError then buffer.data.mem[..] == mem && handler.State() == t
      else
        var p := Poll(s, mem, t, answers);
        buffer.data.mem[..] == p.mem && handler.State() == p.transfer && buffer.Coherent()
  {
    hide Decode, SetFlags, UeLog, PollQueue, T.OperationInit, Initialized;
    hide RdeHandler.RdeCommandHandler.Valid, RdeHandler.RdeCommandHandler.State;
    if timerError {
      return false;
    }
    ghost var was, t := buffer.data.mem[..], handler.State();
    var r := ProcessUeLog(s, buffer, handler, answers.ue);
    ghost var toggled := buffer.data.mem[..];
    ghost var p := PollQueue(s, toggled, t, None, answers.entries);
    if r.Success? {
      r := ProcessQueue(s, buffer, handler, answers.entries);
    }
    if r.Failure? {
      ghost var broken := buffer.data.mem[..];
      var reinit := buffer.Initialize(s.bmcInterfaceVersion, s.config.queueSize, s.config.ueRegionSize, s.magicNumber);
      if reinit.Failure? {
        return false;
      }
      ToggleOutside(was);
      assert SameOutsideBmcFields(was, toggled) && SameOutsideBmcFields(toggled, broken);
      InitializedIsFresh(s, was, broken);
      PollQueueReinitializes(s, toggled, t, answers.entries);
    }
    return true;
  }
}
