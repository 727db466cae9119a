/** A poll without BIOS steps in between, as one of the runs of module Concurrent. */
module PollSteps {
  import opened Bytes
  import opened Header
  import opened Wrappers
  import opened Buffer
  import opened Polling
  import opened Concurrent
  import Ring
  import T = Transfer

  lemma {:induction false} RunsConcat(s: Settings, x: World, a: seq<Step>, y: World, b: seq<Step>, z: World)
    requires Runs(s, x, a, y) && Runs(s, y, b, z)
    ensures Runs(s, x, a + b, z)
    decreases |a|
  {
    hide Enabled, Do;
    if a == [] {
      assert a + b == b;
    } else {
      assert (a + b)[1..] == a[1..] + b;
      RunsConcat(s, Do(s, x, a[0]), a[1..], y, b, z);
    }
  }

  lemma RunsOne(s: Settings, x: World, step: Step)
    requires Enabled(s, x, step)
    ensures Runs(s, x, [step], Do(s, x, step))
  {
    hide Enabled, Do;
    assert [step][1..] == [];
  }

  lemma RunsMore(s: Settings, x: World, a: seq<Step>, y: World, step: Step)
    requires Runs(s, x, a, y) && Enabled(s, y, step)
    ensures Runs(s, x, a + [step], Do(s, y, step))
  {
    hide Enabled, Do, Runs;
    RunsOne(s, y, step);
    RunsConcat(s, x, a, y, [step], Do(s, y, step));
  }

  // ----- initialize -----

  /** mem with its first i bytes zeroed. */
  function Zeroed(mem: seq<byte>, i: nat): (m: seq<byte>)
    requires i <= |mem|
    ensures |m| == |mem|
  {
    seq(i, _ => 0) + mem[i..]
  }

  lemma ZeroMore(mem: seq<byte>, i: nat)
    requires i < |mem|
    ensures Zeroed(mem, i)[i := 0] == Zeroed(mem, i + 1)
  {}

  lemma {:induction false} ZeroRun(s: Settings, x: World, i: nat) returns (schedule: seq<Step>, y: World)
    requires s.Valid() && |x.mem| >= s.config.queueSize && x.pc == Zeroing(0) && i < s.config.queueSize
    ensures Runs(s, x, schedule, y) && y == x.(mem := Zeroed(x.mem, i), pc := Zeroing(i))
  {
    if i == 0 {
      schedule, y := [], x;
      assert Zeroed(x.mem, 0) == x.mem;
    } else {
      schedule, y := ZeroRun(s, x, i - 1);
      RunsMore(s, x, schedule, y, ZeroByte);
      ZeroMore(x.mem, i - 1);
      schedule, y := schedule + [ZeroByte], Do(s, y, ZeroByte);
    }
  }

  lemma StoreMore(m: seq<byte>, e: seq<byte>, i: nat)
    requires i < |e| <= |m|
    ensures (e[..i] + m[i..])[i := e[i]] == e[..i + 1] + m[i + 1..]
  {}

  /** What the header loop does to the rest of the world up to its i-th byte. */
  lemma {:induction false} StoreRun(s: Settings, x: World, i: nat) returns (schedule: seq<Step>, y: World)
    requires s.Valid() && |x.mem| >= s.config.queueSize && x.pc == Storing(0) && i < HEADER_SIZE
    ensures Runs(s, x, schedule, y) && y.pc == Storing(i) && y.posted == x.posted && y.handed == x.handed
    ensures y.mem == Encode(s.FreshHeader())[..i] + x.mem[i..]
  {
    hide Encode, Settings.FreshHeader;
    var e := Encode(s.FreshHeader());
    if i == 0 {
      schedule, y := [], x;
      assert e[..0] + x.mem[0..] == x.mem;
    } else {
      schedule, y := StoreRun(s, x, i - 1);
      RunsMore(s, x, schedule, y, HeaderByte);
      StoreMore(x.mem, e, i - 1);
      schedule, y := schedule + [HeaderByte], Do(s, y, HeaderByte);
    }
  }

  /** initialize, left alone: the fresh region, and the same record of posted and handed logs. */
  lemma InitializeRun(s: Settings, x: World) returns (schedule: seq<Step>, y: World)
    requires s.Valid() && |x.mem| >= s.config.queueSize && x.pc == Zeroing(0)
    ensures Runs(s, x, schedule, y) && y.pc == Idle && y.posted == x.posted && y.handed == x.handed
    ensures y.mem == s.Fresh(x.mem) && y.cached == s.FreshHeader()
  {
    hide Encode, Settings.FreshHeader, Runs;
    var n, e := s.config.queueSize, Encode(s.FreshHeader());
    schedule, y := ZeroRun(s, x, n - 1);
    RunsMore(s, x, schedule, y, ZeroByte);
    ZeroMore(x.mem, n - 1);
    schedule, y := schedule + [ZeroByte], Do(s, y, ZeroByte);
    ghost var more, z := StoreRun(s, y, HEADER_SIZE - 1);
    RunsConcat(s, x, schedule, y, more, z);
    RunsMore(s, x, schedule + more, z, HeaderByte);
    StoreMore(y.mem, e, HEADER_SIZE - 1);
    FreshBytes(s, x.mem);
    schedule, y := schedule + more + [HeaderByte], Do(s, z, HeaderByte);
  }

  lemma FreshBytes(s: Settings, mem: seq<byte>)
    requires s.Valid() && |mem| >= s.config.queueSize
    ensures
      var e := Encode(s.FreshHeader());
      e[..HEADER_SIZE] + Zeroed(mem, s.config.queueSize)[HEADER_SIZE..] == s.Fresh(mem)
  {
    hide Encode, Settings.FreshHeader;
  }

  // ----- the try block -----

  /** The part before the queue: on to the overflow check, or to the catch branch. */
  lemma UeRun(s: Settings, x: World, ok: bool) returns (schedule: seq<Step>, y: World)
    requires Invariant(s, x.mem) && x.pc == Idle
    ensures Runs(s, x, schedule, y) && y.posted == x.posted
    ensures
      match UnreadUeLog(s, x.mem)
      case None => y.handed == x.handed && y.mem == x.mem && y.pc == BeforeAck
      case Some(log) =>
        |y.handed| == |x.handed| + 1 && x.handed <= y.handed && y.handed[|x.handed|].log == log &&
        if ok then y.mem == ToggleUeSwitch(x.mem) && y.pc == BeforeAck else y.mem == x.mem && y.pc == Zeroing(0)
  {
    hide Decode, SetFlags, Runs, Toggled, Differ;
    RunsOne(s, x, ReadForUe);
    schedule, y := [ReadForUe], Do(s, x, ReadForUe);
    if UnreadUeLog(s, x.mem).Some? {
      var z := Do(s, y, DecodeUe(ok));
      RunsMore(s, x, schedule, y, DecodeUe(ok));
      schedule, y := schedule + [DecodeUe(ok)], z;
      if ok {
        RunsMore(s, x, schedule, y, ToggleUe);
        schedule, y := schedule + [ToggleUe], Do(s, y, ToggleUe);
      }
    }
  }

  /** Acknowledging an overflow and reading the header for the drain. */
  lemma AckRun(s: Settings, x: World) returns (schedule: seq<Step>, y: World)
    requires s.Valid() && |x.mem| >= s.config.queueSize && x.pc == BeforeAck
    ensures Runs(s, x, schedule, y) && y.pc == Draining && y.posted == x.posted && y.handed == x.handed
    ensures y.mem == AcknowledgeOverflow(x.mem) && y.cached == Decode(y.mem)
  {
    hide Decode, SetFlags, Runs, Differ;
    RunsOne(s, x, ReadForAck);
    schedule, y := [ReadForAck], Do(s, x, ReadForAck);
    if Differ(Decode(x.mem), OVERFLOW) {
      AcknowledgedFlags(Decode(x.mem));
      RunsMore(s, x, schedule, y, StoreAck);
      schedule, y := schedule + [StoreAck], Do(s, y, StoreAck);
    }
    RunsMore(s, x, schedule, y, ReadForDrain);
    schedule, y := schedule + [ReadForDrain], Do(s, y, ReadForDrain);
  }

  lemma AcknowledgedFlags(h: CircularBufferHeader)
    requires Differ(h, OVERFLOW)
    ensures Acknowledged(h.bmcFlags) == AckedFlags(h)
  {}

  /** Decoding the drained entries: to the end of the try block, or to the catch branch. */
  lemma DecodingRun(s: Settings, x: World, stops: bool, throws: bool) returns (schedule: seq<Step>, y: World)
    requires s.Valid() && |x.mem| >= s.config.queueSize && x.pc == Decoding
    requires x.cached.bmcFlags == Decode(x.mem).bmcFlags
    ensures Runs(s, x, schedule, y) && y.posted == x.posted && y.handed == x.handed
    ensures
      if throws then y.pc == Zeroing(0) && y.mem == x.mem
      else y.pc == Idle && y.mem == if stops then SetReady(x.mem) else x.mem
  {
    hide Decode, SetFlags, Runs, WithReady;
    if throws {
      RunsOne(s, x, DecodeThrows);
      schedule, y := [DecodeThrows], Do(s, x, DecodeThrows);
    } else if stops {
      RunsOne(s, x, StoreReady);
      var z := Do(s, x, StoreReady);
      RunsMore(s, x, [StoreReady], z, Decoded);
      schedule, y := [StoreReady] + [Decoded], Do(s, z, Decoded);
    } else {
      RunsOne(s, x, Decoded);
      schedule, y := [Decoded], Do(s, x, Decoded);
    }
  }

  /** Draining and decoding: to the end of the try block, or to the catch branch. */
  lemma DrainRun(s: Settings, x: World, ptr: nat, drains: bool, stops: bool, throws: bool)
    returns (schedule: seq<Step>, y: World)
    requires s.Valid() && |x.mem| >= s.config.queueSize && ptr < 0x100_0000
    requires x.pc == Draining && x.cached == Decode(x.mem)
    ensures Runs(s, x, schedule, y) && y.posted == x.posted && y.handed == x.handed
    ensures
      var read := SetReadPtr(x.mem, ptr);
      if drains && !throws then y.pc == Idle && y.mem == if stops then SetReady(read) else read
      else y.pc == Zeroing(0) && y.mem == read
  {
    hide Decode, SetFlags, SetReadPtr, Runs, SetReady;
    RunsOne(s, x, StorePtr(ptr));
    SetReadPtrFrame(s.config, x.mem, ptr);
    var z := Do(s, x, StorePtr(ptr));
    schedule := [StorePtr(ptr)];
    if !drains {
      RunsMore(s, x, schedule, z, DrainFails);
      schedule, y := schedule + [DrainFails], Do(s, z, DrainFails);
    } else {
      RunsMore(s, x, schedule, z, Drained);
      schedule, z := schedule + [Drained], Do(s, z, Drained);
      var more, w := DecodingRun(s, z, stops, throws);
      RunsConcat(s, x, schedule, z, more, w);
      schedule, y := schedule + more, w;
    }
  }

  /** The catch branch after any of these. */
  lemma CatchRun(s: Settings, x: World, schedule: seq<Step>, y: World, mem: seq<byte>)
    returns (all: seq<Step>, z: World)
    requires s.Valid() && |y.mem| == |mem| >= s.config.queueSize && SameOutsideBmcFields(mem, y.mem)
    requires Runs(s, x, schedule, y) && y.pc == Zeroing(0)
    ensures Runs(s, x, all, z) && z.pc == Idle && z.posted == y.posted && z.handed == y.handed
    ensures z.mem == s.Fresh(mem)
  {
    hide Runs, Settings.Fresh;
    var more, w := InitializeRun(s, y);
    RunsConcat(s, x, schedule, y, more, w);
    FreshForgets(s, mem, y.mem);
    all, z := schedule + more, w;
  }

  lemma QueueRun(
      s: Settings, x: World, t: T.State, log: Option<seq<byte>>, answers: nat -> T.BejOutcome)
    returns (schedule: seq<Step>, y: World)
    requires Invariant(s, x.mem) && t.Wide() && x.pc == BeforeAck
    ensures Runs(s, x, schedule, y) && y.pc == Idle && y.posted == x.posted && y.handed == x.handed
    ensures y.mem == PollQueue(s, x.mem, t, log, answers).mem
  {
    hide Decode, SetFlags, SetReadPtr, Runs, T.Run, Settings.Fresh, Queue, Ring.ReadLogs, SetReady, Commands;
    var acked := AcknowledgeOverflow(x.mem);
    AckStores(s, x.mem);
    AckedView(s, x.mem);
    var a, z := AckRun(s, x);
    var d := ReadLogs(s.config, acked);
    DrainedPtr(s, acked);
    var o := T.Run(t, Commands(d.entries, answers));
    var b, w := DrainRun(
      s, z, d.ptr, d.error.None?, T.StopFlagReceived in o.statuses, |o.statuses| < |d.entries|);
    RunsConcat(s, x, a, z, b, w);
    schedule, y := a + b, w;
    if w.pc == Zeroing(0) {
      SetReadPtrFrame(s.config, acked, d.ptr);
      FreshForgets(s, acked, w.mem);
      schedule, y := CatchRun(s, x, a + b, w, acked);
    }
  }

  lemma AckedView(s: Settings, mem: seq<byte>)
    requires Invariant(s, mem)
    ensures
      var acked := AcknowledgeOverflow(mem);
      Invariant(s, acked) && SizesMatch(s.config, Decode(acked)) && s.Fresh(acked) == s.Fresh(mem)
  {
    hide Decode, SetFlags, Settings.Fresh, Differ, AckedFlags;
    AckStores(s, mem);
    StoresView(s, mem, AcknowledgeOverflow(mem), AckedFlags(Decode(mem)), Decode(mem).bmcReadPtr);
  }

  lemma DrainedPtr(s: Settings, mem: seq<byte>)
    requires Invariant(s, mem)
    ensures ReadLogs(s.config, mem).ptr < 0x100_0000
  {
    hide Decode, Queue, Ring.ReadLogs;
    Ring.DrainBounds(Queue(s.config, mem), Decode(mem).bmcReadPtr, Decode(mem).biosWritePtr);
  }

  /**
   Without BIOS steps in between, the loop can do exactly what the poll function says: the same
   region, and the UE log of the poll, if any, handed on.
   */
  lemma PollIsRun(s: Settings, x: World, t: T.State, answers: Answers) returns (schedule: seq<Step>, y: World)
    requires Invariant(s, x.mem) && t.Wide() && x.pc == Idle
    ensures Runs(s, x, schedule, y) && y.pc == Idle && y.posted == x.posted
    ensures
      var p := Poll(s, x.mem, t, answers);
      y.mem == p.mem &&
      match p.ueLog
      case None => y.handed == x.handed
      case Some(log) => |y.handed| == |x.handed| + 1 && x.handed <= y.handed && y.handed[|x.handed|].log == log
  {
    hide Decode, SetFlags, Runs, T.OperationInit, Settings.Fresh, PollQueue, Toggled, Differ;
    var log := UnreadUeLog(s, x.mem);
    assert UeLog(x.mem) == Success(if log.Some? then log.value else []);
    PollOutcome(s, x.mem, t, answers);
    var a, z := UeRun(s, x, !UeRefused(s, x.mem, t, answers));
    if UeRefused(s, x.mem, t, answers) {
      schedule, y := CatchRun(s, x, a, z, x.mem);
    } else {
      ToggledInvariant(s, x.mem);
      var b, w := QueueRun(s, z, t, log, answers.entries);
      RunsConcat(s, x, a, z, b, w);
      schedule, y := a + b, w;
    }
  }

  lemma ToggledInvariant(s: Settings, mem: seq<byte>)
    requires Invariant(s, mem)
    ensures Invariant(s, ToggleUeSwitch(mem))
  {
    hide Decode, SetFlags, Toggled;
    SetFlagsFrame(s.config, mem, Toggled(Decode(mem).bmcFlags));
  }
}
