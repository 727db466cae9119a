/**
 The formats and answers in numbers: which bytes of a command, an entry header or the buffer header
 mean what, and what each value of them leads to (include/buffer.hpp:25-83,
 include/rde/rde_handler.hpp:22-113).
 */
module Wire {
  import opened Bytes
  import opened Bits
  import opened Header
  import opened Wrappers
  import opened Buffer
  import opened Dictionaries
  import Concurrent
  import Crc
  import Ring
  import T = Transfer

  // ----- little-endian fields -----

  lemma TwoByteField(s: seq<byte>)
    requires |s| == 2
    ensures LeNat(s) == s[0] as nat + 256 * s[1] as nat
  {
    var t := s[1..];
    assert t[0] == s[1] && t[1..] == [];
    assert LeNat(t) == s[1] as nat;
  }

  lemma ThreeByteField(s: seq<byte>)
    requires |s| == 3
    ensures LeNat(s) == s[0] as nat + 256 * s[1] as nat + 65536 * s[2] as nat
  {
    TwoByteField(s[1..]);
  }

  lemma FourByteField(s: seq<byte>)
    requires |s| == 4
    ensures LeNat(s) == s[0] as nat + 256 * s[1] as nat + 65536 * s[2] as nat + 16777216 * s[3] as nat
  {
    ThreeByteField(s[1..]);
  }

  /** Bit 8i + k of a word is bit k of its i-th byte. */
  lemma WordField(s: seq<byte>)
    requires |s| == 4
    ensures Word(s) & 0xff == s[0] as bv32 && (Word(s) >> 8) & 0xff == s[1] as bv32
    ensures (Word(s) >> 16) & 0xff == s[2] as bv32 && Word(s) >> 24 == s[3] as bv32
  {}

  lemma EntryHeaderBytes(s: seq<byte>)
    requires |s| == 6
    ensures
      Ring.DecodeHeader(s) ==
      Ring.QueueEntryHeader(s[0] as nat + 256 * s[1] as nat, s[2] as nat + 256 * s[3] as nat, s[4], s[5])
  {
    hide LeNat;
    TwoByteField(s[..2]);
    TwoByteField(s[2..4]);
  }

  lemma BufferHeaderBytes(s: seq<byte>)
    requires |s| >= 0x30
    ensures
      var h := Decode(s);
      h.queueSize == s[0x18] as nat + 256 * s[0x19] as nat + 65536 * s[0x1a] as nat &&
      h.ueRegionSize == s[0x1b] as nat + 256 * s[0x1c] as nat &&
      h.bmcReadPtr == s[0x21] as nat + 256 * s[0x22] as nat + 65536 * s[0x23] as nat &&
      h.biosWritePtr == s[0x2c] as nat + 256 * s[0x2d] as nat + 65536 * s[0x2e] as nat &&
      h.bmcFlags & 0xff == s[0x1d] as bv32 && h.biosFlags & 0xff == s[0x28] as bv32 &&
      h.magicNumber == s[8..0x18]
  {
    hide LeNat, Word;
    ThreeByteField(s[0x18..0x1b]);
    TwoByteField(s[0x1b..0x1d]);
    ThreeByteField(s[0x21..0x24]);
    ThreeByteField(s[0x2c..0x2f]);
    WordField(s[0x1d..0x21]);
    WordField(s[0x28..0x2c]);
  }

  /** The switch of a UE log is bit 0, that of an overflow bit 1. */
  lemma SwitchMasks(h: CircularBufferHeader)
    ensures Differ(h, UE_SWITCH) <==> h.biosFlags & 1 != h.bmcFlags & 1
    ensures Differ(h, OVERFLOW) <==> h.biosFlags & 2 != h.bmcFlags & 2
  {
    DifferentBits(h.biosFlags, h.bmcFlags);
  }

  lemma DifferentBits(a: bv32, b: bv32)
    ensures (a ^ b) & 1 != 0 <==> a & 1 != b & 1
    ensures (a ^ b) & 2 != 0 <==> a & 2 != b & 2
  {}

  /** The UE log of a region, by its bytes: size at 0x1b, switches at 0x1d and 0x28, log from 0x30 on. */
  lemma UeLogBytes(mem: seq<byte>)
    requires |mem| >= 0x30
    ensures
      var size := mem[0x1b] as nat + 256 * mem[0x1c] as nat;
      UeLog(mem) ==
      if size == 0 || (mem[0x28] ^ mem[0x1d]) & 1 == 0 then Success([])
      else if 0x30 + size > |mem| then Failure(ShortRead)
      else Success(mem[0x30..0x30 + size])
  {
    hide Decode, Differ, LeNat, Word;
    BufferHeaderBytes(mem);
    Concurrent.DifferIsUeDiffer(mem);
    OneBit(mem[0x28] ^ mem[0x1d]);
  }

  lemma OneBit(b: byte)
    ensures b & 1 == 0 || b & 1 == 1
  {}

  // ----- multi-part commands -----

  /** A command long enough for the n data bytes it announces. */
  predicate Announces(cmd: seq<byte>, n: nat) {
    |cmd| >= 10 && n == LeNat(cmd[6..10]) && |cmd| >= 10 + n
  }

  lemma ShortMultipart(s: T.State, cmd: seq<byte>, bej: T.BejOutcome)
    requires s.Wide() && (|cmd| < 10 || |cmd| < 10 + LeNat(cmd[6..10]))
    ensures T.Decode(s, T.Command(1, cmd, bej)) == Success(T.Reply(s, T.InvalidCommand))
  {
    hide LeNat;
  }

  /** Flag 0 is answered Ok, opens the transfer and stores exactly the data. */
  lemma StartCommand(s: T.State, cmd: seq<byte>, n: nat, bej: T.BejOutcome)
    requires s.Wide() && Announces(cmd, n) && cmd[1] == 0
    ensures
      var id, data := LeNat(cmd[2..6]), cmd[10..10 + n];
      T.Decode(s, T.Command(1, cmd, bej)) ==
      Success(T.Reply(
        T.State(T.StartRecvd, id, Crc.Register(Ones(32), data), s.dicts[id := DictionaryEntry(false, data)]), T.Ok))
  {
    hide LeNat, Crc.Register;
  }

  /** A Middle or End can be applied: its dictionary is new, or is the one being received and known. */
  predicate Continues(s: T.State, id: nat) {
    s.flagState == T.StartRecvd && (s.prevId != id || id in s.dicts)
  }

  /** The dictionaries after more data: added to the current one, or to another one after completing that. */
  function MoreData(s: T.State, id: nat, data: seq<byte>, complete: bool): Store
    requires Continues(s, id)
  {
    if s.prevId == id then s.dicts[id := DictionaryEntry(complete, s.dicts[id].data + data)]
    else if s.prevId in s.dicts then
      s.dicts[s.prevId := DictionaryEntry(true, s.dicts[s.prevId].data)][id := DictionaryEntry(complete, data)]
    else s.dicts[id := DictionaryEntry(complete, data)]
  }

  /** Flag 1. */
  lemma MiddleCommand(s: T.State, cmd: seq<byte>, n: nat, bej: T.BejOutcome)
    requires s.Wide() && Announces(cmd, n) && cmd[1] == 1
    ensures
      var id, data := LeNat(cmd[2..6]), cmd[10..10 + n];
      T.Decode(s, T.Command(1, cmd, bej)) ==
      Success(
        if s.flagState == T.Idle then T.Reply(s.(prevId := id), T.InvalidPktOrder)
        else if s.prevId == id && id !in s.dicts then T.Reply(s.(prevId := id), T.DictionaryError)
        else T.Reply(T.State(T.StartRecvd, id, Crc.Register(s.crc, data), MoreData(s, id, data, false)), T.Ok))
  {
    hide LeNat, Crc.Register;
  }

  /** The dictionaries with nothing complete. */
  ghost predicate NoneComplete(m: Store, was: Store) {
    m.Keys == was.Keys && forall id :: id in m ==> m[id] == DictionaryEntry(false, was[id].data)
  }

  /** What the four bytes behind the data decide: t is the state with the data, sum its checksum. */
  ghost predicate Closes(r: Result<T.Reply>, cmd: seq<byte>, n: nat, t: T.State, sum: nat)
    requires Announces(cmd, n)
  {
    r.Success? &&
    var a := r.value;
    (|cmd| != 14 + n ==> a == T.Reply(t, T.InvalidCommand)) &&
    (|cmd| == 14 + n && LeNat(cmd[10 + n..14 + n]) == sum ==> a == T.Reply(t, T.StopFlagReceived)) &&
    (|cmd| == 14 + n && LeNat(cmd[10 + n..14 + n]) != sum ==>
      a.status == T.InvalidChecksum && a.state == t.(dicts := a.state.dicts) && NoneComplete(a.state.dicts, t.dicts))
  }

  lemma CloseFinishes(s: T.State, cmd: seq<byte>, n: nat)
    requires s.Wide() && Announces(cmd, n)
    ensures Closes(Success(T.Finish(s, cmd[10 + n..])), cmd, n, s, Crc.Checksum(s.crc))
  {
    hide LeNat, Crc.Checksum;
    if |cmd| == 14 + n {
      assert cmd[10 + n..] == cmd[10 + n..14 + n];
    }
  }

  lemma ClosesMoved(a: T.Reply, cmd: seq<byte>, n: nat, t: T.State, sum: nat, id: nat)
    requires Announces(cmd, n) && Closes(Success(a), cmd, n, t, sum)
    ensures Closes(Success(T.Reply(a.state.(prevId := id), a.status)), cmd, n, t.(prevId := id), sum)
  {
    hide LeNat;
  }

  /** Flag 2. */
  lemma EndCommand(s: T.State, cmd: seq<byte>, n: nat, bej: T.BejOutcome)
    requires s.Wide() && Announces(cmd, n) && cmd[1] == 2
    ensures
      var id, data := LeNat(cmd[2..6]), cmd[10..10 + n];
      var r := T.Decode(s, T.Command(1, cmd, bej));
      if s.flagState == T.Idle then r == Success(T.Reply(s.(prevId := id), T.InvalidPktOrder))
      else if s.prevId == id && id !in s.dicts then
        r == Success(T.Reply(s.(prevId := id, flagState := T.Idle), T.DictionaryError))
      else
        var crc := Crc.Register(s.crc, data);
        Closes(r, cmd, n, T.State(T.Idle, id, crc, MoreData(s, id, data, true)), Crc.Checksum(crc))
  {
    hide LeNat, Crc.Register, Crc.Checksum, T.Finish, Closes;
    var id, data := LeNat(cmd[2..6]), cmd[10..10 + n];
    if Continues(s, id) {
      var t := T.State(T.Idle, s.prevId, Crc.Register(s.crc, data), MoreData(s, id, data, true));
      var c := T.Chunk(2, id, data, cmd[10 + n..]);
      assert T.ParseMultipart(cmd) == Some(c);
      assert t.dicts == Complete(MoreData(s, id, data, false), id);
      assert T.HandleEnd(s, c) == T.Finish(t, c.trailer);
      CloseFinishes(t, cmd, n);
      ClosesMoved(T.Finish(t, cmd[10 + n..]), cmd, n, t, Crc.Checksum(t.crc), id);
    }
  }

  /** Flag 3. */
  lemma StartAndEndCommand(s: T.State, cmd: seq<byte>, n: nat, bej: T.BejOutcome)
    requires s.Wide() && Announces(cmd, n) && cmd[1] == 3
    ensures
      var id, data := LeNat(cmd[2..6]), cmd[10..10 + n];
      var crc := Crc.Register(Ones(32), data);
      Closes(
        T.Decode(s, T.Command(1, cmd, bej)), cmd, n,
        T.State(T.Idle, id, crc, s.dicts[id := DictionaryEntry(true, data)]), Crc.Crc32(data))
  {
    hide LeNat, Crc.Register, Crc.Checksum, T.Finish, Closes;
    var id, data := LeNat(cmd[2..6]), cmd[10..10 + n];
    var t := T.State(T.Idle, s.prevId, Crc.Register(Ones(32), data), s.dicts[id := DictionaryEntry(true, data)]);
    var c := T.Chunk(3, id, data, cmd[10 + n..]);
    assert T.ParseMultipart(cmd) == Some(c);
    assert t.dicts == Complete(Start(s.dicts, id, data), id);
    assert T.HandleStartAndEnd(s, c) == T.Finish(t, c.trailer);
    CloseFinishes(t, cmd, n);
    ClosesMoved(T.Finish(t, cmd[10 + n..]), cmd, n, t, Crc.Checksum(t.crc), id);
  }

  /** Flag 3 and the right four bytes: the dictionary can be had. */
  lemma StartAndEndStores(s: T.State, cmd: seq<byte>, n: nat, bej: T.BejOutcome)
    requires s.Wide() && Announces(cmd, n) && cmd[1] == 3
    requires |cmd| == 14 + n && LeNat(cmd[10 + n..14 + n]) == Crc.Crc32(cmd[10..10 + n])
    ensures
      var r := T.Decode(s, T.Command(1, cmd, bej));
      r.Success? && r.value.status == T.StopFlagReceived &&
      Retrieve(r.value.state.dicts, LeNat(cmd[2..6])) == Some(cmd[10..10 + n])
  {
    hide LeNat, Crc.Register, Crc.Checksum, Crc.Crc32, T.Decode;
    StartAndEndCommand(s, cmd, n, bej);
  }

  /** Any other flag is refused; only the remembered id moves. */
  lemma OtherFlag(s: T.State, cmd: seq<byte>, n: nat, bej: T.BejOutcome)
    requires s.Wide() && Announces(cmd, n) && cmd[1] > 3
    ensures
      T.Decode(s, T.Command(1, cmd, bej)) ==
      Success(T.Reply(s.(prevId := LeNat(cmd[2..6])), T.InvalidCommand))
  {
    hide LeNat, Crc.Register;
  }

  /** Command types other than 1 and 2 are refused. */
  lemma OtherKind(s: T.State, kind: byte, cmd: seq<byte>, bej: T.BejOutcome)
    requires s.Wide() && kind != 1 && kind != 2
    ensures T.Decode(s, T.Command(kind, cmd, bej)) == Success(T.Reply(s, T.InvalidCommand))
  {}

  // ----- operation-init requests -----

  /** Bit 1 of byte 7 announces a payload, and the request holds it. */
  predicate HasPayload(cmd: seq<byte>) {
    |cmd| >= 17 && cmd[7] & 2 != 0 && |cmd| >= 17 + cmd[12] as nat + LeNat(cmd[13..17])
  }

  /** An update, type 4, that is not split. */
  predicate WholeUpdate(cmd: seq<byte>) {
    HasPayload(cmd) && cmd[6] == 4 && LeNat(cmd[8..12]) == 0
  }

  /** The dictionary of the resource and the annotation dictionary, number 0, can be had. */
  predicate HasBoth(cmd: seq<byte>, dicts: Store) {
    |cmd| >= 17 && Retrieve(dicts, LeNat(cmd[..4])).Some? && Retrieve(dicts, 0).Some?
  }

  /** A command of type 2 changes nothing; each of its answers exactly by its bytes. */
  lemma OperationCommand(s: T.State, cmd: seq<byte>, bej: T.BejOutcome)
    requires s.Wide()
    ensures
      var r := T.Decode(s, T.Command(2, cmd, bej));
      var asked := WholeUpdate(cmd) && HasBoth(cmd, s.dicts) && bej.decodes;
      (r.Failure? <==> asked && bej.publication.Threw?) &&
      (r.Success? ==>
        var a := r.value;
        a.state == s &&
        (a.status == T.InvalidCommand <==> |cmd| < 17 || (cmd[7] & 2 != 0 && !HasPayload(cmd))) &&
        (a.status == T.UnsupportedOperation <==> HasPayload(cmd) && cmd[6] != 4) &&
        (a.status == T.PayloadOverflow <==> HasPayload(cmd) && cmd[6] == 4 && LeNat(cmd[8..12]) != 0) &&
        (a.status == T.NoDictionary <==> WholeUpdate(cmd) && !HasBoth(cmd, s.dicts)) &&
        (a.status == T.BejDecodingError <==> WholeUpdate(cmd) && HasBoth(cmd, s.dicts) && !bej.decodes) &&
        (a.status == T.ExternalStorerError <==> asked && bej.publication.Refused?) &&
        (a.status == T.Ok <==> (|cmd| >= 17 && cmd[7] & 2 == 0) || (asked && bej.publication.Published?)))
  {
    hide LeNat, Retrieve;
  }

  /** The same by the fields of a printed request that has a payload, whatever follows it. */
  lemma PrintedOperationRefusals(q: T.OperationRequest, rest: seq<byte>, s: T.State, bej: T.BejOutcome)
    requires s.Wide() && q.Fits() && q.flags & 2 != 0
    ensures
      var r := T.Decode(s, T.Command(2, T.PrintOperation(q) + rest, bej));
      var both := Retrieve(s.dicts, q.resourceId).Some? && Retrieve(s.dicts, 0).Some?;
      var whole := q.operationType == 4 && q.sendHandle == 0;
      (r == Success(T.Reply(s, T.UnsupportedOperation)) <==> q.operationType != 4) &&
      (r == Success(T.Reply(s, T.PayloadOverflow)) <==> q.operationType == 4 && q.sendHandle != 0) &&
      (r == Success(T.Reply(s, T.NoDictionary)) <==> whole && !both) &&
      (r == Success(T.Reply(s, T.BejDecodingError)) <==> whole && both && !bej.decodes) &&
      (r == Success(T.Reply(s, T.ExternalStorerError)) <==> whole && both && bej.decodes && bej.publication.Refused?)
  {
    hide LeNat, Retrieve, T.Decode, T.PrintOperationHeader;
    var cmd := T.PrintOperation(q) + rest;
    T.OperationFields(q, cmd);
    OperationCommand(s, cmd, bej);
  }
}
