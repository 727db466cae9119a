/** The RDE command handler object (src/rde/rde_handler.cpp). */
module RdeHandler {
  import opened Bytes
  import opened Bits
  import opened Wrappers
  import opened Dictionaries
  import Crc
  import Gf2
  import T = Transfer

  class RdeCommandHandler {
    var flagState: T.FlagState
    var prevDictResourceId: nat
    const dictionaryManager: DictionaryManager
    var crc: nat
    const crcTable: array<nat>

    ghost predicate TableComputed()
      reads crcTable
    {
      crcTable.Length == 256 && forall i: nat :: i < 256 ==> crcTable[i] == Crc.TableWord(i)
    }

    ghost predicate Valid()
      reads this, crcTable, dictionaryManager
    {
      TableComputed() && crc < Pow2(32) && dictionaryManager.Valid()
    }

    /** The transfer state this object stands for. */
    ghost function State(): (s: T.State)
      reads this, dictionaryManager
      ensures s.Wide()
    {
      T.State(flagState, prevDictResourceId, BitsOf(crc, 32), dictionaryManager.dictionaries)
    }

    constructor ()
      ensures Valid() && State() == T.INITIAL
      ensures flagState == T.Idle && prevDictResourceId == 0 && crc == 0xffff_ffff
      ensures dictionaryManager.dictionaries == map[]
      ensures fresh(dictionaryManager) && fresh(crcTable)
    {
      flagState := T.Idle;
      dictionaryManager := new DictionaryManager();
      prevDictResourceId := 0;
      crc := Crc.ALL_ONES;
      crcTable := new nat[256];
      new;
      AllOnes();
      CalcCrcTable();
    }

    method CalcCrcTable()
      requires crcTable.Length == 256
      modifies crcTable
      ensures TableComputed()
    {
      hide Xor, BitsOf, Value, Gf2.Step, Crc.Poly;
      for i := 0 to 256
        invariant forall j: nat :: j < i ==> crcTable[j] == Crc.TableWord(j)
      {
        var rem: nat := i;
        Pow2Values();
        for k := 0 to 8
          invariant rem < Pow2(32)
          invariant forall j: nat :: j < i ==> crcTable[j] == Crc.TableWord(j)
          invariant Gf2.Steps(Crc.Poly(), BitsOf(rem, 32), 8 - k) == Gf2.Steps(Crc.Poly(), BitsOf(i, 32), 8)
        {
          Crc.IntegerStep(rem);
          rem := if rem % 2 == 1 then Xor(rem / 2, Crc.DIVISOR, 32) else rem / 2;
        }
        ValueOfBitsOf(rem, 32);
        assert Crc.TableWord(i) == Value(Gf2.Steps(Crc.Poly(), BitsOf(rem, 32), 0)) == rem;
        crcTable[i] := rem;
      }
    }

    /** The table-driven loop leaves the register that the bit-serial one would. */
    method UpdateCrc(stream: seq<byte>)
      requires TableComputed() && crc < Pow2(32)
      modifies `crc
      ensures crc < Pow2(32) && BitsOf(crc, 32) == Crc.Register(BitsOf(old(crc), 32), stream)
    {
      hide Xor, BitsOf, Value;
      ghost var start := BitsOf(crc, 32);
      assert stream[..0] == [];
      for i := 0 to |stream|
        invariant crc < Pow2(32) && BitsOf(crc, 32) == Crc.Register(start, stream[..i])
      {
        Crc.TableByte(crc, stream[i]);
        Crc.RegisterByte(start, stream[..i], stream[i]);
        assert stream[..i] + [stream[i]] == stream[..i + 1];
        crc := Xor(crcTable[Xor(crc, stream[i] as nat, 32) % 256], crc / 256, 32);
      }
      assert stream[..|stream|] == stream;
    }

    method FinalChecksum() returns (sum: nat)
      requires crc < Pow2(32)
      ensures sum == Crc.Checksum(BitsOf(crc, 32))
    {
      AllOnes();
      return Xor(crc, Crc.ALL_ONES, 32);
    }

    method HandleCrc(multiReceiveRespCmd: seq<byte>) returns (status: T.Status)
      requires Valid() && T.ParseMultipart(multiReceiveRespCmd).Some?
      modifies dictionaryManager
      ensures Valid() && status in {T.Ok, T.InvalidCommand, T.InvalidChecksum}
      ensures T.Finish(old(State()), T.ParseMultipart(multiReceiveRespCmd).value.trailer) ==
              T.Reply(State(), if status == T.Ok then T.StopFlagReceived else status)
    {
      hide Crc.Checksum, BitsOf, LeNat, Pow2;
      var dataLengthBytes := LeNat(multiReceiveRespCmd[6..10]);
      var expectedSize := T.MULTIPART_HEADER_SIZE + dataLengthBytes + 4;
      if expectedSize != |multiReceiveRespCmd| {
        return T.InvalidCommand;
      }
      var checksum := LeNat(multiReceiveRespCmd[T.MULTIPART_HEADER_SIZE + dataLengthBytes..]);
      var final := FinalChecksum();
      if final != checksum {
        dictionaryManager.InvalidateDictionaries();
        return T.InvalidChecksum;
      }
      return T.Ok;
    }

    method HandleFlagStart(data: seq<byte>, resourceId: nat)
      requires Valid()
      modifies this, dictionaryManager
      ensures Valid() && forall flag: byte, trailer: seq<byte> ::
                T.HandleStart(old(State()), T.Chunk(flag, resourceId, data, trailer)) == T.Reply(State(), T.Ok)
    {
      hide Crc.Register, BitsOf, Pow2;
      AllOnes();
      crc := Crc.ALL_ONES;
      dictionaryManager.StartDictionaryEntry(resourceId, data);
      UpdateCrc(data);
      flagState := T.StartRecvd;
    }

    method HandleFlagMiddle(data: seq<byte>, resourceId: nat) returns (status: T.Status)
      requires Valid()
      modifies this, dictionaryManager
      ensures Valid() && forall flag: byte, trailer: seq<byte> ::
                T.HandleMiddle(old(State()), T.Chunk(flag, resourceId, data, trailer)) == T.Reply(State(), status)
    {
      if flagState != T.StartRecvd {
        return T.InvalidPktOrder;
      }
      if prevDictResourceId != resourceId {
        var _ := dictionaryManager.MarkDataComplete(prevDictResourceId);
        dictionaryManager.StartDictionaryEntry(resourceId, data);
      } else {
        var added := dictionaryManager.AddDictionaryData(resourceId, data);
        if !added {
          return T.DictionaryError;
        }
      }
      UpdateCrc(data);
      return T.Ok;
    }

    method HandleFlagEnd(rdeCommand: seq<byte>, data: seq<byte>, resourceId: nat) returns (status: T.Status)
      requires Valid()
      requires T.ParseMultipart(rdeCommand).Some?
      requires T.ParseMultipart(rdeCommand).value.id == resourceId && T.ParseMultipart(rdeCommand).value.data == data
      modifies this, dictionaryManager
      ensures Valid() && T.HandleEnd(old(State()), T.ParseMultipart(rdeCommand).value) == T.Reply(State(), status)
    {
      hide Crc.Register, Crc.Checksum, BitsOf, LeNat, Pow2;
      if flagState != T.StartRecvd {
        return T.InvalidPktOrder;
      }
      flagState := T.Idle;
      if prevDictResourceId != resourceId {
        var _ := dictionaryManager.MarkDataComplete(prevDictResourceId);
        dictionaryManager.StartDictionaryEntry(resourceId, data);
      } else {
        var added := dictionaryManager.AddDictionaryData(resourceId, data);
        if !added {
          return T.DictionaryError;
        }
      }
      var _ := dictionaryManager.MarkDataComplete(resourceId);
      UpdateCrc(data);
      status := HandleCrc(rdeCommand);
      if status != T.Ok {
        return;
      }
      return T.StopFlagReceived;
    }

    method HandleFlagStartAndEnd(rdeCommand: seq<byte>, data: seq<byte>, resourceId: nat) returns (status: T.Status)
      requires Valid()
      requires T.ParseMultipart(rdeCommand).Some?
      requires T.ParseMultipart(rdeCommand).value.id == resourceId && T.ParseMultipart(rdeCommand).value.data == data
      modifies this, dictionaryManager
      ensures Valid()
      ensures T.HandleStartAndEnd(old(State()), T.ParseMultipart(rdeCommand).value) == T.Reply(State(), status)
    {
      hide Crc.Register, Crc.Checksum, BitsOf, LeNat, Pow2;
      AllOnes();
      crc := Crc.ALL_ONES;
      dictionaryManager.StartDictionaryEntry(resourceId, data);
      var _ := dictionaryManager.MarkDataComplete(resourceId);
      flagState := T.Idle;
      UpdateCrc(data);
      status := HandleCrc(rdeCommand);
      if status != T.Ok {
        return;
      }
      return T.StopFlagReceived;
    }

    method MultiPartReceiveResp(rdeCommand: seq<byte>) returns (status: T.Status)
      requires Valid()
      modifies this, dictionaryManager
      ensures Valid()
      ensures match T.ParseMultipart(rdeCommand)
              case None => status == T.InvalidCommand && State() == old(State())
              case Some(chunk) => T.Apply(old(State()), chunk) == T.Reply(State(), status)
    {
      if |rdeCommand| < T.MULTIPART_HEADER_SIZE {
        return T.InvalidCommand;
      }
      var dataLengthBytes := LeNat(rdeCommand[6..10]);
      if |rdeCommand| < T.MULTIPART_HEADER_SIZE + dataLengthBytes {
        return T.InvalidCommand;
      }
      var resourceId := LeNat(rdeCommand[2..6]);
      var data := rdeCommand[T.MULTIPART_HEADER_SIZE..T.MULTIPART_HEADER_SIZE + dataLengthBytes];
      ghost var chunk := T.ParseMultipart(rdeCommand).value;
      assert chunk == T.Chunk(chunk.flag, resourceId, data, chunk.trailer);
      status := T.Ok;
      var transferFlag := rdeCommand[1];
      if transferFlag == T.FLAG_START {
        HandleFlagStart(data, resourceId);
      } else if transferFlag == T.FLAG_MIDDLE {
        status := HandleFlagMiddle(data, resourceId);
      } else if transferFlag == T.FLAG_END {
        status := HandleFlagEnd(rdeCommand, data, resourceId);
      } else if transferFlag == T.FLAG_START_AND_END {
        status := HandleFlagStartAndEnd(rdeCommand, data, resourceId);
      } else {
        status := T.InvalidCommand;
      }
      prevDictResourceId := resourceId;
    }

    /** A failure is the exception that publishJson let through. */
    method OperationInitRequest(rdeCommand: seq<byte>, bej: T.BejOutcome) returns (r: Result<T.Status>)
      ensures r == T.OperationInit(dictionaryManager.dictionaries, rdeCommand, bej)
    {
      if |rdeCommand| < T.OPERATION_INIT_HEADER_SIZE {
        return Success(T.InvalidCommand);
      }
      if rdeCommand[7] & 2 == 0 {
        return Success(T.Ok);
      }
      var expectedTotalSize := T.OPERATION_INIT_HEADER_SIZE + rdeCommand[12] as nat + LeNat(rdeCommand[13..17]);
      if |rdeCommand| < expectedTotalSize {
        return Success(T.InvalidCommand);
      }
      if rdeCommand[6] != T.OPERATION_UPDATE {
        return Success(T.UnsupportedOperation);
      }
      if LeNat(rdeCommand[8..12]) != 0 {
        return Success(T.PayloadOverflow);
      }
      var schema := dictionaryManager.GetDictionary(LeNat(rdeCommand[..4]));
      if schema.None? {
        return Success(T.NoDictionary);
      }
      var annotation := dictionaryManager.GetDictionary(ANNOTATION_RESOURCE_ID);
      if annotation.None? {
        return Success(T.NoDictionary);
      }
      if !bej.decodes {
        return Success(T.BejDecodingError);
      }
      if bej.publication.Threw? {
        return Failure(StorerThrew);
      }
      if bej.publication.Refused? {
        return Success(T.ExternalStorerError);
      }
      return Success(T.Ok);
    }

    method DecodeRdeCommand(rdeCommand: seq<byte>, kind: byte, bej: T.BejOutcome) returns (r: Result<T.Status>)
      requires Valid()
      modifies this, dictionaryManager
      ensures Valid()
      ensures
        match T.Decode(old(State()), T.Command(kind, rdeCommand, bej))
        case Failure(e) => r == Failure(e) && State() == old(State())
        case Success(reply) => r == Success(reply.status) && State() == reply.state
    {
      if kind == T.TYPE_MULTIPART {
        var status := MultiPartReceiveResp(rdeCommand);
        return Success(status);
      }
      if kind == T.TYPE_OPERATION_INIT {
        r := OperationInitRequest(rdeCommand, bej);
        return;
      }
      return Success(T.InvalidCommand);
    }
  }
}
