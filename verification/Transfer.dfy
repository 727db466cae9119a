/** The dictionary transfer as a state machine on values: what each RDE command does to it. */
module Transfer {
  import opened Bytes
  import opened Bits
  import opened Wrappers
  import opened Dictionaries
  import Crc

  datatype Status =
    | Ok
    | InvalidCommand
    | UnsupportedOperation
    | NoDictionary
    | PayloadOverflow
    | BejDecodingError
    | InvalidPktOrder
    | DictionaryError
    | FileCreationFailed
    | ExternalStorerError
    | InvalidChecksum
    | StopFlagReceived

  datatype FlagState = Idle | StartRecvd

  /** crc is the 32 bits of the checksum register. */
  datatype State = State(flagState: FlagState, prevId: nat, crc: Bits, dicts: Store) {
    predicate Wide() {
      |crc| == 32
    }
  }

  datatype Reply = Reply(state: State, status: Status)

  const INITIAL := State(Idle, 0, Ones(32), map[])

  // ----- multi-part receive responses -----

  const MULTIPART_HEADER_SIZE := 10
  const FLAG_START: byte := 0
  const FLAG_MIDDLE: byte := 1
  const FLAG_END: byte := 2
  const FLAG_START_AND_END: byte := 3

  /** A full-length multi-part command: the announced data and whatever follows it. */
  datatype Chunk = Chunk(flag: byte, id: nat, data: seq<byte>, trailer: seq<byte>)

  function ParseMultipart(cmd: seq<byte>): (c: Option<Chunk>) {
    if |cmd| < MULTIPART_HEADER_SIZE then None
    else
      var end := MULTIPART_HEADER_SIZE + LeNat(cmd[6..10]);
      if |cmd| < end then None
      else Some(Chunk(cmd[1], LeNat(cmd[2..6]), cmd[MULTIPART_HEADER_SIZE..end], cmd[end..]))
  }

  function PrintMultipart(completionCode: byte, c: Chunk): (cmd: seq<byte>) {
    [completionCode, c.flag] + LeBytes(c.id, 4) + LeBytes(|c.data|, 4) + c.data + c.trailer
  }

  lemma MultipartRoundTrip(completionCode: byte, c: Chunk)
    requires c.id < 0x1_0000_0000 && |c.data| < 0x1_0000_0000
    ensures ParseMultipart(PrintMultipart(completionCode, c)) == Some(c)
  {
    var cmd := PrintMultipart(completionCode, c);
    assert Pow256(4) == 0x1_0000_0000;
    assert cmd[2..6] == LeBytes(c.id, 4) && cmd[6..10] == LeBytes(|c.data|, 4);
    LeNatOfLeBytes(c.id, 4);
    LeNatOfLeBytes(|c.data|, 4);
    assert cmd[10..10 + |c.data|] == c.data && cmd[10 + |c.data|..] == c.trailer;
  }

  /** handleCrc and what follows it: the trailer must be exactly the register's checksum. */
  function Finish(s: State, trailer: seq<byte>): (r: Reply)
    requires s.Wide()
  {
    if |trailer| != 4 then Reply(s, InvalidCommand)
    else if LeNat(trailer) != Crc.Checksum(s.crc) then Reply(s.(dicts := InvalidateAll(s.dicts)), InvalidChecksum)
    else Reply(s, StopFlagReceived)
  }

  function HandleStart(s: State, c: Chunk): (r: Reply) {
    Reply(s.(crc := Crc.Register(Ones(32), c.data), dicts := Start(s.dicts, c.id, c.data), flagState := StartRecvd), Ok)
  }

  /** Data after a Start: it extends the current dictionary or, under a new id, closes it and opens another. */
  function Extend(s: State, c: Chunk): (r: Option<State>)
    requires s.Wide()
  {
    var crc := Crc.Register(s.crc, c.data);
    if s.prevId != c.id then
      Some(s.(crc := crc, dicts := Start(Complete(s.dicts, s.prevId), c.id, c.data)))
    else if c.id in s.dicts then
      Some(s.(crc := crc, dicts := Append(s.dicts, c.id, c.data)))
    else None
  }

  function HandleMiddle(s: State, c: Chunk): (r: Reply)
    requires s.Wide()
  {
    if s.flagState != StartRecvd then Reply(s, InvalidPktOrder)
    else match Extend(s, c)
      case None => Reply(s, DictionaryError)
      case Some(next) => Reply(next, Ok)
  }

  function HandleEnd(s: State, c: Chunk): (r: Reply)
    requires s.Wide()
  {
    if s.flagState != StartRecvd then Reply(s, InvalidPktOrder)
    else
      var idle := s.(flagState := Idle);
      match Extend(idle, c)
      case None => Reply(idle, DictionaryError)
      case Some(next) => Finish(next.(dicts := Complete(next.dicts, c.id)), c.trailer)
  }

  function HandleStartAndEnd(s: State, c: Chunk): (r: Reply) {
    Finish(
      State(Idle, s.prevId, Crc.Register(Ones(32), c.data), Complete(Start(s.dicts, c.id, c.data), c.id)),
      c.trailer)
  }

  /** One full-length multi-part command.  The previous id moves on even if the command is refused. */
  function Apply(s: State, c: Chunk): (r: Reply)
    requires s.Wide()
    ensures r.state.Wide()
  {
    var r :=
      if c.flag == FLAG_START then HandleStart(s, c)
      else if c.flag == FLAG_MIDDLE then HandleMiddle(s, c)
      else if c.flag == FLAG_END then HandleEnd(s, c)
      else if c.flag == FLAG_START_AND_END then HandleStartAndEnd(s, c)
      else Reply(s, InvalidCommand);
    Reply(r.state.(prevId := c.id), r.status)
  }

  // ----- operation init requests -----

  const OPERATION_INIT_HEADER_SIZE := 17
  const OPERATION_UPDATE: byte := 4

  /** What publishJson does with decoded JSON: most of its checks of field types and paths throw. */
  datatype Publication = Published | Refused | Threw

  /** What the BEJ decoder and the external storer do with a command, if they are asked. */
  datatype BejOutcome = BejOutcome(decodes: bool, publication: Publication)

  /** Either a status or the exception that the external storer let through. */
  function OperationInit(dicts: Store, cmd: seq<byte>, bej: BejOutcome): (r: Result<Status>)
    ensures r != Success(StopFlagReceived)
  {
    if |cmd| < OPERATION_INIT_HEADER_SIZE then Success(InvalidCommand)
    else if cmd[7] & 2 == 0 then Success(Ok)
    else if |cmd| < OPERATION_INIT_HEADER_SIZE + cmd[12] as nat + LeNat(cmd[13..17]) then Success(InvalidCommand)
    else if cmd[6] != OPERATION_UPDATE then Success(UnsupportedOperation)
    else if LeNat(cmd[8..12]) != 0 then Success(PayloadOverflow)
    else if Retrieve(dicts, LeNat(cmd[..4])).None? then Success(NoDictionary)
    else if Retrieve(dicts, ANNOTATION_RESOURCE_ID).None? then Success(NoDictionary)
    else if !bej.decodes then Success(BejDecodingError)
    else
      match bej.publication
      case Published => Success(Ok)
      case Refused => Success(ExternalStorerError)
      case Threw => Failure(StorerThrew)
  }

  /** The fields of a request; bit 1 of flags announces a payload. */
  datatype OperationRequest = OperationRequest(
    resourceId: nat, operationId: nat, operationType: byte, flags: byte, sendHandle: nat,
    locator: seq<byte>, payload: seq<byte>)
  {
    predicate Fits() {
      resourceId < 0x1_0000_0000 && operationId < 0x1_0000 && sendHandle < 0x1_0000_0000 &&
      |locator| < 256 && |payload| < 0x1_0000_0000
    }
  }

  function PrintOperation(q: OperationRequest): (cmd: seq<byte>)
    requires q.Fits()
    ensures |cmd| == OPERATION_INIT_HEADER_SIZE + |q.locator| + |q.payload|
  {
    PrintOperationHeader(q) + q.locator + q.payload
  }

  function PrintOperationHeader(q: OperationRequest): (cmd: seq<byte>)
    requires q.Fits()
    ensures |cmd| == OPERATION_INIT_HEADER_SIZE
  {
    LeBytes(q.resourceId, 4) + LeBytes(q.operationId, 2) + [q.operationType, q.flags] +
    LeBytes(q.sendHandle, 4) + [|q.locator| as byte] + LeBytes(|q.payload|, 4)
  }

  lemma OperationFields(q: OperationRequest, cmd: seq<byte>)
    requires q.Fits() && PrintOperationHeader(q) <= cmd
    ensures LeNat(cmd[..4]) == q.resourceId && cmd[6] == q.operationType && cmd[7] == q.flags
    ensures LeNat(cmd[8..12]) == q.sendHandle && cmd[12] as nat == |q.locator| && LeNat(cmd[13..17]) == |q.payload|
  {
    hide LeNat, LeBytes;
    assert Pow256(4) == 0x1_0000_0000;
    var h := PrintOperationHeader(q);
    assert cmd[..4] == h[..4] == LeBytes(q.resourceId, 4);
    assert cmd[8..12] == h[8..12] == LeBytes(q.sendHandle, 4);
    assert cmd[13..17] == h[13..17] == LeBytes(|q.payload|, 4);
    assert cmd[6] == h[6] && cmd[7] == h[7] && cmd[12] == h[12];
    ByteRoundTrip(|q.locator|);
    LeNatOfLeBytes(q.resourceId, 4);
    LeNatOfLeBytes(q.sendHandle, 4);
    LeNatOfLeBytes(|q.payload|, 4);
  }

  /** An update with payload that fits in one command, has both dictionaries and decodes: the storer is asked. */
  predicate ReachesStorer(q: OperationRequest, dicts: Store, bej: BejOutcome) {
    q.flags & 2 != 0 && q.operationType == OPERATION_UPDATE && q.sendHandle == 0 &&
    Retrieve(dicts, q.resourceId).Some? && Retrieve(dicts, ANNOTATION_RESOURCE_ID).Some? && bej.decodes
  }

  /**
   A printed request, whatever follows it, is answered Ok exactly if it has no payload or the storer
   is asked and publishes it; it throws exactly if the storer is asked and throws; and it is never
   called malformed.
   */
  lemma PrintedOperationVerdict(q: OperationRequest, rest: seq<byte>, dicts: Store, bej: BejOutcome)
    requires q.Fits()
    ensures
      var r := OperationInit(dicts, PrintOperation(q) + rest, bej);
      (r == Success(Ok) <==> q.flags & 2 == 0 || (ReachesStorer(q, dicts, bej) && bej.publication.Published?)) &&
      (r.Failure? <==> ReachesStorer(q, dicts, bej) && bej.publication.Threw?) && r != Success(InvalidCommand)
  {
    hide LeNat, Retrieve, PrintOperationHeader;
    OperationFields(q, PrintOperation(q) + rest);
  }

  /** Cut short anywhere, a request that announces a payload is malformed; one that does not needs only its header. */
  lemma TruncatedOperationVerdict(q: OperationRequest, n: nat, dicts: Store, bej: BejOutcome)
    requires q.Fits() && n < |PrintOperation(q)|
    ensures
      OperationInit(dicts, PrintOperation(q)[..n], bej) ==
      Success(if n < OPERATION_INIT_HEADER_SIZE || q.flags & 2 != 0 then InvalidCommand else Ok)
  {
    hide LeNat, Retrieve, PrintOperationHeader;
    if n >= OPERATION_INIT_HEADER_SIZE {
      OperationFields(q, PrintOperation(q)[..n]);
    }
  }

  // ----- all commands -----

  const TYPE_MULTIPART: byte := 1
  const TYPE_OPERATION_INIT: byte := 2

  datatype Command = Command(kind: byte, payload: seq<byte>, bej: BejOutcome) {
    /** The command as a full-length multi-part command, if it is one. */
    function AsChunk(): Option<Chunk> {
      if kind == TYPE_MULTIPART then ParseMultipart(payload) else None
    }
  }

  /** One command; a failure is an exception, which leaves the transfer state as it was. */
  function Decode(s: State, c: Command): (r: Result<Reply>)
    requires s.Wide()
    ensures r.Success? ==> r.value.state.Wide()
  {
    if c.kind == TYPE_MULTIPART then
      match ParseMultipart(c.payload)
      case None => Success(Reply(s, InvalidCommand))
      case Some(chunk) => Success(Apply(s, chunk))
    else if c.kind == TYPE_OPERATION_INIT then
      var status :- OperationInit(s.dicts, c.payload, c.bej);
      Success(Reply(s, status))
    else Success(Reply(s, InvalidCommand))
  }

  datatype Outcome = Outcome(state: State, statuses: seq<Status>)

  /** A run of commands up to the first that throws: one status for each command before it. */
  function Run(s: State, cs: seq<Command>): (o: Outcome)
    requires s.Wide()
    ensures o.state.Wide() && |o.statuses| <= |cs|
  {
    if cs == [] then Outcome(s, []) else Next(Run(s, cs[..|cs| - 1]), |cs| - 1, cs[|cs| - 1])
  }

  /** One more command after n others, unless one of those threw. */
  function Next(o: Outcome, n: nat, c: Command): (o': Outcome)
    requires o.state.Wide() && |o.statuses| <= n
    ensures o'.state.Wide() && |o'.statuses| <= n + 1
  {
    if |o.statuses| < n then o
    else
      match Decode(o.state, c)
      case Failure(_) => o
      case Success(r) => Outcome(r.state, o.statuses + [r.status])
  }

  /** No command of the run throws. */
  predicate Completes(s: State, cs: seq<Command>)
    requires s.Wide()
  {
    |Run(s, cs).statuses| == |cs|
  }

  lemma RunNil(s: State)
    requires s.Wide()
    ensures Run(s, []) == Outcome(s, [])
  {}

  lemma RunSnoc(s: State, cs: seq<Command>, c: Command)
    requires s.Wide()
    ensures Run(s, cs + [c]) == Next(Run(s, cs), |cs|, c)
  {
    assert (cs + [c])[..|cs|] == cs;
  }

  /** Where a run stops: it is the run of the commands before the first one that throws. */
  lemma {:induction false} RunStops(s: State, cs: seq<Command>)
    requires s.Wide()
    ensures
      var o := Run(s, cs);
      var k := |o.statuses|;
      Run(s, cs[..k]) == o && (k < |cs| ==> Decode(o.state, cs[k]).Failure?)
  {
    hide Decode;
    var k := |Run(s, cs).statuses|;
    if k == |cs| {
      assert cs[..k] == cs;
    } else {
      var n := |cs| - 1;
      RunStops(s, cs[..n]);
      assert cs[..n][..k] == cs[..k];
    }
  }

  /** Two runs in a row are one run of both, unless the first is cut short. */
  lemma {:induction false} RunConcat(s: State, a: seq<Command>, b: seq<Command>)
    requires s.Wide()
    ensures
      var o := Run(s, a);
      var p := Run(o.state, b);
      Run(s, a + b) == if Completes(s, a) then Outcome(p.state, o.statuses + p.statuses) else o
    decreases |b|
  {
    hide Decode;
    if b == [] {
      assert a + b == a;
    } else {
      var b', c := b[..|b| - 1], b[|b| - 1];
      RunConcat(s, a, b');
      assert a + b == a + b' + [c] && b == b' + [c];
      RunSnoc(s, a + b', c);
    }
  }

  /** Multi-part commands never throw. */
  lemma {:induction false} MultipartCompletes(s: State, cs: seq<Command>)
    requires s.Wide() && forall c <- cs :: c.kind == TYPE_MULTIPART
    ensures Completes(s, cs)
  {
    if cs != [] {
      MultipartCompletes(s, cs[..|cs| - 1]);
    }
  }
}
