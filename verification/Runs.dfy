/** What holds over whole runs of RDE commands. */
module Runs {
  import opened Bytes
  import opened Bits
  import opened Wrappers
  import opened Dictionaries
  import opened Transfer
  import Crc

  // ----- commands that are not full-length multi-part commands leave no trace -----

  /** The full-length multi-part commands of a run, in order. */
  function Chunks(cs: seq<Command>): (chunks: seq<Chunk>) {
    if cs == [] then []
    else
      var rest := Chunks(cs[..|cs| - 1]);
      match cs[|cs| - 1].AsChunk()
      case None => rest
      case Some(chunk) => rest + [chunk]
  }

  /** The statuses of those commands. */
  function ChunkStatuses(cs: seq<Command>, statuses: seq<Status>): (kept: seq<Status>)
    requires |cs| == |statuses|
  {
    if cs == [] then []
    else
      var n := |cs| - 1;
      var rest := ChunkStatuses(cs[..n], statuses[..n]);
      if cs[n].AsChunk().None? then rest else rest + [statuses[n]]
  }

  /** A run of full-length multi-part commands alone. */
  function ApplyAll(s: State, chunks: seq<Chunk>): (o: Outcome)
    requires s.Wide()
    ensures o.state.Wide() && |o.statuses| == |chunks|
  {
    if chunks == [] then Outcome(s, [])
    else
      var o := ApplyAll(s, chunks[..|chunks| - 1]);
      var r := Apply(o.state, chunks[|chunks| - 1]);
      Outcome(r.state, o.statuses + [r.status])
  }

  lemma ApplySnoc(s: State, chunks: seq<Chunk>, c: Chunk)
    requires s.Wide()
    ensures
      var o := ApplyAll(s, chunks);
      var r := Apply(o.state, c);
      ApplyAll(s, chunks + [c]) == Outcome(r.state, o.statuses + [r.status])
  {
    assert (chunks + [c])[..|chunks|] == chunks;
  }

  /**
   Erasing operation-init commands, unknown command types and under-length multi-part commands
   changes neither the final transfer state nor the status of any other command; a run that an
   exception cuts short is the run of the commands before it.
   */
  lemma {:induction false} Stuttering(s: State, cs: seq<Command>)
    requires s.Wide()
    ensures
      var o := Run(s, cs);
      var done := cs[..|o.statuses|];
      ApplyAll(s, Chunks(done)) == Outcome(o.state, ChunkStatuses(done, o.statuses))
  {
    hide Apply, OperationInit, ParseMultipart;
    if cs == [] {
      assert cs[..0] == [];
    } else {
      var n := |cs| - 1;
      var o := Run(s, cs);
      Stuttering(s, cs[..n]);
      if |o.statuses| == n + 1 {
        assert o.statuses[..n] == Run(s, cs[..n]).statuses;
        assert cs[..n + 1] == cs && cs[..n][..n] == cs[..n];
        match cs[n].AsChunk()
        case None =>
        case Some(chunk) => ApplySnoc(s, Chunks(cs[..n]), chunk);
      } else {
        assert cs[..n][..|o.statuses|] == cs[..|o.statuses|];
      }
    }
  }

  // ----- the open dictionary -----

  predicate KnownFlag(c: Chunk) {
    c.flag == FLAG_START || c.flag == FLAG_MIDDLE || c.flag == FLAG_END || c.flag == FLAG_START_AND_END
  }

  /** While a transfer is open, the dictionary it feeds exists and is incomplete. */
  ghost predicate DictionaryOpen(s: State) {
    s.flagState == StartRecvd ==> s.prevId in s.dicts && !s.dicts[s.prevId].valid
  }

  lemma ApplyKeepsDictionaryOpen(s: State, c: Chunk)
    requires s.Wide() && DictionaryOpen(s) && KnownFlag(c)
    ensures DictionaryOpen(Apply(s, c).state) && Apply(s, c).status != DictionaryError
  {
    hide Crc.Register, Crc.Checksum, LeNat, InvalidateAll;
  }

  /** With known flags only, closing a dictionary always succeeds and no command finds its dictionary missing. */
  lemma {:induction false} NoDictionaryError(chunks: seq<Chunk>)
    requires forall c <- chunks :: KnownFlag(c)
    ensures DictionaryOpen(ApplyAll(INITIAL, chunks).state)
    ensures DictionaryError !in ApplyAll(INITIAL, chunks).statuses
  {
    if chunks != [] {
      var front, c := chunks[..|chunks| - 1], chunks[|chunks| - 1];
      NoDictionaryError(front);
      ApplyKeepsDictionaryOpen(ApplyAll(INITIAL, front).state, c);
    }
  }

  /** The run ends with an unknown flag under id, followed at most by Middle commands under id. */
  ghost predicate StrayTail(chunks: seq<Chunk>, id: nat) {
    chunks != [] &&
    var last := chunks[|chunks| - 1];
    last.id == id && (!KnownFlag(last) || (last.flag == FLAG_MIDDLE && StrayTail(chunks[..|chunks| - 1], id)))
  }

  lemma {:induction false} MissingDictionaryIsStray(chunks: seq<Chunk>)
    ensures
      var s := ApplyAll(INITIAL, chunks).state;
      (chunks != [] ==> s.prevId == chunks[|chunks| - 1].id) &&
      (s.flagState == StartRecvd && s.prevId !in s.dicts ==> StrayTail(chunks, s.prevId))
  {
    hide Crc.Register, Crc.Checksum, LeNat, InvalidateAll;
    if chunks != [] {
      MissingDictionaryIsStray(chunks[..|chunks| - 1]);
    }
  }

  /** Over all runs and all flags: exactly when a command reports a dictionary error. */
  lemma DictionaryErrorExactly(chunks: seq<Chunk>, c: Chunk)
    ensures
      var s := ApplyAll(INITIAL, chunks).state;
      Apply(s, c).status == DictionaryError <==>
        (c.flag == FLAG_MIDDLE || c.flag == FLAG_END) && s.flagState == StartRecvd &&
        StrayTail(chunks, c.id) && c.id !in s.dicts
  {
    hide ApplyAll, Crc.Register, Crc.Checksum, LeNat, InvalidateAll;
    MissingDictionaryIsStray(chunks);
  }

  /** The error does occur: a stray flag under a new id, then a Middle under that id. */
  lemma DictionaryErrorOccurs()
    ensures
      var chunks := [Chunk(FLAG_START, 1, [], []), Chunk(9, 2, [], []), Chunk(FLAG_MIDDLE, 2, [], [])];
      ApplyAll(INITIAL, chunks).statuses == [Ok, InvalidCommand, DictionaryError]
  {
    var a, b, c := Chunk(FLAG_START, 1, [], []), Chunk(9, 2, [], []), Chunk(FLAG_MIDDLE, 2, [], []);
    ApplySnoc(INITIAL, [], a);
    ApplySnoc(INITIAL, [a], b);
    ApplySnoc(INITIAL, [a, b], c);
    assert [] + [a] == [a] && [a] + [b] == [a, b] && [a, b] + [c] == [a, b, c];
  }

  // ----- the checksum register -----

  /** The data the register covers: the latest Start and every Middle since then that returned Ok. */
  function Covered(chunks: seq<Chunk>): (data: seq<byte>) {
    if chunks == [] then []
    else
      var n := |chunks| - 1;
      var c := chunks[n];
      if c.flag == FLAG_START then c.data
      else if c.flag == FLAG_MIDDLE && ApplyAll(INITIAL, chunks).statuses[n] == Ok then
        Covered(chunks[..n]) + c.data
      else Covered(chunks[..n])
  }

  lemma {:induction false} RegisterCovers(chunks: seq<Chunk>)
    ensures
      var s := ApplyAll(INITIAL, chunks).state;
      s.flagState == StartRecvd ==> s.crc == Crc.Register(Ones(32), Covered(chunks))
  {
    hide Crc.Register, Crc.Checksum, LeNat;
    if chunks != [] {
      var front, c := chunks[..|chunks| - 1], chunks[|chunks| - 1];
      RegisterCovers(front);
      Crc.RegisterConcat(Ones(32), Covered(front), c.data);
    }
  }

  /**
   After any run, an End that passes its order and dictionary checks is answered by the received
   stop flag exactly when four bytes follow its data and they are the little-endian CRC-32 of
   everything covered so far and that data.
   */
  lemma EndVerdict(chunks: seq<Chunk>, c: Chunk)
    requires c.flag == FLAG_END
    ensures
      var s := ApplyAll(INITIAL, chunks).state;
      var r := Apply(s, c);
      (r.status == InvalidPktOrder <==> s.flagState == Idle) &&
      (r.status != InvalidPktOrder && r.status != DictionaryError ==>
         (r.status == InvalidCommand <==> |c.trailer| != 4) &&
         (r.status == StopFlagReceived <==>
            |c.trailer| == 4 && LeNat(c.trailer) == Crc.Crc32(Covered(chunks) + c.data)) &&
         (r.status == InvalidChecksum <==>
            |c.trailer| == 4 && LeNat(c.trailer) != Crc.Crc32(Covered(chunks) + c.data)))
  {
    hide Crc.Register, Crc.Checksum, LeNat;
    RegisterCovers(chunks);
    Crc.RegisterConcat(Ones(32), Covered(chunks), c.data);
  }

  // ----- what a failed checksum does, and what a missing one does not do -----

  /** A wrong checksum leaves no dictionary retrievable and the count of complete ones at zero. */
  lemma BadChecksumClears(s: State, c: Chunk)
    requires s.Wide() && Apply(s, c).status == InvalidChecksum
    ensures ValidIds(Apply(s, c).state.dicts) == {}
  {}

  /**
   Complete does not mean checked (module Coverage says exactly when it does): the dictionary an
   End or StartAndEnd closes is retrievable unless the checksum was present and wrong; in particular
   it is when the checksum is missing.
   */
  lemma ClosedUnlessBadChecksum(s: State, c: Chunk)
    requires s.Wide()
    requires c.flag == FLAG_START_AND_END || c.flag == FLAG_END
    requires Apply(s, c).status != InvalidPktOrder && Apply(s, c).status != DictionaryError
    ensures Retrieve(Apply(s, c).state.dicts, c.id).Some? <==> Apply(s, c).status != InvalidChecksum
    ensures |c.trailer| != 4 ==> Retrieve(Apply(s, c).state.dicts, c.id).Some?
  {
    hide Crc.Register, Crc.Checksum, LeNat;
  }

  lemma UncheckedDictionaryExists()
    ensures
      var r := Apply(INITIAL, Chunk(FLAG_START_AND_END, 7, [1, 2, 3], []));
      r.status == InvalidCommand && Retrieve(r.state.dicts, 7) == Some([1, 2, 3])
  {
    hide Crc.Register, Crc.Checksum, LeNat;
  }
}
