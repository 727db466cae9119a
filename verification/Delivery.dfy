/** From bytes laid in the ring to a dictionary in the store. */
module Delivery {
  import opened Bytes
  import opened Header
  import opened Wrappers
  import opened Buffer
  import opened Polling
  import opened Handshake
  import Crc
  import Dictionaries
  import Ring
  import Runs
  import Pieces
  import T = Transfer

  /** The ring shows batch between the read and the write pointer. */
  ghost predicate LaidOut(s: Settings, mem: seq<byte>, batch: seq<Ring.Entry>) {
    Invariant(s, mem) &&
    var h, q := Decode(mem), Queue(s.config, mem);
    h.biosWritePtr < |q| && Ring.AllSealed(batch) &&
    Ring.Read(q, h.bmcReadPtr, Ring.Distance(|q|, h.bmcReadPtr, h.biosWritePtr)) == Ring.EncodeAll(batch)
  }

  /** Rounds in which the BIOS lays out one batch each, no UE log is refused and no entry throws. */
  ghost predicate Delivers(s: Settings, w: World, rounds: seq<Round>, batches: seq<seq<Ring.Entry>>, w': World)
    decreases |rounds|
  {
    s.Valid() && |w.mem| >= s.config.queueSize && w.transfer.Wide() && |rounds| == |batches| &&
    if rounds == [] then w' == w
    else
      var r := rounds[0];
      BiosStep(s, w.mem, r) && LaidOut(s, r.mem, batches[0]) && !UeRefused(s, r.mem, w.transfer, r.answers) &&
      T.Completes(w.transfer, Commands(batches[0], r.answers.entries)) &&
      Delivers(s, Next(s, w, r), rounds[1..], batches[1..], w')
  }

  /** The ready bit is set in shared memory. */
  predicate ReadyShown(mem: seq<byte>) {
    |mem| >= HEADER_SIZE && Decode(mem).bmcFlags & READY != 0
  }

  lemma SettledReady(s: Settings, w: World)
    requires Settled(s, w)
    ensures ReadyShown(w.mem) <==> w.stopped
  {}

  /** All commands of the batches, with the answers of the polls that decode them. */
  function Laid(rounds: seq<Round>, batches: seq<seq<Ring.Entry>>): (cs: seq<T.Command>) {
    if rounds == [] || batches == [] then []
    else Commands(batches[0], rounds[0].answers.entries) + Laid(rounds[1..], batches[1..])
  }

  /** A poll decodes exactly the batch it finds. */
  lemma PollDecodesBatch(s: Settings, w: World, r: Round, batch: seq<Ring.Entry>)
    requires Settled(s, w) && BiosStep(s, w.mem, r) && LaidOut(s, r.mem, batch)
    requires !UeRefused(s, r.mem, w.transfer, r.answers)
    requires T.Completes(w.transfer, Commands(batch, r.answers.entries))
    ensures
      var o := T.Run(w.transfer, Commands(batch, r.answers.entries));
      var w' := Next(s, w, r);
      Settled(s, w') && w'.transfer == o.state &&
      (w'.stopped <==> w.stopped || T.StopFlagReceived in o.statuses)
  {
    hide Decode, Differ, FlagsPolled, Poll, KeepsBmcBytes, Settings.Fresh, Stores, T.Run, Ring.ReadLogs, Queue;
    var h, q := Decode(r.mem), Queue(s.config, r.mem);
    Ring.ParserInvertsPrinter(q, h.bmcReadPtr, h.biosWritePtr, batch);
    PollOutcome(s, r.mem, w.transfer, r.answers);
    NextSettles(s, w, r);
    assert ReadLogs(s.config, r.mem).Outcome() == Success(batch);
  }

  /** Several polls decode all batches, one after the other, as one run of commands. */
  lemma {:induction false} PollsDecodeAll(
      s: Settings, w: World, rounds: seq<Round>, batches: seq<seq<Ring.Entry>>, w': World)
    requires Settled(s, w) && Delivers(s, w, rounds, batches, w')
    ensures
      var o := T.Run(w.transfer, Laid(rounds, batches));
      Settled(s, w') && w'.transfer == o.state && T.Completes(w.transfer, Laid(rounds, batches)) &&
      (w'.stopped <==> w.stopped || T.StopFlagReceived in o.statuses)
    decreases |rounds|
  {
    hide Settled, Next, LaidOut, BiosStep, UeRefused, T.Run;
    SettledFits(s, w);
    if rounds == [] {
      T.RunNil(w.transfer);
    } else {
      PollDecodesBatch(s, w, rounds[0], batches[0]);
      PollsDecodeAll(s, Next(s, w, rounds[0]), rounds[1..], batches[1..], w');
      T.RunConcat(w.transfer, Commands(batches[0], rounds[0].answers.entries), Laid(rounds[1..], batches[1..]));
    }
  }

  lemma SettledFits(s: Settings, w: World)
    requires Settled(s, w)
    ensures s.Valid() && |w.mem| >= s.config.queueSize && w.transfer.Wide()
  {}

  lemma {:induction false} StatusSurvives(cs: seq<T.Command>, statuses: seq<T.Status>, status: T.Status)
    requires |cs| == |statuses| && status in Runs.ChunkStatuses(cs, statuses)
    ensures status in statuses
  {
    if cs != [] {
      var n := |cs| - 1;
      if status in Runs.ChunkStatuses(cs[..n], statuses[..n]) {
        StatusSurvives(cs[..n], statuses[..n], status);
      }
    }
  }

  /**
   End to end: if the full-length multi-part commands laid in the ring over any number of polls, at
   any offsets and between any other commands, are a transmission of ps, then every dictionary of
   ps ends complete and holding its last group of pieces, all others are as before, and the ready
   bit is set in shared memory.
   */
  lemma TransmissionThroughRing(
      s: Settings, w: World, rounds: seq<Round>, batches: seq<seq<Ring.Entry>>, w': World, ps: seq<Pieces.Piece>)
    requires Settled(s, w) && Delivers(s, w, rounds, batches, w')
    requires ps != [] && Runs.Chunks(Laid(rounds, batches)) == Pieces.Transmission(ps)
    ensures w'.transfer == Pieces.Closed(w.transfer, ps)
    ensures ReadyShown(w'.mem)
  {
    hide Pieces.Closed, Pieces.Transmission, T.Run, Runs.Chunks, ReadyShown, Settled, Delivers, Laid;
    SettledFits(s, w);
    var cs := Laid(rounds, batches);
    var o := T.Run(w.transfer, cs);
    PollsDecodeAll(s, w, rounds, batches, w');
    SettledReady(s, w');
    Runs.Stuttering(w.transfer, cs);
    Pieces.TransmissionDelivers(w.transfer, ps);
    assert cs[..|o.statuses|] == cs;
    var kept := Runs.ChunkStatuses(cs, o.statuses);
    assert kept[|kept| - 1] == T.StopFlagReceived;
    StatusSurvives(cs, o.statuses, T.StopFlagReceived);
  }

  // ----- the sender's framing -----

  /** A queue entry that carries a multi-part command. */
  function Frame(sequenceId: nat, completionCode: byte, c: T.Chunk): (e: Ring.Entry)
    requires sequenceId < 0x1_0000 && |T.PrintMultipart(completionCode, c)| < 0x1_0000
    ensures e.Sealed()
  {
    Ring.Seal(sequenceId, T.TYPE_MULTIPART, T.PrintMultipart(completionCode, c))
  }

  ghost predicate Carries(e: Ring.Entry, c: T.Chunk) {
    exists sequenceId: nat, completionCode: byte ::
      sequenceId < 0x1_0000 && |T.PrintMultipart(completionCode, c)| < 0x1_0000 &&
      e == Frame(sequenceId, completionCode, c)
  }

  function Flatten(batches: seq<seq<Ring.Entry>>): seq<Ring.Entry> {
    if batches == [] then [] else batches[0] + Flatten(batches[1..])
  }

  lemma {:induction false} LaidFlattened(rounds: seq<Round>, batches: seq<seq<Ring.Entry>>)
    requires |rounds| == |batches|
    ensures
      var cs, es := Laid(rounds, batches), Flatten(batches);
      |cs| == |es| &&
      forall i :: 0 <= i < |cs| ==> cs[i].kind == es[i].header.rdeCommandType && cs[i].payload == es[i].body
  {
    if rounds != [] {
      LaidFlattened(rounds[1..], batches[1..]);
    }
  }

  lemma {:induction false} CarriedChunks(cs: seq<T.Command>, chunks: seq<T.Chunk>)
    requires |cs| == |chunks| && forall i :: 0 <= i < |cs| ==> cs[i].AsChunk() == Some(chunks[i])
    ensures Runs.Chunks(cs) == chunks
  {
    hide T.Command.AsChunk;
    if cs != [] {
      CarriedChunks(cs[..|cs| - 1], chunks[..|cs| - 1]);
    }
  }

  lemma CarriedChunk(e: Ring.Entry, c: T.Chunk)
    requires Carries(e, c) && c.id < 0x1_0000_0000
    ensures e.header.rdeCommandType == T.TYPE_MULTIPART && T.ParseMultipart(e.body) == Some(c)
  {
    var sequenceId: nat, completionCode: byte :|
      sequenceId < 0x1_0000 && |T.PrintMultipart(completionCode, c)| < 0x1_0000 &&
      e == Frame(sequenceId, completionCode, c);
    T.MultipartRoundTrip(completionCode, c);
  }

  lemma {:induction false} OpeningIds(ps: seq<Pieces.Piece>, id: nat)
    requires ps != [] && forall p <- ps :: p.id == id
    ensures forall c <- Pieces.Opening(ps) :: c.id == id
    decreases |ps|
  {
    if |ps| > 1 {
      OpeningIds(Pieces.Front(ps), id);
    }
  }

  /**
   One dictionary, cut in any way into pieces, framed, and laid in the ring over any number of
   polls: afterwards exactly its bytes are retrievable under its id, every other dictionary is as
   before, and the ready bit is set.
   */
  lemma DictionaryDelivered(
      s: Settings, w: World, rounds: seq<Round>, batches: seq<seq<Ring.Entry>>, w': World,
      ps: seq<Pieces.Piece>, id: nat)
    requires Settled(s, w) && Delivers(s, w, rounds, batches, w')
    requires ps != [] && id < 0x1_0000_0000 && forall p <- ps :: p.id == id
    requires |Flatten(batches)| == |Pieces.Transmission(ps)|
    requires forall i :: 0 <= i < |Flatten(batches)| ==> Carries(Flatten(batches)[i], Pieces.Transmission(ps)[i])
    ensures Dictionaries.Retrieve(w'.transfer.dicts, id) == Some(Pieces.Data(ps))
    ensures forall j: nat :: j != id ==>
              Dictionaries.Retrieve(w'.transfer.dicts, j) == Dictionaries.Retrieve(w.transfer.dicts, j)
    ensures ReadyShown(w'.mem)
  {
    hide ReadyShown, T.ParseMultipart, Carries, Delivers, Settled, Pieces.Transmission, Flatten, Laid, Pieces.Data;
    hide Pieces.Ids, Pieces.Content, Runs.Chunks;
    DeliversLengths(s, w, rounds, batches, w');
    var chunks, es, cs := Pieces.Transmission(ps), Flatten(batches), Laid(rounds, batches);
    LaidFlattened(rounds, batches);
    TransmissionIds(ps, id);
    forall i | 0 <= i < |cs| ensures cs[i].AsChunk() == Some(chunks[i]) {
      CarriedChunk(es[i], chunks[i]);
    }
    CarriedChunks(cs, chunks);
    TransmissionThroughRing(s, w, rounds, batches, w', ps);
    Pieces.SingleDictionary(ps, id);
  }

  lemma DeliversLengths(s: Settings, w: World, rounds: seq<Round>, batches: seq<seq<Ring.Entry>>, w': World)
    requires Delivers(s, w, rounds, batches, w')
    ensures |rounds| == |batches|
  {}

  lemma TransmissionIds(ps: seq<Pieces.Piece>, id: nat)
    requires ps != [] && forall p <- ps :: p.id == id
    ensures forall c <- Pieces.Transmission(ps) :: c.id == id
  {
    if |ps| > 1 {
      OpeningIds(Pieces.Front(ps), id);
    }
  }

  // ----- the BIOS can always do its part -----

  /** The region after the BIOS stored bytes from the read pointer on and published a write pointer past them. */
  function LayOut(s: Settings, mem: seq<byte>, bytes: seq<byte>): (m: seq<byte>)
    requires Invariant(s, mem) && |bytes| < s.config.MaxOffset()
    ensures |m| == |mem|
  {
    var q, r := Queue(s.config, mem), Decode(mem).bmcReadPtr;
    mem[..0x2c] + LeBytes(Ring.Advance(|q|, r, |bytes|), 3) + mem[0x2f..s.config.QueueOffset()] +
    Ring.Write(q, r, bytes) + mem[s.config.queueSize..]
  }

  lemma LayOutPieces(s: Settings, mem: seq<byte>, bytes: seq<byte>)
    requires Invariant(s, mem) && |bytes| < s.config.MaxOffset()
    ensures
      var m, q, r := LayOut(s, mem, bytes), Queue(s.config, mem), Decode(mem).bmcReadPtr;
      Queue(s.config, m) == Ring.Write(q, r, bytes) &&
      Decode(m) == Decode(mem).(biosWritePtr := Ring.Advance(|q|, r, |bytes|)) &&
      m[..0x2c] == mem[..0x2c] && m[HEADER_SIZE..s.config.QueueOffset()] == mem[HEADER_SIZE..s.config.QueueOffset()]
  {
    hide Ring.Write, LeBytes, LeNat, Word, Ring.Advance;
    var m, q, r := LayOut(s, mem, bytes), Queue(s.config, mem), Decode(mem).bmcReadPtr;
    var w := Ring.Advance(|q|, r, |bytes|);
    assert m[..0x2c] == mem[..0x2c];
    assert m[0x2c..0x2f] == LeBytes(w, 3);
    assert m[0x2f] == mem[0x2f];
    Pow256Values();
    LeNatOfLeBytes(w, 3);
    SamePrefixSlices(mem, m);
  }

  lemma SamePrefixSlices(a: seq<byte>, b: seq<byte>)
    requires |a| >= HEADER_SIZE && |b| >= HEADER_SIZE && a[..0x2c] == b[..0x2c] && a[0x2f] == b[0x2f]
    ensures Decode(b) == Decode(a).(biosWritePtr := LeNat(b[0x2c..0x2f]))
  {
    hide LeNat, Word;
    SameLeading(a, b, 0, 4);
    assert a[0..4] == a[..4] && b[0..4] == b[..4];
    SameLeading(a, b, 4, 8);
    SameLeading(a, b, 8, 0x18);
    SameLeading(a, b, 0x18, 0x1b);
    SameLeading(a, b, 0x1b, 0x1d);
    SameLeading(a, b, 0x1d, 0x21);
    SameLeading(a, b, 0x21, 0x24);
    SameLeading(a, b, 0x24, 0x28);
    SameLeading(a, b, 0x28, 0x2c);
  }

  lemma SameLeading(a: seq<byte>, b: seq<byte>, i: nat, j: nat)
    requires |a| >= HEADER_SIZE && |b| >= HEADER_SIZE && a[..0x2c] == b[..0x2c] && i <= j <= 0x2c
    ensures a[i..j] == b[i..j]
  {
    assert forall k :: i <= k < j ==> a[k] == a[..0x2c][k] && b[k] == b[..0x2c][k];
  }

  /** The round in which the BIOS lays out batch and posts no UE log. */
  function LayingOut(s: Settings, w: World, batch: seq<Ring.Entry>, answers: Answers): (r: Round)
    requires Invariant(s, w.mem) && Ring.Size(batch) < s.config.MaxOffset()
    ensures |r.mem| == |w.mem|
  {
    Round(LayOut(s, w.mem, Ring.EncodeAll(batch)), None, answers)
  }

  /** From any settled world, at whatever offset the pointers are, a batch that leaves a byte free can be laid out. */
  lemma LayOutWorks(s: Settings, w: World, batch: seq<Ring.Entry>, answers: Answers)
    requires Settled(s, w) && Ring.AllSealed(batch) && Ring.Size(batch) < s.config.MaxOffset()
    ensures
      var r := LayingOut(s, w, batch, answers);
      BiosStep(s, w.mem, r) && LaidOut(s, r.mem, batch)
  {
    hide Decode, Queue, Ring.Write, Ring.Read, Ring.EncodeAll;
    var bytes, q, r := Ring.EncodeAll(batch), Queue(s.config, w.mem), Decode(w.mem).bmcReadPtr;
    var m := LayOut(s, w.mem, bytes);
    LayOutPieces(s, w.mem, bytes);
    Ring.ReadWritten(q, r, bytes);
    assert m[..4] == m[..0x2c][..4] && w.mem[..4] == w.mem[..0x2c][..4];
    assert m[8..0x24] == m[..0x2c][8..0x24] && w.mem[8..0x24] == w.mem[..0x2c][8..0x24];
    assert UnreadUeLog(s, m) == UnreadUeLog(s, w.mem);
    assert BiosStep(s, w.mem, Round(m, None, answers));
    assert Ring.Distance(|q|, r, Ring.Advance(|q|, r, |bytes|)) == |bytes|;
    assert Invariant(s, m);
  }

  ghost predicate AllMultipart(es: seq<Ring.Entry>) {
    forall e <- es :: e.header.rdeCommandType == T.TYPE_MULTIPART
  }

  /** A batch of multi-part commands can be delivered first, before anything else that can be delivered. */
  lemma DeliverFirst(
      s: Settings, w: World, batch: seq<Ring.Entry>, answers: Answers,
      rounds: seq<Round>, batches: seq<seq<Ring.Entry>>, w': World)
    requires Settled(s, w) && Ring.AllSealed(batch) && Ring.Size(batch) < s.config.MaxOffset() && AllMultipart(batch)
    requires Delivers(s, Next(s, w, LayingOut(s, w, batch, answers)), rounds, batches, w')
    ensures Delivers(s, w, [LayingOut(s, w, batch, answers)] + rounds, [batch] + batches, w')
  {
    hide Decode, LayOut, LaidOut, Next, Ring.EncodeAll, BiosStep, T.Completes, Invariant;
    SettledFits(s, w);
    var r := LayingOut(s, w, batch, answers);
    LayOutWorks(s, w, batch, answers);
    NothingUnread(s, w, r);
    BatchCompletes(w.transfer, batch, answers.entries);
    assert ([r] + rounds)[1..] == rounds && ([batch] + batches)[1..] == batches;
  }

  lemma NothingUnread(s: Settings, w: World, r: Round)
    requires Settled(s, w) && BiosStep(s, w.mem, r) && r.post == None
    ensures !UeRefused(s, r.mem, w.transfer, r.answers)
  {}

  lemma BatchCompletes(t: T.State, batch: seq<Ring.Entry>, answers: nat -> T.BejOutcome)
    requires t.Wide() && AllMultipart(batch)
    ensures T.Completes(t, Commands(batch, answers))
  {
    T.MultipartCompletes(t, Commands(batch, answers));
  }

  /**
   The round trip in one poll: cut a dictionary into pieces, frame them, lay them in the ring, poll;
   the dictionary is retrievable, the ready bit is set, and no other dictionary changed.
   */
  lemma OnePollRoundTrip(
      s: Settings, w: World, ps: seq<Pieces.Piece>, id: nat, frames: seq<Ring.Entry>, answers: Answers)
    requires Settled(s, w) && ps != [] && id < 0x1_0000_0000 && forall p <- ps :: p.id == id
    requires |frames| == |Pieces.Transmission(ps)| && Ring.Size(frames) < s.config.MaxOffset()
    requires forall i :: 0 <= i < |frames| ==> Carries(frames[i], Pieces.Transmission(ps)[i])
    ensures
      var w' := Next(s, w, LayingOut(s, w, frames, answers));
      ReadyShown(w'.mem) && Dictionaries.Retrieve(w'.transfer.dicts, id) == Some(Pieces.Data(ps)) &&
      forall j: nat :: j != id ==>
        Dictionaries.Retrieve(w'.transfer.dicts, j) == Dictionaries.Retrieve(w.transfer.dicts, j)
  {
    hide Decode, LayOut, LayingOut, Pieces.Transmission, ReadyShown, Next, Ring.EncodeAll, Carries, Invariant;
    hide Pieces.Data, Dictionaries.Retrieve, Ring.Size;
    SettledFits(s, w);
    var r := LayingOut(s, w, frames, answers);
    var w' := Next(s, w, r);
    CarriedFrames(frames, ps, id);
    DeliverFirst(s, w, frames, answers, [], [], w');
    assert [r] + [] == [r] && [frames] + [] == [frames];
    FlattenOne(frames);
    DictionaryDelivered(s, w, [r], [frames], w', ps, id);
  }

  lemma FlattenOne(es: seq<Ring.Entry>)
    ensures Flatten([es]) == es
  {
    assert [es][1..] == [] && es + [] == es;
  }

  lemma CarriedFrames(frames: seq<Ring.Entry>, ps: seq<Pieces.Piece>, id: nat)
    requires ps != [] && id < 0x1_0000_0000 && forall p <- ps :: p.id == id
    requires |frames| == |Pieces.Transmission(ps)|
    requires forall i :: 0 <= i < |frames| ==> Carries(frames[i], Pieces.Transmission(ps)[i])
    ensures Ring.AllSealed(frames) && AllMultipart(frames)
  {
    hide Pieces.Transmission;
    TransmissionIds(ps, id);
    forall i | 0 <= i < |frames|
      ensures frames[i].Sealed() && frames[i].header.rdeCommandType == T.TYPE_MULTIPART
    {
      CarriedChunk(frames[i], Pieces.Transmission(ps)[i]);
    }
  }

  // ----- dictionaries larger than the ring -----

  lemma SettledInvariant(s: Settings, w: World)
    requires Settled(s, w)
    ensures Invariant(s, w.mem)
  {}

  lemma DeliversNothing(s: Settings, w: World)
    requires s.Valid() && |w.mem| >= s.config.queueSize && w.transfer.Wide()
    ensures Delivers(s, w, [], [], w) && Flatten([]) == []
  {}

  lemma FlattenCons(batch: seq<Ring.Entry>, batches: seq<seq<Ring.Entry>>)
    ensures Flatten([batch] + batches) == batch + Flatten(batches)
  {
    assert ([batch] + batches)[1..] == batches;
  }

  lemma FirstOfSealed(frames: seq<Ring.Entry>)
    requires frames != [] && Ring.AllSealed(frames) && AllMultipart(frames)
    ensures Ring.AllSealed(frames[..1]) && AllMultipart(frames[..1])
    ensures Ring.AllSealed(frames[1..]) && AllMultipart(frames[1..])
  {}

  /** Frames of any total size, each smaller than the ring, can be delivered one per poll. */
  lemma {:induction false} OneFramePerPoll(s: Settings, w: World, frames: seq<Ring.Entry>, answers: Answers)
    returns (rounds: seq<Round>, batches: seq<seq<Ring.Entry>>, w': World)
    requires Settled(s, w) && Ring.AllSealed(frames) && AllMultipart(frames)
    requires forall e <- frames :: e.Size() < s.config.MaxOffset()
    ensures Delivers(s, w, rounds, batches, w') && Flatten(batches) == frames
    decreases |frames|
  {
    hide Next, LayingOut, LaidOut, Delivers, Flatten, Ring.EncodeAll, Ring.Encode, Ring.Size;
    hide BiosStep, Settled, Ring.AllSealed, AllMultipart, Invariant;
    SettledFits(s, w);
    if frames == [] {
      rounds, batches, w' := [], [], w;
      DeliversNothing(s, w);
    } else {
      var e, rest := frames[0], frames[1..];
      assert frames[..1] == [e];
      OneEntry(e);
      FirstOfSealed(frames);
      SettledInvariant(s, w);
      var r := LayingOut(s, w, [e], answers);
      LayOutWorks(s, w, [e], answers);
      NextSettles(s, w, r);
      rounds, batches, w' := OneFramePerPoll(s, Next(s, w, r), rest, answers);
      DeliverFirst(s, w, [e], answers, rounds, batches, w');
      FlattenCons([e], batches);
      assert [e] + rest == frames;
      rounds, batches := [r] + rounds, [[e]] + batches;
    }
  }

  /** One dictionary in one StartAndEnd command. */
  function WholeDictionary(id: nat, data: seq<byte>): T.Chunk {
    T.Chunk(T.FLAG_START_AND_END, id, data, LeBytes(Crc.Crc32(data), 4))
  }

  lemma WholeIsTransmission(id: nat, data: seq<byte>)
    ensures var ps := [Pieces.Piece(id, data)];
            Pieces.Data(ps) == data && Pieces.Transmission(ps) == [WholeDictionary(id, data)]
  {
    hide Crc.Crc32;
    var ps := [Pieces.Piece(id, data)];
    assert Pieces.Front(ps) == [];
    assert Pieces.Data(ps) == [] + data == data;
  }

  lemma WholeFits(id: nat, data: seq<byte>)
    ensures |T.PrintMultipart(0, WholeDictionary(id, data))| == |data| + 14
  {
    hide Crc.Crc32;
  }

  lemma WholeCarries(id: nat, data: seq<byte>)
    requires |data| + 14 < 0x1_0000
    ensures |T.PrintMultipart(0, WholeDictionary(id, data))| < 0x1_0000
    ensures
      var e := Frame(0, 0, WholeDictionary(id, data));
      Carries(e, WholeDictionary(id, data)) && e.Size() == |data| + 20
  {
    hide WholeDictionary, T.PrintMultipart;
    WholeFits(id, data);
    assert 0 < 0x1_0000 && Frame(0, 0, WholeDictionary(id, data)) == Frame(0, 0, WholeDictionary(id, data));
  }

  lemma OneEntry(e: Ring.Entry)
    ensures Ring.EncodeAll([e]) == Ring.Encode(e) && Ring.Size([e]) == e.Size()
  {
    hide Ring.Encode;
    assert [e][1..] == [] && Ring.Encode(e) + [] == Ring.Encode(e);
  }

  lemma OpenedSize(s: Settings, mem: seq<byte>)
    requires s.Valid() && |mem| >= s.config.queueSize
    ensures Settled(s, Boot(s, mem)) && s.config.MaxOffset() < 0x1_0000
  {
    FreshIsSettled(s, mem);
  }

  /**
   The whole chain from power-up: initialize, one StartAndEnd frame laid in the ring, one poll, and
   exactly its data is retrievable.
   */
  lemma FirstDictionary(s: Settings, mem: seq<byte>, id: nat, data: seq<byte>, answers: Answers)
    requires s.Valid() && |mem| >= s.config.queueSize && id < 0x1_0000_0000
    requires |data| + 20 < s.config.MaxOffset()
    ensures
      var c := WholeDictionary(id, data);
      |T.PrintMultipart(0, c)| < 0x1_0000 &&
      var w, bytes := Boot(s, mem), Ring.Encode(Frame(0, 0, c));
      Invariant(s, w.mem) && |bytes| < s.config.MaxOffset() &&
      var w' := Next(s, w, Round(LayOut(s, w.mem, bytes), None, answers));
      ReadyShown(w'.mem) && Dictionaries.Retrieve(w'.transfer.dicts, id) == Some(data)
  {
    hide LayOut, ReadyShown, Next, Ring.Encode, Ring.EncodeAll, Ring.Size, Pieces.Data, Pieces.Transmission;
    hide Frame, Carries, WholeDictionary, T.PrintMultipart, Boot, Dictionaries.Retrieve;
    OpenedSize(s, mem);
    WholeCarries(id, data);
    WholeIsTransmission(id, data);
    var e := Frame(0, 0, WholeDictionary(id, data));
    OneEntry(e);
    OnePollRoundTrip(s, Boot(s, mem), [Pieces.Piece(id, data)], id, [e], answers);
  }

  /** The frames of a list of commands. */
  function Frames(chunks: seq<T.Chunk>): (es: seq<Ring.Entry>)
    requires forall c <- chunks :: |T.PrintMultipart(0, c)| < 0x1_0000
    ensures |es| == |chunks|
  {
    seq(|chunks|, i requires 0 <= i < |chunks| => Frame(0, 0, chunks[i]))
  }

  lemma FramesCarry(chunks: seq<T.Chunk>, i: nat)
    requires i < |chunks| && forall c <- chunks :: |T.PrintMultipart(0, c)| < 0x1_0000
    ensures Carries(Frames(chunks)[i], chunks[i])
    ensures Frames(chunks)[i].Size() == 6 + |T.PrintMultipart(0, chunks[i])|
  {
    hide T.PrintMultipart;
    var c := chunks[i];
    assert 0 < 0x1_0000 && Frame(0, 0, c) == Frame(0, 0, c);
  }

  lemma {:induction false} OpeningData(ps: seq<Pieces.Piece>)
    requires ps != []
    ensures |Pieces.Opening(ps)| == |ps|
    ensures forall i :: 0 <= i < |ps| ==>
              Pieces.Opening(ps)[i].data == ps[i].data && Pieces.Opening(ps)[i].trailer == []
    decreases |ps|
  {
    if |ps| > 1 {
      OpeningData(Pieces.Front(ps));
    }
  }

  lemma TransmissionSizes(ps: seq<Pieces.Piece>, limit: nat)
    requires ps != [] && forall p <- ps :: |p.data| <= limit
    ensures forall c <- Pieces.Transmission(ps) :: |T.PrintMultipart(0, c)| <= limit + 14
  {
    hide Crc.Crc32, Pieces.Data, LeBytes;
    if |ps| > 1 {
      OpeningData(Pieces.Front(ps));
    }
  }

  /**
   Any cut of a dictionary of any size into pieces whose frames are smaller than the ring can be
   delivered over enough polls, from any settled world; then exactly its bytes are retrievable.
   */
  lemma AnyCutDeliverable(s: Settings, w: World, ps: seq<Pieces.Piece>, id: nat, answers: Answers)
    returns (rounds: seq<Round>, batches: seq<seq<Ring.Entry>>, w': World)
    requires Settled(s, w) && ps != [] && id < 0x1_0000_0000 && forall p <- ps :: p.id == id
    requires forall p <- ps :: |p.data| + 20 < s.config.MaxOffset()
    ensures Delivers(s, w, rounds, batches, w') && ReadyShown(w'.mem)
    ensures Dictionaries.Retrieve(w'.transfer.dicts, id) == Some(Pieces.Data(ps))
    ensures forall j: nat :: j != id ==>
              Dictionaries.Retrieve(w'.transfer.dicts, j) == Dictionaries.Retrieve(w.transfer.dicts, j)
  {
    hide Settled, Delivers, Pieces.Transmission, Pieces.Data, Carries, T.PrintMultipart, ReadyShown, Flatten;
    hide Dictionaries.Retrieve, Frame, Ring.AllSealed, AllMultipart;
    SettledFits(s, w);
    var chunks := Pieces.Transmission(ps);
    assert |ps[0].data| + 20 < s.config.MaxOffset();
    TransmissionSizes(ps, s.config.MaxOffset() - 21);
    var frames := Frames(chunks);
    forall i | 0 <= i < |frames|
      ensures Carries(frames[i], chunks[i]) && frames[i].Size() < s.config.MaxOffset()
    {
      FramesCarry(chunks, i);
    }
    CarriedFrames(frames, ps, id);
    rounds, batches, w' := OneFramePerPoll(s, w, frames, answers);
    DictionaryDelivered(s, w, rounds, batches, w', ps, id);
  }

  /** One byte a piece; an empty dictionary is one empty piece. */
  function Bytewise(id: nat, data: seq<byte>): (ps: seq<Pieces.Piece>)
    ensures ps != [] && forall p <- ps :: p.id == id && |p.data| <= 1
  {
    if data == [] then [Pieces.Piece(id, [])]
    else if |data| == 1 then [Pieces.Piece(id, data)]
    else Bytewise(id, data[..|data| - 1]) + [Pieces.Piece(id, data[|data| - 1..])]
  }

  lemma {:induction false} BytewiseData(id: nat, data: seq<byte>)
    ensures Pieces.Data(Bytewise(id, data)) == data
  {
    var ps := Bytewise(id, data);
    if |data| <= 1 {
      assert Pieces.Front(ps) == [];
    } else {
      BytewiseData(id, data[..|data| - 1]);
      assert Pieces.Front(ps) == Bytewise(id, data[..|data| - 1]);
      assert data[..|data| - 1] + data[|data| - 1..] == data;
    }
  }

  /** Whatever its size, every dictionary can be delivered through a ring of 22 bytes or more. */
  lemma AnyDictionaryDeliverable(s: Settings, w: World, id: nat, data: seq<byte>, answers: Answers)
    returns (rounds: seq<Round>, batches: seq<seq<Ring.Entry>>, w': World)
    requires Settled(s, w) && id < 0x1_0000_0000 && s.config.MaxOffset() >= 22
    ensures Delivers(s, w, rounds, batches, w') && ReadyShown(w'.mem)
    ensures Dictionaries.Retrieve(w'.transfer.dicts, id) == Some(data)
  {
    hide Settled, Delivers, ReadyShown, Dictionaries.Retrieve;
    SettledFits(s, w);
    BytewiseData(id, data);
    rounds, batches, w' := AnyCutDeliverable(s, w, Bytewise(id, data), id, answers);
  }

  // ----- a poll that is not all or nothing -----

  const THROWING: T.BejOutcome := T.BejOutcome(true, T.Threw)

  /** Every JSON that is decoded makes the storer throw. */
  function AlwaysThrows(i: nat): T.BejOutcome {
    THROWING
  }

  /** A Start that opens dictionary other, then an update of resource id over which the storer throws. */
  function Interrupted(id: nat, other: nat): (es: seq<Ring.Entry>)
    requires id < 0x1_0000_0000 && other < 0x1_0000_0000
    ensures |es| == 2 && Ring.AllSealed(es)
  {
    var request := T.OperationRequest(id, 0, T.OPERATION_UPDATE, 2, 0, [], []);
    [Ring.Seal(0, T.TYPE_MULTIPART, T.PrintMultipart(0, T.Chunk(T.FLAG_START, other, [], []))),
     Ring.Seal(1, T.TYPE_OPERATION_INIT, T.PrintOperation(request))]
  }

  lemma InterruptedSize(id: nat, other: nat)
    requires id < 0x1_0000_0000 && other < 0x1_0000_0000
    ensures Ring.Size(Interrupted(id, other)) == 39
  {
    var es := Interrupted(id, other);
    assert es[1..] == [es[1]] && es[1..][1..] == [];
    assert |es[0].body| == 10 && |es[1].body| == 17;
  }

  lemma StartTakesEffect(t: T.State, c: T.Chunk, bej: T.BejOutcome)
    requires t.Wide() && c.flag == T.FLAG_START && c.id < 0x1_0000_0000 && |c.data| < 0x1_0000_0000
    ensures
      var u := T.HandleStart(t, c).state.(prevId := c.id);
      u.Wide() &&
      T.Decode(t, T.Command(T.TYPE_MULTIPART, T.PrintMultipart(0, c), bej)) == Success(T.Reply(u, T.Ok))
  {
    hide Crc.Register, T.PrintMultipart, T.ParseMultipart;
    T.MultipartRoundTrip(0, c);
  }

  lemma UpdateThrows(u: T.State, request: T.OperationRequest)
    requires u.Wide() && request.Fits() && T.ReachesStorer(request, u.dicts, THROWING)
    ensures T.Decode(u, T.Command(T.TYPE_OPERATION_INIT, T.PrintOperation(request), THROWING)).Failure?
  {
    hide T.PrintOperation, T.OperationInit;
    T.PrintedOperationVerdict(request, [], u.dicts, THROWING);
    assert T.PrintOperation(request) + [] == T.PrintOperation(request);
  }

  /** A command that takes effect, and one that throws. */
  lemma RunOfTwo(t: T.State, a: T.Command, b: T.Command, u: T.State)
    requires t.Wide() && u.Wide() && T.Decode(t, a) == Success(T.Reply(u, T.Ok)) && T.Decode(u, b).Failure?
    ensures T.Run(t, [a, b]) == T.Outcome(u, [T.Ok])
  {
    hide T.Decode, T.Run;
    T.RunNil(t);
    T.RunSnoc(t, [], a);
    assert [] + [a] == [a];
    T.RunSnoc(t, [a], b);
    assert [a] + [b] == [a, b];
  }

  lemma InterruptedCommands(id: nat, other: nat)
    requires id < 0x1_0000_0000 && other < 0x1_0000_0000
    ensures
      var c := T.Chunk(T.FLAG_START, other, [], []);
      var request := T.OperationRequest(id, 0, T.OPERATION_UPDATE, 2, 0, [], []);
      Commands(Interrupted(id, other), AlwaysThrows) ==
      [T.Command(T.TYPE_MULTIPART, T.PrintMultipart(0, c), THROWING),
       T.Command(T.TYPE_OPERATION_INIT, T.PrintOperation(request), THROWING)]
  {
    var cs := Commands(Interrupted(id, other), AlwaysThrows);
    assert |cs| == 2 && cs == [cs[0], cs[1]];
  }

  lemma InterruptedRun(t: T.State, id: nat, other: nat)
    requires t.Wide() && id < 0x1_0000_0000 && other < 0x1_0000_0000 && other != id && other != 0
    requires Dictionaries.Retrieve(t.dicts, 0).Some? && Dictionaries.Retrieve(t.dicts, id).Some?
    ensures
      var o := T.Run(t, Commands(Interrupted(id, other), AlwaysThrows));
      o.statuses == [T.Ok] && other in o.state.dicts && !o.state.dicts[other].valid
  {
    hide Crc.Register, T.PrintMultipart, T.PrintOperation, T.Decode, T.Run;
    var c := T.Chunk(T.FLAG_START, other, [], []);
    var request := T.OperationRequest(id, 0, T.OPERATION_UPDATE, 2, 0, [], []);
    var u := T.HandleStart(t, c).state.(prevId := c.id);
    var cs := Commands(Interrupted(id, other), AlwaysThrows);
    var a := T.Command(T.TYPE_MULTIPART, T.PrintMultipart(0, c), THROWING);
    var b := T.Command(T.TYPE_OPERATION_INIT, T.PrintOperation(request), THROWING);
    InterruptedCommands(id, other);
    StartTakesEffect(t, c, THROWING);
    UpdateThrows(u, request);
    RunOfTwo(t, a, b, u);
  }

  /** From any settled world with the two dictionaries: one entry takes effect, the other is lost with the region. */
  lemma PartialPollHappens(s: Settings, w: World, id: nat, other: nat, ue: T.BejOutcome)
    requires Settled(s, w) && s.config.MaxOffset() > 39
    requires id < 0x1_0000_0000 && other < 0x1_0000_0000 && other != id && other != 0
    requires Dictionaries.Retrieve(w.transfer.dicts, 0).Some? && Dictionaries.Retrieve(w.transfer.dicts, id).Some?
    ensures Ring.Size(Interrupted(id, other)) == 39
    ensures
      var answers := Answers(ue, AlwaysThrows);
      var r := LayingOut(s, w, Interrupted(id, other), answers);
      var p := Poll(s, r.mem, w.transfer, answers);
      BiosStep(s, w.mem, r) && p.reinitialized && p.statuses == [T.Ok] && other in p.transfer.dicts &&
      !AllOrNothing(s, r.mem, w.transfer, answers)
  {
    hide Decode, LayOut, T.Run, T.Decode, Poll, UeRefused, BiosStep, Queue, Ring.ReadLogs, Settings.Fresh, Ring.Size;
    hide Interrupted, Commands, UnreadUeLog, Ring.EncodeAll, Ring.Read, Stores, Dictionaries.Retrieve, Differ;
    var answers := Answers(ue, AlwaysThrows);
    var es := Interrupted(id, other);
    InterruptedSize(id, other);
    InterruptedRun(w.transfer, id, other);
    var r := LayingOut(s, w, es, answers);
    LayOutWorks(s, w, es, answers);
    NothingUnread(s, w, r);
    var h, q := Decode(r.mem), Queue(s.config, r.mem);
    Ring.ParserInvertsPrinter(q, h.bmcReadPtr, h.biosWritePtr, es);
    assert ReadLogs(s.config, r.mem).Outcome() == Success(es);
    PollOutcome(s, r.mem, w.transfer, answers);
    var p := Poll(s, r.mem, w.transfer, answers);
    CommandsPrefix(es, AlwaysThrows, |p.statuses|);
    FirstThrow(w.transfer, Commands(es, AlwaysThrows), |p.statuses|);
  }
}
