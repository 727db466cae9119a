/**
 A transfer of several dictionaries in one Start..End run: what the sender cuts up and what the
 receiver ends up with.
 */
module Pieces {
  import opened Bytes
  import opened Bits
  import opened Wrappers
  import opened Dictionaries
  import opened Transfer
  import opened Runs
  import Crc

  /** Some bytes of the dictionary with this id. */
  datatype Piece = Piece(id: nat, data: seq<byte>)

  function Last(ps: seq<Piece>): Piece
    requires ps != []
  {
    ps[|ps| - 1]
  }

  function Front(ps: seq<Piece>): seq<Piece>
    requires ps != []
  {
    ps[..|ps| - 1]
  }

  function Data(ps: seq<Piece>): (d: seq<byte>) {
    if ps == [] then [] else Data(Front(ps)) + Last(ps).data
  }

  function Ids(ps: seq<Piece>): set<nat> {
    if ps == [] then {} else Ids(Front(ps)) + {Last(ps).id}
  }

  /** Bytes of the longest run of pieces at the end that share the last id. */
  function LastGroup(ps: seq<Piece>): (d: seq<byte>)
    requires ps != []
  {
    if |ps| > 1 && Last(Front(ps)).id == Last(ps).id then LastGroup(Front(ps)) + Last(ps).data
    else Last(ps).data
  }

  /** Bytes of the last consecutive group of pieces with this id. */
  function Content(ps: seq<Piece>, id: nat): (d: seq<byte>)
    requires id in Ids(ps)
  {
    if Last(ps).id == id then LastGroup(ps) else Content(Front(ps), id)
  }

  /** The dictionaries after the transfer. */
  function Delivered(m: Store, ps: seq<Piece>): (m': Store) {
    map id | id in m.Keys + Ids(ps) ::
      if id in Ids(ps) then DictionaryEntry(true, Content(ps, id)) else m[id]
  }

  // ----- the sender -----

  /** Every piece but the last of a longer transfer: a Start, then Middles. */
  function Opening(ps: seq<Piece>): (chunks: seq<Chunk>)
    requires ps != []
  {
    if |ps| == 1 then [Chunk(FLAG_START, ps[0].id, ps[0].data, [])]
    else Opening(Front(ps)) + [Chunk(FLAG_MIDDLE, Last(ps).id, Last(ps).data, [])]
  }

  /** Start, Middles and End, or a single StartAndEnd; four bytes of checksum close it. */
  function TransmissionWith(ps: seq<Piece>, checksum: nat): (chunks: seq<Chunk>)
    requires ps != []
    ensures |chunks| > 0
  {
    var trailer := LeBytes(checksum, 4);
    if |ps| == 1 then [Chunk(FLAG_START_AND_END, ps[0].id, ps[0].data, trailer)]
    else Opening(Front(ps)) + [Chunk(FLAG_END, Last(ps).id, Last(ps).data, trailer)]
  }

  /** What a correct sender emits: the checksum is that of all data. */
  function Transmission(ps: seq<Piece>): (chunks: seq<Chunk>)
    requires ps != []
    ensures |chunks| > 0
  {
    TransmissionWith(ps, Crc.Crc32(Data(ps)))
  }

  // ----- the receiver -----

  /** While the transfer is open its current dictionary is still incomplete. */
  function OpenDictionaries(m: Store, ps: seq<Piece>): (m': Store)
    requires ps != []
  {
    Delivered(m, ps)[Last(ps).id := DictionaryEntry(false, LastGroup(ps))]
  }

  /** The next piece of the current dictionary is appended to it. */
  lemma AppendPiece(m: Store, ps: seq<Piece>, p: Piece)
    requires ps != [] && p.id == Last(ps).id
    ensures OpenDictionaries(m, ps + [p]) == Append(OpenDictionaries(m, ps), p.id, p.data)
  {
    assert Front(ps + [p]) == ps;
    assert LastGroup(ps + [p]) == LastGroup(ps) + p.data;
  }

  /** The first piece of another dictionary closes the current one. */
  lemma SwitchPiece(m: Store, ps: seq<Piece>, p: Piece)
    requires ps != [] && p.id != Last(ps).id
    ensures OpenDictionaries(m, ps + [p]) == Start(Complete(OpenDictionaries(m, ps), Last(ps).id), p.id, p.data)
  {
    assert Front(ps + [p]) == ps;
    assert Delivered(m, ps) == Complete(OpenDictionaries(m, ps), Last(ps).id);
    assert LastGroup(ps + [p]) == p.data;
  }

  lemma FirstPiece(m: Store, p: Piece)
    ensures OpenDictionaries(m, [p]) == Start(m, p.id, p.data)
  {
    assert Front([p]) == [];
    assert Ids([p]) == {p.id};
  }

  lemma CloseLast(m: Store, ps: seq<Piece>)
    requires ps != []
    ensures Complete(OpenDictionaries(m, ps), Last(ps).id) == Delivered(m, ps)
  {
    assert Content(ps, Last(ps).id) == LastGroup(ps);
  }

  /** A state in which a transfer of ps is open. */
  function Opened(s: State, ps: seq<Piece>): (t: State)
    requires ps != []
    ensures t.Wide()
  {
    State(StartRecvd, Last(ps).id, Crc.Register(Ones(32), Data(ps)), OpenDictionaries(s.dicts, ps))
  }

  /** One more piece under the open transfer, whichever flag carries it. */
  lemma ExtendOpened(s: State, ps: seq<Piece>, c: Chunk)
    requires ps != []
    ensures
      var qs := ps + [Piece(c.id, c.data)];
      var t := Opened(s, ps);
      Extend(t, c) == Some(Opened(s, qs).(prevId := t.prevId))
  {
    hide Crc.Register, LeNat, OpenDictionaries;
    var p := Piece(c.id, c.data);
    var qs := ps + [p];
    assert Front(qs) == ps && Last(qs) == p;
    Crc.RegisterConcat(Ones(32), Data(ps), p.data);
    if p.id == Last(ps).id {
      CurrentOpen(s.dicts, ps);
      AppendPiece(s.dicts, ps, p);
    } else {
      SwitchPiece(s.dicts, ps, p);
    }
  }

  lemma CurrentOpen(m: Store, ps: seq<Piece>)
    requires ps != []
    ensures Last(ps).id in OpenDictionaries(m, ps)
  {}

  function OkTimes(n: nat): (statuses: seq<Status>)
    ensures |statuses| == n
  {
    seq(n, _ => Ok)
  }

  lemma {:induction false} OpeningOpens(s: State, ps: seq<Piece>)
    requires s.Wide() && ps != []
    ensures ApplyAll(s, Opening(ps)) == Outcome(Opened(s, ps), OkTimes(|ps|))
    decreases |ps|
  {
    hide Crc.Register, LeNat, OpenDictionaries;
    if |ps| == 1 {
      var c := Chunk(FLAG_START, ps[0].id, ps[0].data, []);
      ApplySnoc(s, [], c);
      assert [] + [c] == [c] && ps == [ps[0]];
      FirstPiece(s.dicts, ps[0]);
      assert Data(ps) == [] + ps[0].data == ps[0].data;
      assert OkTimes(1) == [] + [Ok];
    } else {
      var c := Chunk(FLAG_MIDDLE, Last(ps).id, Last(ps).data, []);
      OpeningOpens(s, Front(ps));
      ApplySnoc(s, Opening(Front(ps)), c);
      ExtendOpened(s, Front(ps), c);
      assert Front(ps) + [Piece(c.id, c.data)] == ps;
      assert OkTimes(|ps|) == OkTimes(|ps| - 1) + [Ok];
    }
  }

  lemma TrailerValue(checksum: nat)
    requires checksum < 0x1_0000_0000
    ensures LeNat(LeBytes(checksum, 4)) == checksum
  {
    assert Pow256(4) == 0x1_0000_0000;
    LeNatOfLeBytes(checksum, 4);
  }

  /** The state a correct transmission of ps leaves. */
  function Closed(s: State, ps: seq<Piece>): (t: State)
    requires ps != []
    ensures t.Wide()
  {
    State(Idle, Last(ps).id, Crc.Register(Ones(32), Data(ps)), Delivered(s.dicts, ps))
  }

  /** The reply to the command that closes a transmission of ps. */
  function Verdict(s: State, ps: seq<Piece>, checksum: nat): (r: Reply)
    requires ps != []
    ensures r.state.Wide()
  {
    var t := Closed(s, ps);
    if checksum == Crc.Crc32(Data(ps)) then Reply(t, StopFlagReceived)
    else Reply(t.(dicts := InvalidateAll(t.dicts)), InvalidChecksum)
  }

  lemma EndCloses(s: State, ps: seq<Piece>, c: Chunk, checksum: nat)
    requires ps != [] && c.flag == FLAG_END && checksum < 0x1_0000_0000 && c.trailer == LeBytes(checksum, 4)
    ensures Apply(Opened(s, ps), c) == Verdict(s, ps + [Piece(c.id, c.data)], checksum)
  {
    hide Crc.Register, Crc.Checksum, LeNat, LeBytes, OpenDictionaries, Delivered, InvalidateAll;
    var qs := ps + [Piece(c.id, c.data)];
    var idle := Opened(s, ps).(flagState := Idle);
    ExtendOpened(s, ps, c);
    CloseLast(s.dicts, qs);
    TrailerValue(checksum);
    assert Last(qs).id == c.id;
    assert Extend(idle, c) == Some(Opened(s, qs).(prevId := idle.prevId, flagState := Idle));
  }

  lemma StartAndEndCloses(s: State, p: Piece, c: Chunk, checksum: nat)
    requires s.Wide() && checksum < 0x1_0000_0000
    requires c == Chunk(FLAG_START_AND_END, p.id, p.data, LeBytes(checksum, 4))
    ensures Apply(s, c) == Verdict(s, [p], checksum)
  {
    hide Crc.Register, Crc.Checksum, LeNat, LeBytes, OpenDictionaries, Delivered, InvalidateAll;
    FirstPiece(s.dicts, p);
    CloseLast(s.dicts, [p]);
    assert Front([p]) == [];
    assert Data([p]) == [] + p.data == p.data;
    TrailerValue(checksum);
  }

  lemma ShortVerdict(s: State, p: Piece, checksum: nat)
    requires s.Wide() && checksum < 0x1_0000_0000
    ensures
      var r := Verdict(s, [p], checksum);
      ApplyAll(s, TransmissionWith([p], checksum)) == Outcome(r.state, [r.status])
  {
    hide Data, LeBytes, Opened, Verdict, Apply, Opening;
    var c := Chunk(FLAG_START_AND_END, p.id, p.data, LeBytes(checksum, 4));
    ApplySnoc(s, [], c);
    assert [] + [c] == [c];
    StartAndEndCloses(s, p, c, checksum);
  }

  lemma LongVerdict(s: State, ps: seq<Piece>, checksum: nat)
    requires s.Wide() && |ps| > 1 && checksum < 0x1_0000_0000
    ensures
      var r := Verdict(s, ps, checksum);
      ApplyAll(s, TransmissionWith(ps, checksum)) == Outcome(r.state, OkTimes(|ps| - 1) + [r.status])
  {
    hide Data, LeBytes, Opened, Verdict, Apply, Opening, ApplyAll;
    var c := Chunk(FLAG_END, Last(ps).id, Last(ps).data, LeBytes(checksum, 4));
    OpeningOpens(s, Front(ps));
    ApplySnoc(s, Opening(Front(ps)), c);
    assert Front(ps) + [Piece(c.id, c.data)] == ps;
    EndCloses(s, Front(ps), c, checksum);
  }

  /** From any state, with any checksum: everything but the last command is answered Ok, the last by the verdict. */
  lemma TransmissionVerdict(s: State, ps: seq<Piece>, checksum: nat)
    requires s.Wide() && ps != [] && checksum < 0x1_0000_0000
    ensures
      var r := Verdict(s, ps, checksum);
      ApplyAll(s, TransmissionWith(ps, checksum)) == Outcome(r.state, OkTimes(|ps| - 1) + [r.status])
  {
    hide ApplyAll, TransmissionWith, Verdict;
    if |ps| == 1 {
      ShortVerdict(s, ps[0], checksum);
      assert ps == [ps[0]];
      assert OkTimes(0) + [Verdict(s, ps, checksum).status] == [Verdict(s, ps, checksum).status];
    } else {
      LongVerdict(s, ps, checksum);
    }
  }

  lemma Crc32Fits(data: seq<byte>)
    ensures Crc.Crc32(data) < 0x1_0000_0000
  {
    Pow2Values();
  }

  /**
   From any state, a correct transmission is answered Ok .. Ok StopFlagReceived; each of its ids ends
   valid and holding its last consecutive group of pieces, and every other id is untouched.
   */
  lemma TransmissionDelivers(s: State, ps: seq<Piece>)
    requires s.Wide() && ps != []
    ensures ApplyAll(s, Transmission(ps)) == Outcome(Closed(s, ps), OkTimes(|ps| - 1) + [StopFlagReceived])
  {
    hide Data, ApplyAll, TransmissionWith, Crc.Crc32, Closed;
    Crc32Fits(Data(ps));
    TransmissionVerdict(s, ps, Crc.Crc32(Data(ps)));
  }

  /**
   Corruption of at most four consecutive data bytes on the way, anywhere in the transfer and however
   it was cut: the receiver reports a bad checksum and no dictionary at all is retrievable.
   */
  lemma BurstRejected(
      s: State, ps: seq<Piece>, prefix: seq<byte>, u: seq<byte>, v: seq<byte>, suffix: seq<byte>)
    requires s.Wide() && ps != [] && |u| == |v| <= 4 && u != v
    requires Data(ps) == prefix + v + suffix
    ensures
      var o := ApplyAll(s, TransmissionWith(ps, Crc.Crc32(prefix + u + suffix)));
      o.statuses == OkTimes(|ps| - 1) + [InvalidChecksum] && ValidIds(o.state.dicts) == {}
  {
    hide Data, ApplyAll, TransmissionWith, Crc.Crc32, Closed;
    Crc32Fits(prefix + u + suffix);
    Crc.BurstDetected(prefix, u, v, suffix);
    TransmissionVerdict(s, ps, Crc.Crc32(prefix + u + suffix));
  }

  // ----- how the bytes were cut does not matter -----

  /** Neighbouring pieces of one dictionary joined. */
  function Coalesce(ps: seq<Piece>): (gs: seq<Piece>)
    ensures ps != [] ==> gs != [] && Last(gs).id == Last(ps).id
  {
    if ps == [] then [] else Join(Coalesce(Front(ps)), Last(ps))
  }

  /** No two neighbours share an id. */
  predicate Alternating(gs: seq<Piece>) {
    forall i :: 0 < i < |gs| ==> gs[i - 1].id != gs[i].id
  }

  /** Coalesce's step, on a list that already alternates. */
  function Join(gs: seq<Piece>, p: Piece): (r: seq<Piece>) {
    if gs != [] && Last(gs).id == p.id then Front(gs) + [Piece(p.id, Last(gs).data + p.data)]
    else gs + [p]
  }

  lemma JoinIds(gs: seq<Piece>, p: Piece)
    ensures Ids(Join(gs, p)) == Ids(gs) + {p.id}
  {
    assert Front(Join(gs, p)) == if gs != [] && Last(gs).id == p.id then Front(gs) else gs;
  }

  lemma JoinAlternates(gs: seq<Piece>, p: Piece)
    requires Alternating(gs)
    ensures Alternating(Join(gs, p))
  {
    hide Data, Ids;
  }

  lemma JoinKeeps(gs: seq<Piece>, p: Piece)
    requires Alternating(gs)
    ensures
      var r := Join(gs, p);
      Alternating(r) && Data(r) == Data(gs) + p.data && Ids(r) == Ids(gs) + {p.id} &&
      Front(r) == (if gs != [] && Last(gs).id == p.id then Front(gs) else gs)
  {
    hide Alternating, Ids;
    var r := Join(gs, p);
    JoinAlternates(gs, p);
    JoinIds(gs, p);
    assert Front(r) == if gs != [] && Last(gs).id == p.id then Front(gs) else gs;
    if gs != [] && Last(gs).id == p.id {
      assert Data(r) == Data(Front(gs)) + (Last(gs).data + p.data) == Data(gs) + p.data;
    }
  }

  lemma {:induction false} CoalesceKeeps(ps: seq<Piece>)
    ensures
      var gs := Coalesce(ps);
      Alternating(gs) && Data(gs) == Data(ps) && Ids(gs) == Ids(ps) &&
      (ps != [] ==> Last(gs).data == LastGroup(ps))
  {
    hide Alternating;
    if ps != [] {
      CoalesceKeeps(Front(ps));
      JoinKeeps(Coalesce(Front(ps)), Last(ps));
    } else {
      AlternatingNil();
    }
  }

  lemma AlternatingNil()
    ensures Alternating([])
  {}

  lemma AlternatingGroup(gs: seq<Piece>)
    requires gs != [] && Alternating(gs)
    ensures LastGroup(gs) == Last(gs).data
  {}

  lemma {:induction false} CoalesceContent(ps: seq<Piece>, id: nat)
    requires id in Ids(ps)
    ensures id in Ids(Coalesce(ps)) && Content(Coalesce(ps), id) == Content(ps, id)
  {
    hide Alternating, Data, LastGroup, Join;
    CoalesceKeeps(ps);
    var gs := Coalesce(ps);
    if Last(ps).id == id {
      AlternatingGroup(gs);
    } else {
      CoalesceKeeps(Front(ps));
      CoalesceContent(Front(ps), id);
      JoinContent(Coalesce(Front(ps)), Last(ps), id);
    }
  }

  lemma JoinContent(gs: seq<Piece>, p: Piece, id: nat)
    requires Alternating(gs) && id in Ids(gs) && p.id != id
    ensures id in Ids(Join(gs, p)) && Content(Join(gs, p), id) == Content(gs, id)
  {
    hide Alternating, Data, LastGroup;
    JoinKeeps(gs, p);
  }

  lemma CoalesceDelivers(m: Store, ps: seq<Piece>)
    ensures Delivered(m, Coalesce(ps)) == Delivered(m, ps)
  {
    CoalesceKeeps(ps);
    forall id | id in Ids(ps) ensures Content(Coalesce(ps), id) == Content(ps, id) {
      CoalesceContent(ps, id);
    }
  }

  /** Two ways of cutting the same groups leave the same state, registers included. */
  lemma CuttingDoesNotMatter(s: State, ps: seq<Piece>, qs: seq<Piece>)
    requires s.Wide() && ps != [] && qs != [] && Coalesce(ps) == Coalesce(qs)
    ensures ApplyAll(s, Transmission(ps)).state == ApplyAll(s, Transmission(qs)).state
  {
    hide Crc.Register, Delivered, Coalesce;
    TransmissionDelivers(s, ps);
    TransmissionDelivers(s, qs);
    CoalesceKeeps(ps);
    CoalesceKeeps(qs);
    CoalesceDelivers(s.dicts, ps);
    CoalesceDelivers(s.dicts, qs);
  }

  /** A transfer of one dictionary delivers the concatenation of its pieces. */
  lemma {:induction false} SingleDictionary(ps: seq<Piece>, id: nat)
    requires ps != [] && forall p <- ps :: p.id == id
    ensures Ids(ps) == {id} && Content(ps, id) == Data(ps) == LastGroup(ps)
  {
    if |ps| == 1 {
      assert Front(ps) == [];
    } else {
      SingleDictionary(Front(ps), id);
    }
  }
}
