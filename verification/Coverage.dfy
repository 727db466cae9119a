/**
 Which retrievable dictionaries an accepted checksum covered.  The code completes dictionaries
 before, and sometimes without, comparing a checksum; this module says exactly when.
 */
module Coverage {
  import opened Bytes
  import opened Bits
  import opened Wrappers
  import opened Dictionaries
  import opened Transfer
  import opened Runs
  import Crc
  import Pieces

  // ----- one command, by guards on the state before it -----

  /** A Middle or End passes its order and dictionary checks. */
  predicate Extends(s: State, c: Chunk) {
    s.flagState == StartRecvd && (s.prevId != c.id || c.id in s.dicts)
  }

  /** The command's data is stored under its id. */
  predicate Writes(s: State, c: Chunk) {
    c.flag == FLAG_START || c.flag == FLAG_START_AND_END ||
    ((c.flag == FLAG_MIDDLE || c.flag == FLAG_END) && Extends(s, c))
  }

  /** The command gets as far as handleCrc. */
  predicate Closing(s: State, c: Chunk) {
    c.flag == FLAG_START_AND_END || (c.flag == FLAG_END && Extends(s, c))
  }

  /** The checksum a closing command is compared with. */
  function Sum(s: State, c: Chunk): nat
    requires s.Wide()
  {
    Crc.Checksum(Crc.Register(if c.flag == FLAG_START_AND_END then Ones(32) else s.crc, c.data))
  }

  predicate Accepts(s: State, c: Chunk)
    requires s.Wide()
  {
    Closing(s, c) && |c.trailer| == 4 && LeNat(c.trailer) == Sum(s, c)
  }

  predicate Rejects(s: State, c: Chunk)
    requires s.Wide()
  {
    Closing(s, c) && |c.trailer| == 4 && LeNat(c.trailer) != Sum(s, c)
  }

  /** The command marks id complete: its own dictionary, or the previous one it moves on from. */
  predicate Finishes(s: State, c: Chunk, id: nat) {
    (Closing(s, c) && c.id == id) ||
    ((c.flag == FLAG_MIDDLE || c.flag == FLAG_END) && s.flagState == StartRecvd &&
     s.prevId == id && id != c.id && id in s.dicts)
  }

  predicate Incomplete(s: State, id: nat) {
    id in s.dicts && !s.dicts[id].valid
  }

  lemma StatusByGuards(s: State, c: Chunk)
    requires s.Wide()
    ensures Apply(s, c).status == StopFlagReceived <==> Accepts(s, c)
    ensures Apply(s, c).status == InvalidChecksum <==> Rejects(s, c)
  {
    hide Crc.Register, Crc.Checksum, LeNat, InvalidateAll;
  }

  /** Exactly which dictionaries can be had after a command. */
  lemma RetrievableAfter(s: State, c: Chunk, id: nat)
    requires s.Wide()
    ensures
      Retrieve(Apply(s, c).state.dicts, id).Some? <==>
        !Rejects(s, c) && (Finishes(s, c, id) || (Retrieve(s.dicts, id).Some? && !(Writes(s, c) && c.id == id)))
  {
    hide Crc.Register, Crc.Checksum, LeNat;
  }

  /**
   The guard of the branches that complete a dictionary no checksum has been compared for: a Middle
   that moves on from an incomplete dictionary, or a closing command without a four-byte trailer.
   */
  predicate CompletesUnchecked(s: State, c: Chunk) {
    (c.flag == FLAG_MIDDLE && s.flagState == StartRecvd && s.prevId != c.id && Incomplete(s, s.prevId)) ||
    (Closing(s, c) && |c.trailer| != 4 &&
     (Retrieve(s.dicts, c.id).None? || (c.flag == FLAG_END && s.prevId != c.id && Incomplete(s, s.prevId))))
  }

  /** Exactly when a dictionary becomes retrievable by a command that is not answered by the stop flag. */
  lemma RetrievableExactly(s: State, c: Chunk)
    requires s.Wide()
    ensures
      var r := Apply(s, c);
      r.status != StopFlagReceived &&
      (exists id: nat :: Retrieve(s.dicts, id).None? && Retrieve(r.state.dicts, id).Some?)
      <==> CompletesUnchecked(s, c)
  {
    hide Apply, Crc.Register, Crc.Checksum, LeNat, Retrieve, Sum;
    var m := Apply(s, c).state.dicts;
    StatusByGuards(s, c);
    forall id: nat
      ensures Retrieve(m, id).Some? <==>
                !Rejects(s, c) && (Finishes(s, c, id) || (Retrieve(s.dicts, id).Some? && !(Writes(s, c) && c.id == id)))
    {
      RetrievableAfter(s, c, id);
    }
    IncompleteIsNone(s, s.prevId);
    if CompletesUnchecked(s, c) {
      var id := if Retrieve(s.dicts, c.id).None? && Closing(s, c) then c.id else s.prevId;
      assert Retrieve(s.dicts, id).None? && Retrieve(m, id).Some?;
    }
  }

  /** The command's data takes the place of what its id held; otherwise it is added to that. */
  predicate Replaces(s: State, c: Chunk) {
    Restarts(c) || s.prevId != c.id
  }

  /** Closing the command's dictionary changes what can be had under its id. */
  predicate ChangesOwn(s: State, c: Chunk) {
    Retrieve(s.dicts, c.id).None? ||
    if Replaces(s, c) then Retrieve(s.dicts, c.id) != Some(c.data) else c.data != []
  }

  /**
   The guard of the branches that put unchecked data where it can be had: a Middle that moves on from
   an incomplete dictionary; or a closing command without a four-byte trailer that completes its own
   dictionary or the one it moves on from, or replaces or extends one that was complete.
   */
  predicate ServesUnchecked(s: State, c: Chunk) {
    (c.flag == FLAG_MIDDLE && s.flagState == StartRecvd && s.prevId != c.id && Incomplete(s, s.prevId)) ||
    (Closing(s, c) && |c.trailer| != 4 &&
     (ChangesOwn(s, c) || (c.flag == FLAG_END && s.prevId != c.id && Incomplete(s, s.prevId))))
  }

  /** What can be had under id is there, and is not what could be had before. */
  predicate Served(s: State, r: Reply, id: nat) {
    Retrieve(r.state.dicts, id).Some? && Retrieve(r.state.dicts, id) != Retrieve(s.dicts, id)
  }

  /** What an id yields after a command. */
  lemma YieldAfter(s: State, c: Chunk, id: nat)
    requires s.Wide()
    ensures
      Retrieve(Apply(s, c).state.dicts, id) ==
      if Rejects(s, c) then None
      else if Writes(s, c) && c.id == id then
        if !Closing(s, c) then None
        else Some(if Replaces(s, c) then c.data else s.dicts[id].data + c.data)
      else if Finishes(s, c, id) then Some(s.dicts[id].data)
      else Retrieve(s.dicts, id)
  {
    hide Apply, Sum, LeNat;
    RetrievableAfter(s, c, id);
    DataAfter(s, c, id);
    ClosingIsNotRejected(s, c);
  }

  lemma ClosingIsNotRejected(s: State, c: Chunk)
    requires s.Wide()
    ensures Closing(s, c) ==> Writes(s, c) && Finishes(s, c, c.id)
    ensures Writes(s, c) && !Closing(s, c) ==> !Finishes(s, c, c.id)
  {}

  lemma ConcatDiffers(a: seq<byte>, b: seq<byte>)
    ensures a + b == a <==> b == []
  {
    assert |a + b| == |a| + |b|;
  }

  /**
   Exactly when a command that is not answered by the stop flag makes an id yield data that it did not
   yield before.
   */
  lemma UncheckedExactly(s: State, c: Chunk)
    requires s.Wide()
    ensures
      Apply(s, c).status != StopFlagReceived && (exists id: nat :: Served(s, Apply(s, c), id))
      <==> ServesUnchecked(s, c)
  {
    hide Apply, Crc.Register, Crc.Checksum, LeNat, Sum;
    var r := Apply(s, c);
    StatusByGuards(s, c);
    YieldAfter(s, c, c.id);
    YieldAfter(s, c, s.prevId);
    ClosingIsNotRejected(s, c);
    if c.id in s.dicts {
      ConcatDiffers(s.dicts[c.id].data, c.data);
    }
    if r.status != StopFlagReceived && exists id: nat :: Served(s, r, id) {
      var id: nat :| Served(s, r, id);
      YieldAfter(s, c, id);
      assert ServesUnchecked(s, c);
    }
    if ServesUnchecked(s, c) {
      assert Served(s, r, c.id) || Served(s, r, s.prevId);
    }
  }

  /** A complete dictionary replaced by unchecked data, without a checksum. */
  lemma ReplacedUnchecked()
    ensures
      var s := INITIAL.(dicts := map[7 := DictionaryEntry(true, [1])]);
      var r := Apply(s, Chunk(FLAG_START_AND_END, 7, [2], []));
      r.status == InvalidCommand && Retrieve(s.dicts, 7) == Some([1]) && Retrieve(r.state.dicts, 7) == Some([2])
  {
    hide Crc.Register, Crc.Checksum, LeNat;
  }

  lemma IncompleteIsNone(s: State, id: nat)
    ensures Incomplete(s, id) <==> id in s.dicts && Retrieve(s.dicts, id).None?
  {}

  // ----- runs -----

  /** The transfer state after a run from power-up. */
  function Final(chunks: seq<Chunk>): (s: State)
    ensures s.Wide()
  {
    ApplyAll(INITIAL, chunks).state
  }

  function Front(chunks: seq<Chunk>): seq<Chunk>
    requires chunks != []
  {
    chunks[..|chunks| - 1]
  }

  function Back(chunks: seq<Chunk>): Chunk
    requires chunks != []
  {
    chunks[|chunks| - 1]
  }

  predicate Restarts(c: Chunk) {
    c.flag == FLAG_START || c.flag == FLAG_START_AND_END
  }

  /** All data stored since the checksum register was last reset. */
  function Written(chunks: seq<Chunk>): (data: seq<byte>) {
    if chunks == [] then []
    else
      var s, c := Final(Front(chunks)), Back(chunks);
      if !Writes(s, c) then Written(Front(chunks))
      else if Restarts(c) then c.data
      else Written(Front(chunks)) + c.data
  }

  /** The ids all of whose present data was stored since then. */
  function Fresh(chunks: seq<Chunk>): (ids: set<nat>) {
    if chunks == [] then {}
    else
      var s, c := Final(Front(chunks)), Back(chunks);
      if !Writes(s, c) then Fresh(Front(chunks))
      else if Restarts(c) then {c.id}
      else if s.prevId != c.id then Fresh(Front(chunks)) + {c.id}
      else Fresh(Front(chunks))
  }

  /** The ids whose present data an accepted checksum covered. */
  function Vouched(chunks: seq<Chunk>): (ids: set<nat>) {
    if chunks == [] then {}
    else
      var s, c := Final(Front(chunks)), Back(chunks);
      var kept := if Writes(s, c) then Vouched(Front(chunks)) - {c.id} else Vouched(Front(chunks));
      if Accepts(s, c) then kept + Fresh(chunks) else kept
  }

  lemma FinalStep(chunks: seq<Chunk>)
    requires chunks != []
    ensures Final(chunks) == Apply(Final(Front(chunks)), Back(chunks)).state
  {
    hide Apply;
  }

  // ----- what an accepted checksum covers -----

  /** d is w with some bytes left out. */
  ghost predicate Within(d: seq<byte>, w: seq<byte>) {
    d == [] ||
    (w != [] &&
     ((d[|d| - 1] == w[|w| - 1] && Within(d[..|d| - 1], w[..|w| - 1])) || Within(d, w[..|w| - 1])))
  }

  lemma {:induction false} WithinBoth(d: seq<byte>, w: seq<byte>, x: seq<byte>)
    requires Within(d, w)
    ensures Within(d + x, w + x)
  {
    if x == [] {
      assert d + x == d && w + x == w;
    } else {
      var y := x[..|x| - 1];
      WithinBoth(d, w, y);
      assert (d + x)[..|d + x| - 1] == d + y && (w + x)[..|w + x| - 1] == w + y;
    }
  }

  lemma {:induction false} WithinMore(d: seq<byte>, w: seq<byte>, x: seq<byte>)
    requires Within(d, w)
    ensures Within(d, w + x)
  {
    if x == [] {
      assert w + x == w;
    } else {
      var y := x[..|x| - 1];
      WithinMore(d, w, y);
      assert (w + x)[..|w + x| - 1] == w + y;
    }
  }

  lemma WithinSelf(x: seq<byte>, w: seq<byte>)
    ensures Within(x, w + x) && Within(x, x)
  {
    WithinBoth([], w, x);
    WithinBoth([], [], x);
    assert [] + x == x;
  }

  /** In every reachable state the register is that of the data written since its reset. */
  lemma {:induction false} RegisterIsWritten(chunks: seq<Chunk>)
    ensures Final(chunks).crc == Crc.Register(Ones(32), Written(chunks))
  {
    hide Crc.Register, Crc.Checksum, LeNat, InvalidateAll;
    if chunks == [] {
      RegisterNil();
    } else {
      RegisterIsWritten(Front(chunks));
      Crc.RegisterConcat(Ones(32), Written(Front(chunks)), Back(chunks).data);
    }
  }

  lemma RegisterNil()
    ensures Crc.Register(Ones(32), []) == Ones(32)
  {}

  /** What a command does to the data kept under an id. */
  lemma DataAfter(s: State, c: Chunk, id: nat)
    requires s.Wide()
    ensures
      var m := Apply(s, c).state.dicts;
      (id in m <==> id in s.dicts || (Writes(s, c) && c.id == id)) &&
      (id in m ==>
         m[id].data ==
         if !(Writes(s, c) && c.id == id) then s.dicts[id].data
         else if Restarts(c) || s.prevId != c.id then c.data
         else s.dicts[id].data + c.data)
  {
    hide Crc.Register, Crc.Checksum, LeNat;
  }

  /** All bytes of a fresh dictionary went through the register. */
  lemma {:induction false} FreshIsCovered(chunks: seq<Chunk>, id: nat)
    requires id in Fresh(chunks)
    ensures id in Final(chunks).dicts && Within(Final(chunks).dicts[id].data, Written(chunks))
  {
    hide Apply, Final, Within;
    FinalStep(chunks);
    var s, c := Final(Front(chunks)), Back(chunks);
    DataAfter(s, c, id);
    WithinSelf(c.data, Written(Front(chunks)));
    if id in Fresh(Front(chunks)) {
      FreshIsCovered(Front(chunks), id);
      WithinMore(s.dicts[id].data, Written(Front(chunks)), c.data);
      WithinBoth(s.dicts[id].data, Written(Front(chunks)), c.data);
    }
  }

  /**
   After any run, a command is answered by the stop flag exactly if it closes a transfer and its
   trailer is the CRC-32 of everything written since the reset, its own data included; and all data
   of every dictionary vouched for then is among that.
   */
  lemma AcceptedCovers(chunks: seq<Chunk>)
    requires chunks != []
    ensures
      var s, c := Final(Front(chunks)), Back(chunks);
      (Apply(s, c).status == StopFlagReceived <==>
         Closing(s, c) && |c.trailer| == 4 && LeNat(c.trailer) == Crc.Crc32(Written(chunks))) &&
      forall id <- Fresh(chunks) ::
        id in Final(chunks).dicts && Within(Final(chunks).dicts[id].data, Written(chunks))
  {
    hide Apply, Crc.Register, Crc.Checksum, LeNat, Final, Fresh, Within;
    var s, c := Final(Front(chunks)), Back(chunks);
    StatusByGuards(s, c);
    RegisterIsWritten(Front(chunks));
    Crc.RegisterConcat(Ones(32), Written(Front(chunks)), c.data);
    forall id | id in Fresh(chunks)
      ensures id in Final(chunks).dicts && Within(Final(chunks).dicts[id].data, Written(chunks))
    {
      FreshIsCovered(chunks, id);
    }
  }

  // ----- what it means to be vouched for -----

  /**
   The k-th command was answered by the stop flag, its trailer is the CRC-32 of everything written
   since the register's reset, and all present data of id is among that.
   */
  ghost predicate CoveredBy(chunks: seq<Chunk>, id: nat, k: nat) {
    0 < k <= |chunks| &&
    var run := chunks[..k];
    var c := Back(run);
    Apply(Final(Front(run)), c).status == StopFlagReceived &&
    |c.trailer| == 4 && LeNat(c.trailer) == Crc.Crc32(Written(run)) &&
    id in Final(chunks).dicts && Within(Final(chunks).dicts[id].data, Written(run))
  }

  lemma FreshIsCoveredBy(chunks: seq<Chunk>, id: nat)
    requires chunks != [] && Accepts(Final(Front(chunks)), Back(chunks)) && id in Fresh(chunks)
    ensures CoveredBy(chunks, id, |chunks|)
  {
    hide Apply, Final, Fresh, Within, Written, Crc.Crc32, LeNat, Sum;
    assert chunks[..|chunks|] == chunks;
    StatusByGuards(Final(Front(chunks)), Back(chunks));
    AcceptedCovers(chunks);
  }

  lemma CoveredStays(chunks: seq<Chunk>, id: nat, k: nat)
    requires chunks != [] && CoveredBy(Front(chunks), id, k)
    requires !(Writes(Final(Front(chunks)), Back(chunks)) && Back(chunks).id == id)
    ensures CoveredBy(chunks, id, k)
  {
    hide Apply, Final, Within, Written, Crc.Crc32, LeNat;
    assert Front(chunks)[..k] == chunks[..k];
    FinalStep(chunks);
    DataAfter(Final(Front(chunks)), Back(chunks), id);
  }

  /** Being vouched for is being covered by some accepted command, with the data that is still stored. */
  lemma {:induction false} VouchedIsCovered(chunks: seq<Chunk>, id: nat) returns (k: nat)
    requires id in Vouched(chunks)
    ensures CoveredBy(chunks, id, k)
  {
    hide Final, Fresh, CoveredBy, Accepts, Writes;
    var s, c := Final(Front(chunks)), Back(chunks);
    if Accepts(s, c) && id in Fresh(chunks) {
      FreshIsCoveredBy(chunks, id);
      k := |chunks|;
    } else {
      k := VouchedIsCovered(Front(chunks), id);
      CoveredStays(chunks, id, k);
    }
  }

  // ----- retrievable but not covered, over all runs -----

  /** id can be had, but no accepted checksum covered its present data. */
  predicate Uncovered(chunks: seq<Chunk>, id: nat) {
    Retrieve(Final(chunks).dicts, id).Some? && id !in Vouched(chunks)
  }

  /** The last command completes id, and no checksum it passes covers id's data. */
  predicate Exposes(chunks: seq<Chunk>, id: nat)
    requires chunks != []
  {
    var s, c := Final(Front(chunks)), Back(chunks);
    Finishes(s, c, id) && !Rejects(s, c) && !(Accepts(s, c) && id in Fresh(chunks)) &&
    ((Writes(s, c) && c.id == id) || id !in Vouched(Front(chunks)))
  }

  /** The last command makes id incomplete, or vouches for it. */
  predicate Settles(chunks: seq<Chunk>, id: nat)
    requires chunks != []
  {
    var s, c := Final(Front(chunks)), Back(chunks);
    Rejects(s, c) || (Accepts(s, c) && id in Fresh(chunks)) || (Writes(s, c) && c.id == id)
  }

  lemma UncoveredStep(chunks: seq<Chunk>, id: nat)
    requires chunks != []
    ensures Uncovered(chunks, id) <==>
              Exposes(chunks, id) || (Uncovered(Front(chunks), id) && !Settles(chunks, id))
  {
    hide Apply, Final, Fresh, Retrieve, Accepts, Rejects, Finishes, Writes;
    FinalStep(chunks);
    RetrievableAfter(Final(Front(chunks)), Back(chunks), id);
    AcceptsIsNotRejects(Final(Front(chunks)), Back(chunks));
  }

  lemma AcceptsIsNotRejects(s: State, c: Chunk)
    requires s.Wide()
    ensures !(Accepts(s, c) && Rejects(s, c))
    ensures Accepts(s, c) ==> Writes(s, c) && Finishes(s, c, c.id)
  {
    hide Sum, LeNat;
  }

  /** Some command exposed id, and no later one settled it. */
  ghost predicate ExposedSince(chunks: seq<Chunk>, id: nat) {
    exists k: nat :: 0 < k <= |chunks| && Exposes(chunks[..k], id) &&
      forall j: nat :: k < j <= |chunks| ==> !Settles(chunks[..j], id)
  }

  /**
   Over every run: a dictionary is retrievable without an accepted checksum covering it exactly if
   some command completed it unchecked and none since has rewritten, rejected or vouched for it.
   */
  lemma {:induction false} UncoveredExactly(chunks: seq<Chunk>, id: nat)
    ensures Uncovered(chunks, id) <==> ExposedSince(chunks, id)
  {
    hide Exposes, Settles, Final, Vouched;
    if chunks == [] {
      NothingUncovered(id);
    } else {
      var n := |chunks|;
      UncoveredExactly(Front(chunks), id);
      UncoveredStep(chunks, id);
      assert chunks[..n] == chunks;
      assert forall k: nat :: k < n ==> Front(chunks)[..k] == chunks[..k];
      if ExposedSince(chunks, id) && !Exposes(chunks, id) {
        var k: nat :| 0 < k <= n && Exposes(chunks[..k], id) &&
          forall j: nat :: k < j <= n ==> !Settles(chunks[..j], id);
        assert k < n;
        assert forall j: nat :: k < j < n ==> !Settles(Front(chunks)[..j], id);
        assert Exposes(Front(chunks)[..k], id);
        assert !Settles(chunks[..n], id);
      }
      if ExposedSince(Front(chunks), id) && !Settles(chunks, id) {
        var k: nat :| 0 < k <= n - 1 && Exposes(Front(chunks)[..k], id) &&
          forall j: nat :: k < j <= n - 1 ==> !Settles(Front(chunks)[..j], id);
        assert Exposes(chunks[..k], id);
        forall j: nat | k < j <= n ensures !Settles(chunks[..j], id) {
          if j < n {
            assert !Settles(Front(chunks)[..j], id);
          }
        }
      }
      if Exposes(chunks, id) {
        assert Exposes(chunks[..n], id);
      }
    }
  }

  lemma NothingUncovered(id: nat)
    ensures !Uncovered([], id)
  {}

  // ----- senders for which complete does mean checked -----

  /** Known flags, a four-byte trailer on every closing command, and no transfer started inside another. */
  ghost predicate Orderly(chunks: seq<Chunk>) {
    chunks == [] ||
    var s, c := Final(Front(chunks)), Back(chunks);
    Orderly(Front(chunks)) && KnownFlag(c) &&
    (c.flag == FLAG_END || c.flag == FLAG_START_AND_END ==> |c.trailer| == 4) &&
    (Restarts(c) ==> s.flagState == Idle)
  }

  /** With an orderly sender only dictionaries of the transfer still open are retrievable and uncovered. */
  lemma {:induction false} OrderlyCovers(chunks: seq<Chunk>)
    requires Orderly(chunks)
    ensures Final(chunks).flagState == StartRecvd ==> Final(chunks).prevId in Fresh(chunks)
    ensures forall id: nat :: Uncovered(chunks, id) ==> Final(chunks).flagState == StartRecvd && id in Fresh(chunks)
  {
    hide Apply, Vouched, Retrieve, Final;
    if chunks == [] {
      forall id: nat ensures !Uncovered(chunks, id) {
        NothingUncovered(id);
      }
      InitialIdle();
    } else {
      var s, c := Final(Front(chunks)), Back(chunks);
      OrderlyCovers(Front(chunks));
      FinalStep(chunks);
      FlagsAfter(s, c);
      if s.flagState == StartRecvd {
        FreshIsCovered(Front(chunks), s.prevId);
      }
      forall id: nat | Uncovered(chunks, id)
        ensures Final(chunks).flagState == StartRecvd && id in Fresh(chunks)
      {
        UncoveredStep(chunks, id);
        AcceptsIsNotRejects(s, c);
      }
    }
  }

  lemma InitialIdle()
    ensures Final([]).flagState == Idle
  {}

  /** The flag state and the previous id after a command. */
  lemma FlagsAfter(s: State, c: Chunk)
    requires s.Wide()
    ensures
      var t := Apply(s, c).state;
      t.prevId == c.id &&
      t.flagState ==
        if c.flag == FLAG_START then StartRecvd
        else if c.flag == FLAG_END || c.flag == FLAG_START_AND_END then Idle
        else s.flagState
  {
    hide Crc.Register, Crc.Checksum, LeNat, InvalidateAll;
  }

  /**
   Between transfers of an orderly sender, every dictionary that can be had was covered by a command
   answered by the stop flag, with exactly the data it still has.
   */
  lemma OrderlyCompleteIsChecked(chunks: seq<Chunk>, id: nat)
    requires Orderly(chunks) && Final(chunks).flagState == Idle
    ensures Retrieve(Final(chunks).dicts, id).Some? ==> id in Vouched(chunks) && exists k :: CoveredBy(chunks, id, k)
  {
    hide CoveredBy, Vouched, Final, Orderly, Fresh;
    OrderlyCovers(chunks);
    if Retrieve(Final(chunks).dicts, id).Some? {
      assert !Uncovered(chunks, id);
      var k := VouchedIsCovered(chunks, id);
    }
  }

  // ----- the ways in which it does not -----

  const STRAY: byte := 77

  /** The run of a list, and of the list with one more command. */
  lemma OneStep(s: State, chunks: seq<Chunk>, c: Chunk, all: seq<Chunk>)
    requires s.Wide() && all == chunks + [c]
    ensures
      var o := ApplyAll(s, chunks);
      var r := Apply(o.state, c);
      ApplyAll(s, all) == Outcome(r.state, o.statuses + [r.status])
    ensures Front(all) == chunks && Back(all) == c
  {
    ApplySnoc(s, chunks, c);
  }

  lemma NoSteps(s: State)
    requires s.Wide()
    ensures ApplyAll(s, []) == Outcome(s, [])
  {}

  lemma TwoSteps(s: State, a: Chunk, b: Chunk)
    requires s.Wide()
    ensures
      var p := Apply(s, a);
      var q := Apply(p.state, b);
      ApplyAll(s, [a]) == Outcome(p.state, [p.status]) &&
      ApplyAll(s, [a, b]) == Outcome(q.state, [p.status, q.status])
    ensures Front([a, b]) == [a] && Front([a]) == []
  {
    hide Apply, ApplyAll, Front, Back;
    NoSteps(s);
    OneStep(s, [], a, [a]);
    OneStep(s, [a], b, [a, b]);
  }

  lemma FourSteps(s: State, a: Chunk, b: Chunk, c: Chunk, d: Chunk)
    requires s.Wide()
    ensures
      var p := Apply(s, a);
      var q := Apply(p.state, b);
      var r := Apply(q.state, c);
      var t := Apply(r.state, d);
      ApplyAll(s, [a, b, c, d]) == Outcome(t.state, [p.status, q.status, r.status, t.status]) &&
      ApplyAll(s, [a, b, c]).state == r.state
    ensures Front([a, b, c, d]) == [a, b, c] && Front([a, b, c]) == [a, b]
  {
    hide Apply, ApplyAll, Front, Back;
    TwoSteps(s, a, b);
    OneStep(s, [a, b], c, [a, b, c]);
    OneStep(s, [a, b, c], d, [a, b, c, d]);
  }

  /** Moving on to another dictionary completes the first one; there was no trailer yet. */
  lemma MiddleCompletesUnchecked()
    ensures
      var chunks := [Chunk(FLAG_START, 1, [1, 2, 3], []), Chunk(FLAG_MIDDLE, 2, [4], [])];
      var o := ApplyAll(INITIAL, chunks);
      o.statuses == [Ok, Ok] && Retrieve(o.state.dicts, 1) == Some([1, 2, 3]) && Uncovered(chunks, 1)
  {
    hide Crc.Register, Crc.Checksum, LeNat;
    var a, b := Chunk(FLAG_START, 1, [1, 2, 3], []), Chunk(FLAG_MIDDLE, 2, [4], []);
    TwoSteps(INITIAL, a, b);
    assert Vouched([a]) == {};
  }

  /** A dictionary whose checksum was compared and found wrong becomes retrievable again. */
  lemma RejectedComesBack(s: State, trailer: seq<byte>)
    requires s.Wide() && |trailer| == 4 && LeNat(trailer) != Crc.Crc32([9])
    ensures
      var o := ApplyAll(s, [Chunk(FLAG_START_AND_END, 3, [9], trailer), Chunk(FLAG_START, 1, [], []),
                            Chunk(STRAY, 3, [], []), Chunk(FLAG_MIDDLE, 2, [], [])]);
      o.statuses == [InvalidChecksum, Ok, InvalidCommand, Ok] && Retrieve(o.state.dicts, 3) == Some([9])
  {
    hide Crc.Register, Crc.Checksum, LeNat, ApplyAll;
    FourSteps(s, Chunk(FLAG_START_AND_END, 3, [9], trailer), Chunk(FLAG_START, 1, [], []),
              Chunk(STRAY, 3, [], []), Chunk(FLAG_MIDDLE, 2, [], []));
  }

  /** Even the stop flag can complete data that its checksum did not cover. */
  lemma StoppedButUncovered()
    ensures
      var chunks := [Chunk(FLAG_START_AND_END, 3, [9], []), Chunk(FLAG_START, 1, [], []),
                     Chunk(STRAY, 3, [], []), Chunk(FLAG_END, 3, [], LeBytes(Crc.Crc32([]), 4))];
      var o := ApplyAll(INITIAL, chunks);
      o.statuses == [InvalidCommand, Ok, InvalidCommand, StopFlagReceived] &&
      Retrieve(o.state.dicts, 3) == Some([9]) && Uncovered(chunks, 3)
  {
    hide Crc.Register, Crc.Checksum, LeNat, LeBytes, ApplyAll, Apply, Written, Retrieve;
    var a, b := Chunk(FLAG_START_AND_END, 3, [9], []), Chunk(FLAG_START, 1, [], []);
    var c, d := Chunk(STRAY, 3, [], []), Chunk(FLAG_END, 3, [], LeBytes(Crc.Crc32([]), 4));
    TwoSteps(INITIAL, a, b);
    FourSteps(INITIAL, a, b, c, d);
    StoppedRun(INITIAL, a, b, c, d);
    var chunks := [a, b, c, d];
    assert Fresh([a, b]) == {1};
    assert Fresh(chunks) == {1};
    assert Vouched([a]) == {};
    assert Vouched([a, b]) == {};
    assert Vouched([a, b, c]) == {};
  }

  lemma StoppedRun(s: State, a: Chunk, b: Chunk, c: Chunk, d: Chunk)
    requires s.Wide()
    requires a == Chunk(FLAG_START_AND_END, 3, [9], []) && b == Chunk(FLAG_START, 1, [], [])
    requires c == Chunk(STRAY, 3, [], []) && d == Chunk(FLAG_END, 3, [], LeBytes(Crc.Crc32([]), 4))
    ensures
      var p := Apply(s, a);
      var q := Apply(p.state, b);
      var r := Apply(q.state, c);
      var t := Apply(r.state, d);
      p.status == InvalidCommand && q.status == Ok && r.status == InvalidCommand && t.status == StopFlagReceived &&
      Retrieve(t.state.dicts, 3) == Some([9]) &&
      q.state.flagState == r.state.flagState == StartRecvd && r.state.prevId == 3 && 3 in r.state.dicts
  {
    hide Crc.Register, Crc.Checksum, LeNat, LeBytes, InvalidateAll;
    var nothing: seq<byte>, nine: seq<byte> := [], [9];
    assert nothing + nothing == nothing && nine + nothing == nine;
    Crc.RegisterConcat(Ones(32), nothing, nothing);
    Pieces.Crc32Fits([]);
    Pieces.TrailerValue(Crc.Crc32([]));
  }
}
