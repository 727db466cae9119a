/**
 Reader and writer on the ring at the same time, one byte access of the BMC per step: it reads the
 write pointer's two bytes and single queue bytes, and stores the two bytes of its read pointer
 after an entry's header and again after its body.  The BIOS writes single bytes into what it sees
 as free space and publishes the write pointer last.

 The ring has fewer than 2^16 bytes, so the third byte of a pointer is always zero.
 */
module Interleaving {
  import opened Bytes
  import opened Wrappers
  import opened Ring

  datatype ReaderState =
    | Idle
    | Snapping(first: nat, count: nat)
    | Header(limit: nat, toRead: nat, byteRead: nat, got: seq<byte>)
    | Body(limit: nat, toRead: nat, byteRead: nat, head: QueueEntryHeader, got: seq<byte>)
    | Failed(error: Error)

  datatype WriterState = Quiet | Writing(e: Entry, written: nat)

  /**
   Ring bytes, published write pointer, and up to where the reader has read.  What the region shows
   of the latter is shown; half says that only the low byte of it has been stored, over the pointer
   prev.  gap is how many bytes the BIOS always leaves free.  Then the two sides' local states; and
   for the record the entries published and returned so far, and how many of them the snapshot
   that the reader works on covers.
   */
  datatype World = World(
    q: seq<byte>, w: nat, r: nat, shown: nat, half: bool, prev: nat, gap: nat,
    reader: ReaderState, writer: WriterState,
    appended: seq<Entry>, returned: seq<Entry>, mark: nat)

  /** Index of the i-th byte from p. */
  function At(m: nat, p: nat, i: nat): (k: nat)
    requires p < m && i < m
    ensures k < m
  {
    if p + i < m then p + i else p + i - m
  }

  function Used(x: World): (n: nat) {
    if x.r < |x.q| && x.w < |x.q| then Distance(|x.q|, x.r, x.w) else 0
  }

  /** A pointer with the low byte of one and the high byte of another. */
  function Torn(low: nat, high: nat): (p: nat) {
    low % 256 + 256 * (high / 256)
  }

  // ----- the BMC -----

  /**
   The low byte of the new read pointer is stored.  The checks that follow a read access no memory,
   so the reader is taken to have made them when the high byte is stored in its next step.
   */
  function Publish(x: World, p: nat): (y: World) {
    x.(r := p, shown := Torn(p, x.r), prev := x.r, half := true)
  }

  /** Both bytes are stored. */
  function Settle(x: World): (y: World) {
    x.(shown := x.r, prev := x.r, half := false)
  }

  /** Entries published but not yet returned. */
  function Rest(x: World): seq<Entry> {
    if |x.returned| <= |x.appended| then x.appended[|x.returned|..] else []
  }

  /** How many whole entries the first d bytes hold. */
  function Whole(es: seq<Entry>, d: nat): (k: nat)
    ensures k <= |es|
  {
    if es == [] || es[0].Size() > d then 0 else 1 + Whole(es[1..], d - es[0].Size())
  }

  /** The checks of readErrorLogs on the write pointer v it has read. */
  function Snapshot(x: World, v: nat): (y: World)
    requires x.r < |x.q|
  {
    if v > |x.q| then x.(reader := Failed(WritePtrTooBig), mark := |x.returned|)
    else if v == x.r then x.(reader := Idle, mark := |x.returned|)
    else
      var d := Distance(|x.q|, x.r, v);
      x.(reader := Header(v, d, 0, []), mark := |x.returned| + Whole(Rest(x), d))
  }

  /** The next byte access of readErrorLogs. */
  function BmcStep(x: World): (y: World) {
    var m := |x.q|;
    if m < ENTRY_HEADER_SIZE || x.r >= m then x
    else if x.half then Settle(x)
    else match x.reader
      case Idle => x.(reader := Snapping(x.w, |x.appended|))
      case Snapping(first, _) => Snapshot(x, Torn(first, x.w))
      case Header(limit, toRead, byteRead, got) =>
        if |got| < ENTRY_HEADER_SIZE then
          x.(reader := Header(limit, toRead, byteRead, got + [x.q[At(m, x.r, |got|)]]))
        else if |got| > ENTRY_HEADER_SIZE then x
        else
          var head := DecodeHeader(got);
          Publish(x, Advance(m, x.r, ENTRY_HEADER_SIZE)).(
            reader := if head.entrySize > m then Failed(LengthTooBig) else Body(limit, toRead, byteRead, head, []))
      case Body(limit, toRead, byteRead, head, got) =>
        if |got| < head.entrySize && |got| < m then
          x.(reader := Body(limit, toRead, byteRead, head, got + [x.q[At(m, x.r, |got|)]]))
        else if |got| > m then x
        else
          var p := Advance(m, x.r, |got|);
          var y := Publish(x, p);
          if XorAll(EncodeHeader(head)) ^ XorAll(got) != 0 then y.(reader := Failed(BadChecksum))
          else
            var n := byteRead + ENTRY_HEADER_SIZE + |got|;
            y.(returned := x.returned + [Entry(head, got)],
               reader :=
                 if n < toRead then Header(limit, toRead, n, [])
                 else if p != limit then Failed(PointerMismatch)
                 else Idle)
      case Failed(_) => x
  }

  // ----- the BIOS -----

  datatype Step = Bmc | BiosBegin(e: Entry) | BiosWrite | BiosPublish

  /** Bytes in use by the pointers the region shows. */
  function Seen(x: World): (n: nat) {
    if |x.q| > 0 && x.w < |x.q| then Distance(|x.q|, x.shown % |x.q|, x.w) else 0
  }

  /** The BIOS starts an entry only if it sees gap bytes stay free, and publishes only a whole entry. */
  ghost predicate Enabled(x: World, step: Step) {
    match step
    case Bmc => true
    case BiosBegin(e) => x.writer == Quiet && e.Sealed() && Seen(x) + e.Size() + x.gap <= |x.q|
    case BiosWrite =>
      x.writer.Writing? && x.writer.written < x.writer.e.Size() && x.w < |x.q| && x.writer.written < |x.q|
    case BiosPublish => x.writer.Writing? && x.writer.written == x.writer.e.Size() <= |x.q| && x.w < |x.q|
  }

  ghost function Do(x: World, step: Step): (y: World)
    requires Enabled(x, step)
  {
    match step
    case Bmc => BmcStep(x)
    case BiosBegin(e) => x.(writer := Writing(e, 0))
    case BiosWrite =>
      var k := x.writer.written;
      x.(q := x.q[At(|x.q|, x.w, k) := Encode(x.writer.e)[k]], writer := x.writer.(written := k + 1))
    case BiosPublish =>
      x.(w := Advance(|x.q|, x.w, x.writer.e.Size()), writer := Quiet, appended := x.appended + [x.writer.e])
  }

  ghost predicate Runs(x: World, schedule: seq<Step>, y: World)
    decreases |schedule|
  {
    if schedule == [] then x == y
    else Enabled(x, schedule[0]) && Runs(Do(x, schedule[0]), schedule[1..], y)
  }

  // ----- what a run must avoid -----

  /** The pointer v is where some of the published entries end. */
  predicate Boundary(x: World, v: nat) {
    x.r < |x.q| && v < |x.q| &&
    var d := Distance(|x.q|, x.r, v);
    Size(Rest(x)[..Whole(Rest(x), d)]) == d
  }

  /** The step that reads the second byte of the write pointer. */
  predicate Snaps(x: World, step: Step) {
    step.Bmc? && x.reader.Snapping? && !x.half
  }

  /** A new entry fits into what is really free, and a snapshot ends where an entry ends. */
  predicate Sound(x: World, step: Step) {
    (step.BiosBegin? ==> Used(x) + step.e.Size() < |x.q|) &&
    (Snaps(x, step) ==> Boundary(x, Torn(x.reader.first, x.w)))
  }

  ghost predicate SoundRuns(x: World, schedule: seq<Step>, y: World)
    decreases |schedule|
  {
    if schedule == [] then x == y
    else
      Enabled(x, schedule[0]) && Sound(x, schedule[0]) && SoundRuns(Do(x, schedule[0]), schedule[1..], y)
  }

  // ----- the invariant -----

  /** Bytes of the unreturned entries the reader has already released: the header of the one it is reading. */
  function Released(x: World): nat {
    if x.reader.Body? then ENTRY_HEADER_SIZE else 0
  }

  /** The ring between the pointers holds exactly the unreturned entries, less what was released. */
  ghost predicate RingHolds(x: World) {
    x.r < |x.q| && x.w < |x.q| && |x.q| >= ENTRY_HEADER_SIZE &&
    x.returned <= x.appended && AllSealed(x.appended) &&
    Released(x) <= |EncodeAll(Rest(x))| &&
    Read(x.q, x.r, Used(x)) == EncodeAll(Rest(x))[Released(x)..]
  }

  ghost predicate WriterFits(x: World) {
    x.w < |x.q| &&
    match x.writer
    case Quiet => true
    case Writing(e, k) =>
      e.Sealed() && k <= e.Size() && Used(x) + e.Size() < |x.q| && Read(x.q, x.w, k) == Encode(e)[..k]
  }

  /** The snapshot ends after a whole number of entries, and the reader has a prefix of the next one. */
  ghost predicate ReaderOnTrack(x: World) {
    x.r < |x.q| &&
    match x.reader
    case Idle => true
    case Failed(_) => false
    case Snapping(first, count) =>
      |x.returned| <= count <= |x.appended| && Size(x.appended[|x.returned|..count]) < |x.q| &&
      first == Advance(|x.q|, x.r, Size(x.appended[|x.returned|..count]))
    case Header(limit, toRead, byteRead, got) =>
      |x.returned| < x.mark <= |x.appended| &&
      byteRead <= toRead && toRead - byteRead == Size(x.appended[|x.returned|..x.mark]) <= |x.q| &&
      limit == Advance(|x.q|, x.r, toRead - byteRead) &&
      |got| <= ENTRY_HEADER_SIZE && got <= EncodeHeader(x.appended[|x.returned|].header)
    case Body(limit, toRead, byteRead, head, got) =>
      |x.returned| < x.mark <= |x.appended| &&
      byteRead <= toRead && toRead - byteRead == Size(x.appended[|x.returned|..x.mark]) <= |x.q| &&
      toRead - byteRead >= ENTRY_HEADER_SIZE &&
      limit == Advance(|x.q|, x.r, toRead - byteRead - ENTRY_HEADER_SIZE) &&
      head == x.appended[|x.returned|].header && got <= x.appended[|x.returned|].body
  }

  /** The region shows the read pointer, or one half of it. */
  predicate ShownTells(x: World) {
    |x.q| < 0x1_0000 && x.gap >= 1 && (!x.half ==> x.shown == x.prev == x.r) &&
    (x.half ==> x.prev < |x.q| && x.shown == Torn(x.r, x.prev))
  }

  ghost predicate Inv(x: World) {
    RingHolds(x) && WriterFits(x) && ReaderOnTrack(x) && ShownTells(x)
  }

  // ----- ring facts -----

  lemma ReadAtIndex(q: seq<byte>, p: nat, n: nat, i: nat)
    requires p < |q| && i < n <= |q|
    ensures Read(q, p, n)[i] == q[At(|q|, p, i)]
  {}

  lemma WriteElsewhere(q: seq<byte>, p: nat, n: nat, k: nat, b: byte)
    requires p < |q| && n <= |q| && k < |q| && forall i :: 0 <= i < n ==> At(|q|, p, i) != k
    ensures Read(q[k := b], p, n) == Read(q, p, n)
  {
    var q' := q[k := b];
    forall i | 0 <= i < n ensures Read(q', p, n)[i] == Read(q, p, n)[i] {
      ReadAtIndex(q, p, n, i);
      ReadAtIndex(q', p, n, i);
    }
  }

  lemma WriteNext(q: seq<byte>, p: nat, k: nat, b: byte)
    requires p < |q| && k < |q|
    ensures Read(q[At(|q|, p, k) := b], p, k + 1) == Read(q, p, k) + [b]
  {
    var q' := q[At(|q|, p, k) := b];
    WriteElsewhere(q, p, k, At(|q|, p, k), b);
    forall i | 0 <= i < k + 1 ensures Read(q', p, k + 1)[i] == (Read(q, p, k) + [b])[i] {
      ReadAtIndex(q', p, k + 1, i);
      if i < k {
        ReadAtIndex(q', p, k, i);
      }
    }
  }

  /** The k-th byte from the write pointer is not among the used ones while used + k < ring size. */
  lemma FreeByte(m: nat, r: nat, w: nat, i: nat, k: nat)
    requires r < m && w < m && i < Distance(m, r, w) && Distance(m, r, w) + k < m
    ensures At(m, r, i) != At(m, w, k)
  {}

  lemma {:induction false} EncodeAllConcat(a: seq<Entry>, b: seq<Entry>)
    ensures EncodeAll(a + b) == EncodeAll(a) + EncodeAll(b)
  {
    if a == [] {
      assert a + b == b;
    } else {
      assert (a + b)[1..] == a[1..] + b;
      EncodeAllConcat(a[1..], b);
    }
  }

  // ----- BIOS steps -----

  lemma BiosWriteKeeps(x: World)
    requires Inv(x) && Enabled(x, BiosWrite)
    ensures Inv(Do(x, BiosWrite))
    ensures Read(Do(x, BiosWrite).q, x.r, Used(x)) == Read(x.q, x.r, Used(x))
  {
    hide XorAll, LeBytes, EncodeAll, EncodeHeader, Read, Advance, Distance, Entry.Sealed, At, Size;
    var m, k, b := |x.q|, x.writer.written, Encode(x.writer.e)[x.writer.written];
    var y := Do(x, BiosWrite);
    forall i | 0 <= i < Used(x) ensures At(m, x.r, i) != At(m, x.w, k) {
      FreeByte(m, x.r, x.w, i, k);
    }
    WriteElsewhere(x.q, x.r, Used(x), At(m, x.w, k), b);
    WriteNext(x.q, x.w, k, b);
    assert Encode(x.writer.e)[..k + 1] == Encode(x.writer.e)[..k] + [b];
    assert RingHolds(y) && WriterFits(y) && ReaderOnTrack(y) && ShownTells(y);
  }

  /** Moving the write pointer on by n free bytes. */
  lemma FurtherOn(m: nat, r: nat, w: nat, n: nat)
    requires r < m && w < m && Distance(m, r, w) + n < m
    ensures w == Advance(m, r, Distance(m, r, w)) && Advance(m, w, n) < m
    ensures Distance(m, r, Advance(m, w, n)) == Distance(m, r, w) + n
  {}

  lemma PublishHolds(x: World)
    requires Inv(x) && Enabled(x, BiosPublish)
    ensures RingHolds(Do(x, BiosPublish)) && Used(Do(x, BiosPublish)) < |x.q|
  {
    hide EncodeAll, Encode, Read, Advance, Distance, Entry.Sealed;
    var m, e, u := |x.q|, x.writer.e, Used(x);
    var y := Do(x, BiosPublish);
    assert Encode(e)[..e.Size()] == Encode(e);
    FurtherOn(m, x.r, x.w, e.Size());
    ReadSplit(x.q, x.r, u, e.Size());
    assert Used(y) == u + e.Size();
    assert Rest(y) == Rest(x) + [e];
    EncodeAllConcat(Rest(x), [e]);
    EncodeOne(e);
    DropConcat(EncodeAll(Rest(x)), Encode(e), Released(x));
  }

  lemma DropConcat(a: seq<byte>, b: seq<byte>, n: nat)
    requires n <= |a|
    ensures (a + b)[n..] == a[n..] + b
  {}

  lemma BiosPublishKeeps(x: World)
    requires Inv(x) && Enabled(x, BiosPublish)
    ensures Inv(Do(x, BiosPublish))
  {
    hide RingHolds, WriterFits, EncodeAll, EncodeHeader, Encode, Advance, Size;
    var y := Do(x, BiosPublish);
    PublishHolds(x);
    HoldsBounds(x);
    HoldsBounds(y);
    assert WriterFits(y) by {
      QuietFits(y);
    }
    if x.reader.Header? || x.reader.Body? {
      assert y.appended[|x.returned|..x.mark] == x.appended[|x.returned|..x.mark];
    } else if x.reader.Snapping? {
      assert y.appended[|x.returned|..x.reader.count] == x.appended[|x.returned|..x.reader.count];
    }
  }

  lemma HoldsBounds(x: World)
    requires RingHolds(x)
    ensures x.w < |x.q| && x.returned <= x.appended
  {
    hide Read, EncodeAll, AllSealed;
  }

  lemma QuietFits(x: World)
    requires x.w < |x.q| && x.writer == Quiet
    ensures WriterFits(x)
  {}

  lemma EncodeOne(e: Entry)
    ensures EncodeAll([e]) == Encode(e)
  {
    assert [e][1..] == [];
    assert Encode(e) + [] == Encode(e);
  }

  // ----- BMC steps -----

  lemma IdleKeeps(x: World)
    requires Inv(x) && !x.half && x.reader == Idle
    ensures Inv(BmcStep(x))
  {
    hide XorAll, LeBytes, EncodeHeader, EncodeAll, Encode;
    assert x.appended[|x.returned|..|x.appended|] == Rest(x);
    assert EncodeAll(Rest(x))[0..] == EncodeAll(Rest(x));
    assert Size(Rest(x)) == Used(x);
  }

  lemma SnapshotKeeps(x: World)
    requires Inv(x) && !x.half && x.reader.Snapping? && Boundary(x, Torn(x.reader.first, x.w))
    ensures Inv(BmcStep(x)) && (BmcStep(x).reader == Idle || BmcStep(x).reader.Header?)
    ensures |x.returned| <= BmcStep(x).mark <= |x.appended|
  {
    hide XorAll, LeBytes, EncodeHeader, EncodeAll, Encode, Read;
    var v := Torn(x.reader.first, x.w);
    var d := Distance(|x.q|, x.r, v);
    var k := Whole(Rest(x), d);
    assert x.appended[|x.returned|..|x.returned| + k] == Rest(x)[..k];
    if v != x.r {
      var y := BmcStep(x);
      assert k > 0;
      MoveOn(|x.q|, x.r, v);
      assert RingHolds(y);
    }
  }

  /** Storing the high byte shows the whole pointer. */
  lemma SecondByteKeeps(x: World)
    requires Inv(x) && x.half
    ensures Inv(BmcStep(x)) && BmcStep(x) == Settle(x)
  {
    hide XorAll, LeBytes, EncodeHeader, EncodeAll, Encode, Read, Size;
  }

  /** The first unreturned entry, and what the ring shows of it. */
  lemma NextEntry(x: World)
    requires Inv(x) && |x.returned| < |x.appended|
    ensures
      var e := x.appended[|x.returned|];
      Rest(x) != [] && Rest(x)[0] == e && e.Sealed() &&
      EncodeAll(Rest(x)) == EncodeHeader(e.header) + e.body + EncodeAll(Rest(x)[1..])
  {
    hide XorAll, LeBytes, EncodeHeader, Read;
  }

  /** The byte under the reader is the next one of the entry it reads. */
  lemma NextByte(x: World, n: nat)
    requires Inv(x) && |x.returned| < |x.appended|
    requires
      var e := x.appended[|x.returned|];
      (Released(x) == 0 && n < ENTRY_HEADER_SIZE) || (Released(x) == ENTRY_HEADER_SIZE && n < |e.body|)
    ensures
      var e := x.appended[|x.returned|];
      n < |x.q| &&
      x.q[At(|x.q|, x.r, n)] == if Released(x) == 0 then EncodeHeader(e.header)[n] else e.body[n]
  {
    hide XorAll, LeBytes, EncodeHeader, EncodeAll, Size, Advance, Torn;
    NextEntry(x);
    ReadAtIndex(x.q, x.r, Used(x), n);
  }

  lemma ReadByteKeeps(x: World)
    requires Inv(x) && !x.half
    requires (x.reader.Header? && |x.reader.got| < ENTRY_HEADER_SIZE) ||
             (x.reader.Body? && |x.reader.got| < x.reader.head.entrySize)
    ensures Inv(BmcStep(x))
  {
    hide XorAll, LeBytes, EncodeHeader, EncodeAll, Size, Read, Advance, Distance, Torn, Whole, At;
    NextEntry(x);
    NextByte(x, |x.reader.got|);
    assert RingHolds(BmcStep(x));
  }

  /** Releasing n used bytes: what remains is the tail of what was there. */
  lemma ReleaseBytes(q: seq<byte>, r: nat, w: nat, n: nat)
    requires r < |q| && w < |q| && n <= Distance(|q|, r, w)
    ensures
      var p, u := Advance(|q|, r, n), Distance(|q|, r, w);
      p < |q| && Distance(|q|, p, w) == u - n && Read(q, p, u - n) == Read(q, r, u)[n..]
  {
    ReadSplit(q, r, n, Distance(|q|, r, w) - n);
  }

  lemma PublishHeaderKeeps(x: World)
    requires Inv(x) && !x.half && x.reader.Header? && |x.reader.got| == ENTRY_HEADER_SIZE
    ensures Inv(BmcStep(x))
  {
    hide XorAll, LeBytes, EncodeHeader, DecodeHeader, EncodeAll, Read, Advance, Torn, Boundary;
    NextEntry(x);
    var m, e := |x.q|, x.appended[|x.returned|];
    var n := x.reader.toRead - x.reader.byteRead;
    assert x.reader.got == EncodeHeader(e.header);
    HeaderRoundTrip(e.header);
    ReleaseBytes(x.q, x.r, x.w, ENTRY_HEADER_SIZE);
    assert Size(x.appended[|x.returned|..x.mark]) >= e.Size();
    AdvanceSplit(m, x.r, ENTRY_HEADER_SIZE, n - ENTRY_HEADER_SIZE);
    var y := BmcStep(x);
    assert EncodeAll(Rest(x))[0..] == EncodeAll(Rest(x));
    assert RingHolds(y);
  }

  lemma SealedSum(e: Entry)
    requires e.Sealed()
    ensures XorAll(EncodeHeader(e.header)) ^ XorAll(e.body) == 0
  {
    XorAllConcat(EncodeHeader(e.header), e.body);
  }

  lemma AdvanceNothing(m: nat, p: nat)
    requires p < m
    ensures Advance(m, p, 0) == p
  {}

  lemma SizeCons(es: seq<Entry>, e: Entry, rest: seq<Entry>)
    requires es == [e] + rest
    ensures Size(es) == e.Size() + Size(rest)
    ensures rest == [] ==> Size(rest) == 0
    ensures rest != [] ==> Size(rest) > 0
  {
    assert es[1..] == rest;
  }

  /** A whole body has been read: the next published entry is returned and its body released. */
  lemma PublishBodyStep(x: World)
    requires Inv(x) && !x.half && x.reader.Body? && |x.reader.got| == x.reader.head.entrySize
    ensures |x.returned| < x.mark <= |x.appended|
    ensures
      var e, p := x.appended[|x.returned|], Advance(|x.q|, x.r, |x.reader.got|);
      var n := x.reader.byteRead + e.Size();
      e == Entry(x.reader.head, x.reader.got) &&
      BmcStep(x) ==
      Publish(x, p).(returned := x.returned + [e],
         reader :=
           if n < x.reader.toRead then Header(x.reader.limit, x.reader.toRead, n, [])
           else if p != x.reader.limit then Failed(PointerMismatch)
           else Idle)
  {
    hide XorAll, LeBytes, EncodeHeader, DecodeHeader, EncodeAll, Read, Advance, Encode, Size;
    NextEntry(x);
    SealedSum(x.appended[|x.returned|]);
  }

  lemma PublishBodyKeeps(x: World)
    requires Inv(x) && !x.half && x.reader.Body? && |x.reader.got| == x.reader.head.entrySize
    ensures Inv(BmcStep(x))
    ensures BmcStep(x).returned == x.returned + [x.appended[|x.returned|]]
    ensures BmcStep(x).reader == Idle ==> BmcStep(x).returned == x.appended[..x.mark]
  {
    hide XorAll, LeBytes, EncodeHeader, DecodeHeader, EncodeAll, Read, Advance, Encode, Size, BmcStep, Torn;
    PublishBodyStep(x);
    NextEntry(x);
    var m, e, got := |x.q|, x.appended[|x.returned|], x.reader.got;
    ReleaseBytes(x.q, x.r, x.w, |got|);
    var batch, batch' := x.appended[|x.returned|..x.mark], x.appended[|x.returned| + 1..x.mark];
    SizeCons(batch, e, batch');
    AdvanceSplit(m, x.r, |got|, Size(batch'));
    AdvanceNothing(m, Advance(m, x.r, |got|));
    var y := BmcStep(x);
    assert y.returned == x.appended[..|x.returned| + 1];
    assert Rest(y) == Rest(x)[1..];
    assert EncodeAll(Rest(x))[ENTRY_HEADER_SIZE..][|got|..] == EncodeAll(Rest(y));
    assert RingHolds(y);
  }

  // ----- every schedule -----

  lemma StepKeeps(x: World, step: Step)
    requires Inv(x) && Enabled(x, step) && Sound(x, step)
    ensures Inv(Do(x, step))
  {
    hide RingHolds, WriterFits, ReaderOnTrack, BmcStep, Boundary;
    match step
    case BiosBegin(e) => BeginKeeps(x, e);
    case BiosWrite => BiosWriteKeeps(x);
    case BiosPublish => BiosPublishKeeps(x);
    case Bmc => BmcKeeps(x);
  }

  lemma BeginKeeps(x: World, e: Entry)
    requires Inv(x) && Enabled(x, BiosBegin(e)) && Used(x) + e.Size() < |x.q|
    ensures Inv(Do(x, BiosBegin(e)))
  {
    hide XorAll, LeBytes, EncodeHeader, EncodeAll, Encode;
  }

  lemma BmcKeeps(x: World)
    requires Inv(x) && Sound(x, Bmc)
    ensures Inv(BmcStep(x))
  {
    hide RingHolds, WriterFits, Read, Advance, EncodeAll, EncodeHeader, XorAll, Boundary;
    if x.half {
      SecondByteKeeps(x);
    } else {
      match x.reader
      case Idle => IdleKeeps(x);
      case Snapping(_, _) => SnapshotKeeps(x);
      case Header(_, _, _, got) =>
        if |got| < ENTRY_HEADER_SIZE { ReadByteKeeps(x); } else { PublishHeaderKeeps(x); }
      case Body(_, _, _, head, got) =>
        NextSealed(x);
        if |got| < head.entrySize { ReadByteKeeps(x); } else { PublishBodyKeeps(x); }
    }
  }

  lemma NextSealed(x: World)
    requires Inv(x) && |x.returned| < |x.appended|
    ensures x.appended[|x.returned|].header.entrySize == |x.appended[|x.returned|].body|
  {
    NextEntry(x);
  }

  /** An empty queue, both sides idle. */
  ghost predicate Initial(x: World) {
    ENTRY_HEADER_SIZE <= |x.q| < 0x1_0000 && x.r == x.w == x.shown == x.prev < |x.q| && !x.half && x.gap >= 1 &&
    x.reader == Idle && x.writer == Quiet && x.appended == [] && x.returned == []
  }

  lemma InitialHolds(x: World)
    requires Initial(x)
    ensures Inv(x)
  {}

  lemma {:induction false} ScheduleKeeps(x: World, schedule: seq<Step>, y: World)
    requires Inv(x) && SoundRuns(x, schedule, y)
    ensures Inv(y)
    decreases |schedule|
  {
    hide Inv, BmcStep, Sound;
    if schedule != [] {
      StepKeeps(x, schedule[0]);
      ScheduleKeeps(Do(x, schedule[0]), schedule[1..], y);
    }
  }

  /**
   Under every interleaving of byte accesses whose steps are sound: the reader never fails; what it
   has returned, followed by what the ring still holds, is what was published, in order; and the
   bytes up to the write pointer encode the latter, less the released header of the entry being read.
   */
  lemma FifoSafety(x: World, schedule: seq<Step>, y: World)
    requires Initial(x) && SoundRuns(x, schedule, y)
    ensures !y.reader.Failed?
    ensures y.returned + Rest(y) == y.appended && RingHolds(y)
  {
    hide Inv, RingHolds, Initial, BmcStep;
    InitialHolds(x);
    ScheduleKeeps(x, schedule, y);
    NothingLost(y);
  }

  lemma NothingLost(y: World)
    requires Inv(y)
    ensures !y.reader.Failed? && y.returned + Rest(y) == y.appended && RingHolds(y)
  {
    hide Read, EncodeAll, XorAll;
  }

  /** After a sound run no BIOS step changes a byte the reader has still to read. */
  lemma NothingOverwritten(x: World, schedule: seq<Step>, y: World, step: Step)
    requires Initial(x) && SoundRuns(x, schedule, y) && Enabled(y, step) && !step.Bmc?
    ensures RingHolds(y) && Do(y, step).r == y.r && |Do(y, step).q| == |y.q|
    ensures Read(Do(y, step).q, y.r, Used(y)) == Read(y.q, y.r, Used(y))
  {
    InitialHolds(x);
    ScheduleKeeps(x, schedule, y);
    if step.BiosWrite? {
      BiosWriteKeeps(y);
    }
  }

  /** When a poll ends, everything its snapshot covers has been returned. */
  lemma PollReturnsSnapshot(x: World, schedule: seq<Step>, y: World)
    requires Initial(x) && SoundRuns(x, schedule, y)
    requires y.reader.Body? && BmcStep(y).reader == Idle
    ensures y.mark <= |y.appended| && BmcStep(y).returned == y.appended[..y.mark]
  {
    InitialHolds(x);
    ScheduleKeeps(x, schedule, y);
    NextSealed(y);
    if y.half {
      SecondByteKeeps(y);
    } else {
      PublishBodyKeeps(y);
    }
  }

  // ----- every poll ends -----

  /** Entries are being read, or the pointer past the last one is only half stored. */
  predicate InPoll(x: World) {
    x.half || x.reader.Header? || x.reader.Body?
  }

  /** BMC steps until the poll in progress ends: one per byte, and four that store pointer bytes per entry. */
  function StepsLeft(x: World): (n: int) {
    (if x.half then 1 else 0) +
    match x.reader
    case Header(_, toRead, byteRead, got) => toRead - byteRead + 4 * (x.mark - |x.returned|) - |got|
    case Body(_, toRead, byteRead, _, got) =>
      toRead - byteRead + 4 * (x.mark - |x.returned|) - ENTRY_HEADER_SIZE - 2 - |got|
    case _ => 0
  }

  function BmcSteps(schedule: seq<Step>): (n: nat) {
    if schedule == [] then 0 else (if schedule[0].Bmc? then 1 else 0) + BmcSteps(schedule[1..])
  }

  lemma {:induction false} SizeAtLeast(es: seq<Entry>)
    ensures Size(es) >= ENTRY_HEADER_SIZE * |es|
  {
    hide EncodeAll;
    if es != [] {
      SizeAtLeast(es[1..]);
    }
  }

  /** What Inv says about the counters of the poll in progress. */
  lemma CountersFit(x: World)
    requires Inv(x)
    ensures !x.reader.Failed?
    ensures x.reader.Header? || x.reader.Body? ==>
              |x.returned| < x.mark <= |x.appended| &&
              x.reader.toRead - x.reader.byteRead == Size(x.appended[|x.returned|..x.mark])
    ensures x.reader.Header? ==> |x.reader.got| <= ENTRY_HEADER_SIZE
    ensures x.reader.Body? ==>
              x.reader.head.entrySize == |x.appended[|x.returned|].body| && |x.reader.got| <= x.reader.head.entrySize
  {
    hide Read, EncodeAll, EncodeHeader, XorAll, Advance, Size;
    if x.reader.Body? {
      NextSealed(x);
    }
  }

  /** While a poll is in progress there is a step left. */
  lemma StepsPositive(x: World)
    requires Inv(x)
    ensures StepsLeft(x) >= 0 && (StepsLeft(x) == 0 <==> !InPoll(x))
  {
    hide Inv, Size, EncodeAll;
    CountersFit(x);
    if x.reader.Header? || x.reader.Body? {
      var batch := x.appended[|x.returned|..x.mark];
      SizeAtLeast(batch[1..]);
      SizeCons(batch, batch[0], batch[1..]);
      assert batch == [batch[0]] + batch[1..];
    }
  }

  /** A poll that is over has returned what its snapshot covers. */
  ghost predicate ReturnedMark(x: World) {
    !x.reader.Snapping? && (x.reader == Idle ==> |x.returned| == x.mark)
  }

  /** Each BMC step of a poll in progress is one step less, whatever the BIOS has done in between. */
  lemma StepCounts(x: World)
    requires Inv(x) && InPoll(x) && ReturnedMark(x)
    ensures
      var y := BmcStep(x);
      StepsLeft(y) == StepsLeft(x) - 1 && y.mark == x.mark && y.appended == x.appended && ReturnedMark(y)
  {
    hide Inv, Size, EncodeAll, Encode, XorAll, Read, Advance, DecodeHeader, EncodeHeader;
    if x.half {
      SecondByteKeeps(x);
    } else {
      CountersFit(x);
      BmcKeeps(x);
      StepsPositive(BmcStep(x));
      CountersFit(BmcStep(x));
      if x.reader.Body? && |x.reader.got| == x.reader.head.entrySize {
        PublishBodyStep(x);
        PublishBodyKeeps(x);
        var batch := x.appended[|x.returned|..x.mark];
        SizeCons(batch, batch[0], batch[1..]);
        assert batch == [batch[0]] + batch[1..];
      } else {
        RingBounds(x);
      }
    }
  }

  lemma RingBounds(x: World)
    requires Inv(x)
    ensures x.r < |x.q| && |x.q| >= ENTRY_HEADER_SIZE
    ensures x.reader.Body? ==> x.reader.head.entrySize <= |x.q|
  {
    hide Read, EncodeHeader, XorAll;
    if x.reader.Body? {
      NextSealed(x);
      var batch := x.appended[|x.returned|..x.mark];
      SizeCons(batch, batch[0], batch[1..]);
      assert batch == [batch[0]] + batch[1..];
    }
  }

  lemma BiosStepCounts(x: World, step: Step)
    requires Enabled(x, step) && !step.Bmc?
    ensures
      var y := Do(x, step);
      StepsLeft(y) == StepsLeft(x) && y.mark == x.mark && x.appended <= y.appended && y.returned == x.returned &&
      y.reader == x.reader
  {}

  /**
   Under every interleaving, a poll in progress ends with exactly the StepsLeft-th BMC step, and
   has then returned everything its snapshot covers.
   */
  lemma {:induction false} PollEnds(x: World, schedule: seq<Step>, y: World)
    requires Inv(x) && SoundRuns(x, schedule, y) && BmcSteps(schedule) <= StepsLeft(x)
    requires x.mark <= |x.appended| && ReturnedMark(x)
    ensures Inv(y) && StepsLeft(y) == StepsLeft(x) - BmcSteps(schedule)
    ensures !InPoll(y) <==> BmcSteps(schedule) == StepsLeft(x)
    ensures y.mark == x.mark && x.appended <= y.appended
    ensures !InPoll(y) ==> y.reader == Idle && y.returned == x.appended[..x.mark]
    decreases |schedule|
  {
    hide Inv, Do, Enabled, BmcStep, StepsLeft, Sound;
    StepsPositive(x);
    if schedule == [] {
      CountersFit(x);
      ReturnedPrefix(x);
      assert x.returned == x.appended[..|x.returned|];
    } else {
      var step := schedule[0];
      var z := Do(x, step);
      StepKeeps(x, step);
      if step.Bmc? {
        BmcIsStep(x);
        StepCounts(x);
      } else {
        BiosStepCounts(x, step);
      }
      PollEnds(z, schedule[1..], y);
      assert z.appended[..x.mark] == x.appended[..x.mark];
    }
  }

  lemma BmcIsStep(x: World)
    requires Enabled(x, Bmc)
    ensures Do(x, Bmc) == BmcStep(x)
  {}

  lemma ReturnedPrefix(x: World)
    requires Inv(x)
    ensures x.returned <= x.appended
  {
    hide Read, EncodeAll;
  }

  /** A poll that finds toRead bytes takes at most five BMC steps for every three of them. */
  lemma PollIsShort(x: World)
    requires Inv(x) && x.reader.Snapping? && Sound(x, Bmc) && BmcStep(x).reader.Header?
    ensures
      var y := BmcStep(x);
      x.half || (3 * StepsLeft(y) <= 5 * y.reader.toRead && y.mark <= |y.appended| && ReturnedMark(y))
  {
    hide Inv, Size, EncodeAll, Boundary;
    if !x.half {
      var y := BmcStep(x);
      BmcKeeps(x);
      CountersFit(y);
      RingBounds(x);
      SizeAtLeast(y.appended[|y.returned|..y.mark]);
    }
  }

  /** From an empty queue, under every interleaving: every poll ends, as early as its snapshot says. */
  lemma EveryPollEnds(x: World, schedule: seq<Step>, y: World, more: seq<Step>, z: World)
    requires Initial(x) && SoundRuns(x, schedule, y) && (y.reader.Header? || y.reader.Body?)
    requires SoundRuns(y, more, z) && BmcSteps(more) == StepsLeft(y)
    ensures !InPoll(z) && y.mark <= |y.appended| && z.returned == y.appended[..y.mark]
  {
    hide Inv, SoundRuns, Initial, StepsLeft;
    InitialHolds(x);
    ScheduleKeeps(x, schedule, y);
    CountersFit(y);
    PollEnds(y, more, z);
  }

  // ----- the reader alone is readErrorLogs -----

  function Alone(x: World, n: nat): (y: World)
    decreases n
  {
    if n == 0 then x else Alone(BmcStep(x), n - 1)
  }

  lemma {:induction false} AloneAdd(x: World, a: nat, b: nat)
    ensures Alone(x, a + b) == Alone(Alone(x, a), b)
    decreases a
  {
    hide BmcStep;
    if a > 0 {
      AloneAdd(BmcStep(x), a - 1, b);
    }
  }

  lemma AloneNext(x: World, n: nat)
    ensures Alone(x, n + 1) == BmcStep(Alone(x, n))
  {
    hide BmcStep;
    AloneAdd(x, n, 1);
  }

  lemma ReadSnoc(q: seq<byte>, p: nat, n: nat)
    requires p < |q| && n < |q|
    ensures Read(q, p, n + 1) == Read(q, p, n) + [q[At(|q|, p, n)]]
  {}

  lemma {:induction false} HeaderBytes(x: World, n: nat)
    requires |x.q| >= ENTRY_HEADER_SIZE && x.r < |x.q| && n <= ENTRY_HEADER_SIZE
    requires !x.half && x.reader.Header? && x.reader.got == []
    ensures Alone(x, n) == x.(reader := Header(x.reader.limit, x.reader.toRead, x.reader.byteRead, Read(x.q, x.r, n)))
  {
    hide Read;
    if n == 0 {
      ReadNothing(x.q, x.r);
    } else {
      HeaderBytes(x, n - 1);
      AloneNext(x, n - 1);
      ReadSnoc(x.q, x.r, n - 1);
    }
  }

  lemma {:induction false} BodyBytes(x: World, n: nat)
    requires |x.q| >= ENTRY_HEADER_SIZE && x.r < |x.q|
    requires !x.half && x.reader.Body? && x.reader.got == [] && n <= x.reader.head.entrySize <= |x.q|
    ensures Alone(x, n) ==
            x.(reader := Body(x.reader.limit, x.reader.toRead, x.reader.byteRead, x.reader.head, Read(x.q, x.r, n)))
  {
    hide Read;
    if n == 0 {
      ReadNothing(x.q, x.r);
    } else {
      BodyBytes(x, n - 1);
      AloneNext(x, n - 1);
      ReadSnoc(x.q, x.r, n - 1);
    }
  }

  lemma ReadNothing(q: seq<byte>, p: nat)
    requires p <= |q|
    ensures Read(q, p, 0) == []
  {}

  /** The read pointer moved and stored. */
  function MovedTo(x: World, p: nat): (y: World) {
    x.(r := p, shown := p, prev := p)
  }

  /** Where the reader stands after one more entry. */
  function AfterEntry(x: World, r: EntryRead): (y: World)
    requires x.reader.Header?
  {
    match r.result
    case Failure(e) => MovedTo(x, r.ptr).(reader := Failed(e))
    case Success(e) =>
      var n := x.reader.byteRead + e.Size();
      MovedTo(x, r.ptr).(returned := x.returned + [e],
         reader :=
           if n < x.reader.toRead then Header(x.reader.limit, x.reader.toRead, n, [])
           else if r.ptr != x.reader.limit then Failed(PointerMismatch)
           else Idle)
  }

  /** Two more steps: the two bytes of the read pointer. */
  lemma PublishAlone(x: World, n: nat, y: World, z: World)
    requires Alone(x, n) == y && BmcStep(y) == z && z.half && z.r < |z.q| && |z.q| >= ENTRY_HEADER_SIZE
    ensures Alone(x, n + 2) == Settle(z)
  {
    AloneNext(x, n);
    AloneNext(x, n + 1);
  }

  lemma EntryAlone(x: World) returns (n: nat)
    requires |x.q| >= ENTRY_HEADER_SIZE && x.r < |x.q| && !x.half && x.reader.Header? && x.reader.got == []
    ensures Alone(x, n) == AfterEntry(x, ReadEntry(x.q, x.r))
  {
    hide Read, DecodeHeader, EncodeHeader, XorAll, Alone, Torn;
    var head := Read(x.q, x.r, ENTRY_HEADER_SIZE);
    HeaderBytes(x, ENTRY_HEADER_SIZE);
    var full := Alone(x, ENTRY_HEADER_SIZE);
    PublishAlone(x, ENTRY_HEADER_SIZE, full, BmcStep(full));
    n := ENTRY_HEADER_SIZE + 2;
    HeaderReprint(head);
    var y := Alone(x, n);
    var h := DecodeHeader(head);
    if h.entrySize <= |x.q| {
      BodyBytes(y, h.entrySize);
      AloneAdd(x, n, h.entrySize);
      var read := Alone(x, n + h.entrySize);
      PublishAlone(x, n + h.entrySize, read, BmcStep(read));
      n := n + h.entrySize + 2;
    }
  }

  /** Where the reader stands after draining. */
  function AfterDrain(x: World, limit: nat, d: Drained): (y: World) {
    MovedTo(x, d.ptr).(returned := x.returned + d.entries,
       reader :=
         match d.error
         case Some(e) => Failed(e)
         case None => if d.ptr != limit then Failed(PointerMismatch) else Idle)
  }

  lemma {:induction false} DrainAlone(x: World) returns (n: nat)
    requires |x.q| >= ENTRY_HEADER_SIZE && x.r < |x.q|
    requires !x.half && x.reader.Header? && x.reader.got == [] && x.reader.byteRead < x.reader.toRead
    ensures Alone(x, n) ==
            AfterDrain(x, x.reader.limit, DrainWith(Reader(x.q), x.r, x.reader.toRead - x.reader.byteRead))
    decreases x.reader.toRead - x.reader.byteRead
  {
    hide ReadEntry, Alone, BmcStep, DrainWith, Printed, Size;
    var read := Reader(x.q);
    var r, budget := read(x.r), x.reader.toRead - x.reader.byteRead;
    n := EntryAlone(x);
    EntryParsed(x.q, x.r);
    DrainStops(read, x.r, budget);
    if r.result.Success? {
      var e := r.result.value;
      var y := Alone(x, n);
      DrainCons(read, x.r, budget);
      DrainStops(read, r.ptr, budget - e.Size());
      AppendMore(x.returned, e, DrainWith(read, r.ptr, budget - e.Size()).entries);
      if budget > e.Size() {
        var k := DrainAlone(y);
        AloneAdd(x, n, k);
        n := n + k;
      }
    }
  }

  lemma AppendMore(done: seq<Entry>, e: Entry, rest: seq<Entry>)
    ensures done + ([e] + rest) == done + [e] + rest
    ensures rest == [] ==> [e] + rest == [e]
  {}

  lemma TornSelf(p: nat)
    ensures Torn(p, p) == p
  {}

  /** What the stepwise reader covers by a snapshot of the whole pointer. */
  function SnapshotMark(x: World): nat {
    |x.returned| + if x.r <= |x.q| && x.w <= |x.q| && x.w != x.r then Whole(Rest(x), Distance(|x.q|, x.r, x.w)) else 0
  }

  lemma SnapshotAlone(x: World)
    requires ENTRY_HEADER_SIZE <= |x.q| && x.r < |x.q| && !x.half && x.reader == Idle
    ensures Alone(x, 2) == Snapshot(x, x.w)
  {
    hide Torn, Whole;
    TornSelf(x.w);
    AloneNext(x, 1);
    assert Alone(x, 1) == BmcStep(x);
  }

  /** Where the reader stands after a poll. */
  function AfterPoll(x: World, d: Drained): (y: World) {
    MovedTo(x, d.ptr).(returned := x.returned + d.entries, mark := SnapshotMark(x),
       reader := if d.error.Some? then Failed(d.error.value) else Idle)
  }

  /** A poll that drains something. */
  lemma BusyAlone(x: World) returns (n: nat)
    requires |x.q| >= ENTRY_HEADER_SIZE && x.r < |x.q| && !x.half && x.reader == Idle
    requires x.w <= |x.q| && x.w != x.r
    ensures Alone(x, n) == AfterPoll(x, ReadLogs(x.q, x.r, x.w))
  {
    hide Reader, DrainWith, Alone, BmcStep, Rest, Whole;
    var y := Snapshot(x, x.w);
    SnapshotAlone(x);
    n := DrainAlone(y);
    AloneAdd(x, 2, n);
    n := 2 + n;
  }

  /**
   Left alone, whatever the ring holds, the stepwise reader ends with the entries, the pointer and
   the error of the atomic ReadLogs.
   */
  lemma ReaderRefinesReadLogs(x: World)
    requires |x.q| >= ENTRY_HEADER_SIZE && x.r == x.shown == x.prev < |x.q| && !x.half && x.reader == Idle
    ensures exists n :: Alone(x, n) == AfterPoll(x, ReadLogs(x.q, x.r, x.w))
  {
    hide Alone, BmcStep, Rest, Whole, Drain;
    assert x.returned + [] == x.returned;
    if x.w <= |x.q| && x.w != x.r {
      var n := BusyAlone(x);
    } else {
      SnapshotAlone(x);
      DrainNothing(x.q, x.r);
      assert Alone(x, 2) == AfterPoll(x, ReadLogs(x.q, x.r, x.w));
    }
  }
}
