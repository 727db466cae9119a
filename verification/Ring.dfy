/**
 The error-log queue as a ring of bytes: wraparound reads, entry framing, and draining from the
 read pointer up to a snapshot of the write pointer (src/buffer.cpp:145-224, 302-394).
 */
module Ring {
  import opened Bytes
  import opened Wrappers
  import opened Arithmetic

  const ENTRY_HEADER_SIZE := 6

  datatype QueueEntryHeader = QueueEntryHeader(
    sequenceId: nat, entrySize: nat, checksum: byte, rdeCommandType: byte)

  datatype Entry = Entry(header: QueueEntryHeader, body: seq<byte>) {
    /** The header fits its packed layout and announces the body's size. */
    predicate Fits() {
      header.sequenceId < 0x1_0000 && header.entrySize == |body| < 0x1_0000
    }

    /** A well-formed entry whose bytes XOR to zero. */
    predicate Sealed() {
      Fits() && XorAll(Encode(this)) == 0
    }

    function Size(): nat {
      ENTRY_HEADER_SIZE + |body|
    }
  }

  // ----- the printer -----

  function EncodeHeader(h: QueueEntryHeader): (s: seq<byte>)
    ensures |s| == ENTRY_HEADER_SIZE
  {
    LeBytes(h.sequenceId, 2) + LeBytes(h.entrySize, 2) + [h.checksum, h.rdeCommandType]
  }

  function Encode(e: Entry): (s: seq<byte>)
    ensures |s| == e.Size()
  {
    EncodeHeader(e.header) + e.body
  }

  function EncodeAll(es: seq<Entry>): (s: seq<byte>)
    ensures es != [] ==> |s| >= ENTRY_HEADER_SIZE
  {
    if es == [] then [] else Encode(es[0]) + EncodeAll(es[1..])
  }

  predicate AllSealed(es: seq<Entry>) {
    forall e <- es :: e.Sealed()
  }

  /** XOR of the header bytes other than the checksum. */
  function HeaderSum(sequenceId: nat, entrySize: nat, rdeCommandType: byte): byte {
    XorAll(LeBytes(sequenceId, 2) + LeBytes(entrySize, 2)) ^ rdeCommandType
  }

  /** The entry a sender builds: the checksum byte makes the whole entry XOR to zero. */
  function Seal(sequenceId: nat, rdeCommandType: byte, body: seq<byte>): (e: Entry)
    requires sequenceId < 0x1_0000 && |body| < 0x1_0000
    ensures e.Sealed() && e.body == body && e.header.rdeCommandType == rdeCommandType
  {
    var sum := HeaderSum(sequenceId, |body|, rdeCommandType) ^ XorAll(body);
    var e := Entry(QueueEntryHeader(sequenceId, |body|, sum, rdeCommandType), body);
    SealSum(e);
    e
  }

  lemma XorAllSnoc(s: seq<byte>, b: byte)
    ensures XorAll(s + [b]) == XorAll(s) ^ b
  {
    assert (s + [b])[..|s|] == s;
  }

  lemma XorRotate(a: byte, b: byte, c: byte)
    ensures (a ^ b) ^ c == (a ^ c) ^ b
  {}

  lemma XorAllHeader(h: QueueEntryHeader)
    ensures XorAll(EncodeHeader(h)) == HeaderSum(h.sequenceId, h.entrySize, h.rdeCommandType) ^ h.checksum
  {
    var s := LeBytes(h.sequenceId, 2) + LeBytes(h.entrySize, 2);
    assert EncodeHeader(h) == s + [h.checksum] + [h.rdeCommandType];
    XorAllSnoc(s, h.checksum);
    XorAllSnoc(s + [h.checksum], h.rdeCommandType);
    XorRotate(XorAll(s), h.checksum, h.rdeCommandType);
  }

  lemma XorCancel(a: byte, b: byte, c: byte)
    requires c == a ^ b
    ensures (a ^ c) ^ b == 0
  {}

  lemma SealSum(e: Entry)
    requires
      var h := e.header;
      h.checksum == HeaderSum(h.sequenceId, h.entrySize, h.rdeCommandType) ^ XorAll(e.body)
    ensures XorAll(Encode(e)) == 0
  {
    var h := e.header;
    XorAllHeader(h);
    XorAllConcat(EncodeHeader(h), e.body);
    XorCancel(HeaderSum(h.sequenceId, h.entrySize, h.rdeCommandType), XorAll(e.body), h.checksum);
  }

  // ----- wraparound reads -----

  /** n bytes from offset o, continuing at 0 after the last byte. */
  function Read(q: seq<byte>, o: nat, n: nat): (s: seq<byte>)
    requires o <= |q| && n <= |q|
    ensures |s| == n
  {
    (q + q)[o..o + n]
  }

  /** The pointer n bytes after o. */
  function Advance(m: nat, o: nat, n: nat): (p: nat)
    requires o <= m && n <= m
    ensures p <= m
  {
    if o + n < m then o + n else o + n - m
  }

  lemma ReadIsModular(q: seq<byte>, o: nat, n: nat, i: nat)
    requires o <= |q| && i < n <= |q|
    ensures Read(q, o, n)[i] == q[(o + i) % |q|]
  {
    var m := |q|;
    if o + i < m {
      QuotientUnique(o + i, m, 0, o + i);
    } else {
      QuotientUnique(o + i, m, 1, o + i - m);
    }
  }

  /** The new pointer is reduced modulo the ring size, except after a whole ring read from its end. */
  lemma AdvanceIsModular(m: nat, o: nat, n: nat)
    requires o <= m && n <= m && m > 0
    ensures Advance(m, o, n) == if o == m && n == m then m else (o + n) % m
    ensures Advance(m, o, n) < m <==> !(o == m && n == m)
  {
    if o + n < m {
      QuotientUnique(o + n, m, 0, o + n);
    } else if o + n < 2 * m {
      QuotientUnique(o + n, m, 1, o + n - m);
    }
  }

  lemma ReadSplit(q: seq<byte>, o: nat, a: nat, b: nat)
    requires o <= |q| && a + b <= |q|
    ensures Read(q, o, a + b) == Read(q, o, a) + Read(q, Advance(|q|, o, a), b)
  {}

  lemma AdvanceSplit(m: nat, o: nat, a: nat, b: nat)
    requires o < m && a + b <= m
    ensures Advance(m, Advance(m, o, a), b) == Advance(m, o, a + b)
  {}

  /** bytes stored from offset o on, continuing at 0 after the last byte of the ring. */
  function Write(q: seq<byte>, o: nat, bytes: seq<byte>): (q': seq<byte>)
    requires o < |q| && |bytes| <= |q|
    ensures |q'| == |q|
  {
    if o + |bytes| <= |q| then q[..o] + bytes + q[o + |bytes|..]
    else bytes[|q| - o..] + q[o + |bytes| - |q|..o] + bytes[..|q| - o]
  }

  /** What was written is read back, and the rest of the ring is as before. */
  lemma ReadWritten(q: seq<byte>, o: nat, bytes: seq<byte>)
    requires o < |q| && |bytes| <= |q|
    ensures
      var p := Advance(|q|, o, |bytes|);
      Read(Write(q, o, bytes), o, |bytes|) == bytes &&
      Read(Write(q, o, bytes), p, |q| - |bytes|) == Read(q, p, |q| - |bytes|)
  {
    var m, n, q' := |q|, |bytes|, Write(q, o, bytes);
    var p := Advance(m, o, n);
    var u := Read(q', o, n);
    forall i | 0 <= i < n ensures u[i] == bytes[i] {
      assert u[i] == q'[if o + i < m then o + i else o + i - m];
    }
    var s, t := Read(q', p, m - n), Read(q, p, m - n);
    forall i | 0 <= i < m - n ensures s[i] == t[i] {
      var k := if p + i < m then p + i else p + i - m;
      assert s[i] == q'[k] && t[i] == q[k];
    }
  }

  // ----- the parser -----

  function DecodeHeader(s: seq<byte>): (h: QueueEntryHeader)
    requires |s| == ENTRY_HEADER_SIZE
    ensures h.sequenceId < 0x1_0000 && h.entrySize < 0x1_0000
  {
    assert Pow256(2) == 0x1_0000;
    QueueEntryHeader(LeNat(s[..2]), LeNat(s[2..4]), s[4], s[5])
  }

  lemma HeaderRoundTrip(h: QueueEntryHeader)
    requires h.sequenceId < 0x1_0000 && h.entrySize < 0x1_0000
    ensures DecodeHeader(EncodeHeader(h)) == h
  {
    assert Pow256(2) == 0x1_0000;
    var s := EncodeHeader(h);
    assert s[..2] == LeBytes(h.sequenceId, 2) && s[2..4] == LeBytes(h.entrySize, 2);
    LeNatOfLeBytes(h.sequenceId, 2);
    LeNatOfLeBytes(h.entrySize, 2);
  }

  lemma HeaderReprint(s: seq<byte>)
    requires |s| == ENTRY_HEADER_SIZE
    ensures EncodeHeader(DecodeHeader(s)) == s
  {
    LeBytesOfLeNat(s[..2]);
    LeBytesOfLeNat(s[2..4]);
  }

  datatype EntryRead = EntryRead(result: Result<Entry>, ptr: nat)

  /** One entry at p; the pointer moves even when the entry is then rejected. */
  function ReadEntry(q: seq<byte>, p: nat): (r: EntryRead)
    requires |q| >= ENTRY_HEADER_SIZE
    ensures p <= |q| ==> r.ptr <= |q|
  {
    if p > |q| then EntryRead(Failure(OffsetTooBig), p)
    else
      var head := Read(q, p, ENTRY_HEADER_SIZE);
      var h := DecodeHeader(head);
      var p' := Advance(|q|, p, ENTRY_HEADER_SIZE);
      if h.entrySize > |q| then EntryRead(Failure(LengthTooBig), p')
      else
        var body := Read(q, p', h.entrySize);
        EntryRead(
          if XorAll(head) ^ XorAll(body) == 0 then Success(Entry(h, body)) else Failure(BadChecksum),
          Advance(|q|, p', h.entrySize))
  }

  /** What a drain leaves behind: the entries read so far, why it stopped early, the read pointer. */
  datatype Drained = Drained(entries: seq<Entry>, error: Option<Error>, ptr: nat) {
    function Outcome(): Result<seq<Entry>> {
      match error
      case None => Success(entries)
      case Some(e) => Failure(e)
    }
  }

  /** Read entries, with any entry reader, until at least budget bytes have been consumed. */
  function DrainWith(read: nat -> EntryRead, p: nat, budget: int): (d: Drained)
    decreases budget
  {
    if budget <= 0 then Drained([], None, p)
    else
      var r := read(p);
      match r.result
      case Failure(e) => Drained([], Some(e), r.ptr)
      case Success(e) =>
        var d := DrainWith(read, r.ptr, budget - e.Size());
        d.(entries := [e] + d.entries)
  }

  /** A drain that has already returned done and still has budget bytes to go yields all. */
  ghost predicate Remaining(read: nat -> EntryRead, p: nat, budget: int, done: seq<Entry>, all: Drained) {
    var d := DrainWith(read, p, budget);
    all == Drained(done + d.entries, d.error, d.ptr)
  }

  lemma RemainingStart(read: nat -> EntryRead, p: nat, budget: int)
    ensures Remaining(read, p, budget, [], DrainWith(read, p, budget))
  {
    var d := DrainWith(read, p, budget);
    assert [] + d.entries == d.entries;
  }

  lemma RemainingStep(read: nat -> EntryRead, p: nat, budget: int, done: seq<Entry>, all: Drained)
    requires Remaining(read, p, budget, done, all)
    ensures
      if budget <= 0 then all == Drained(done, None, p)
      else match read(p).result
        case Failure(e) => all == Drained(done, Some(e), read(p).ptr)
        case Success(e) => Remaining(read, read(p).ptr, budget - e.Size(), done + [e], all)
  {
    assert done + [] == done;
    if budget > 0 && read(p).result.Success? {
      var e := read(p).result.value;
      var d := DrainWith(read, read(p).ptr, budget - e.Size());
      assert done + ([e] + d.entries) == done + [e] + d.entries;
    }
  }

  function Reader(q: seq<byte>): nat -> EntryRead
    requires |q| >= ENTRY_HEADER_SIZE
  {
    (p: nat) => ReadEntry(q, p)
  }

  function Drain(q: seq<byte>, p: nat, budget: int): (d: Drained)
    requires |q| >= ENTRY_HEADER_SIZE
  {
    DrainWith(Reader(q), p, budget)
  }

  lemma DrainNothing(q: seq<byte>, p: nat)
    requires |q| >= ENTRY_HEADER_SIZE
    ensures Drain(q, p, 0) == Drained([], None, p)
  {}

  /** Bytes from read pointer r to write pointer w. */
  function Distance(m: nat, r: nat, w: nat): (d: nat)
    requires r <= m && w <= m
    ensures d <= m
  {
    if r <= w then w - r else m - r + w
  }

  /** readErrorLogs, given a header that matches the build's queue size. */
  function ReadLogs(q: seq<byte>, r: nat, w: nat): (d: Drained)
    requires |q| >= ENTRY_HEADER_SIZE
  {
    if w > |q| then Drained([], Some(WritePtrTooBig), r)
    else if r > |q| then Drained([], Some(ReadPtrTooBig), r)
    else
      var d := Drain(q, r, Distance(|q|, r, w));
      if d.error == None && d.ptr != w then d.(error := Some(PointerMismatch)) else d
  }

  /** The same for a ring of m bytes and any entry reader. */
  function ReadLogsWith(m: nat, read: nat -> EntryRead, r: nat, w: nat): (d: Drained) {
    if w > m then Drained([], Some(WritePtrTooBig), r)
    else if r > m then Drained([], Some(ReadPtrTooBig), r)
    else
      var d := DrainWith(read, r, Distance(m, r, w));
      if d.error == None && d.ptr != w then d.(error := Some(PointerMismatch)) else d
  }

  /** Why a poll of the queue is refused before or after it reads entries. */
  lemma PointerReasons(q: seq<byte>, r: nat, w: nat)
    requires |q| >= ENTRY_HEADER_SIZE
    ensures
      var e := ReadLogs(q, r, w).error;
      (w > |q| ==> ReadLogs(q, r, w) == Drained([], Some(WritePtrTooBig), r)) &&
      (w <= |q| && r > |q| ==> ReadLogs(q, r, w) == Drained([], Some(ReadPtrTooBig), r)) &&
      (w <= |q| && r <= |q| ==>
        var d := Drain(q, r, Distance(|q|, r, w));
        ReadLogs(q, r, w).entries == d.entries && ReadLogs(q, r, w).ptr == d.ptr &&
        (d.error.Some? ==> e == d.error) && (d.error.None? && d.ptr != w ==> e == Some(PointerMismatch)) &&
        (d.error.None? && d.ptr == w ==> e == None))
  {
    hide Drain;
  }

  /** Readers that agree drain alike. */
  lemma {:induction false} SameDrain(read: nat -> EntryRead, read': nat -> EntryRead, p: nat, budget: int)
    requires forall p: nat :: read(p) == read'(p)
    ensures DrainWith(read, p, budget) == DrainWith(read', p, budget)
    decreases budget
  {
    if budget > 0 && read(p).result.Success? {
      SameDrain(read, read', read(p).ptr, budget - read(p).result.value.Size());
    }
  }

  // ----- parser and printer undo each other -----

  /** Bytes consumed by a list of entries. */
  function Size(es: seq<Entry>): (n: nat)
    ensures n == |EncodeAll(es)|
  {
    if es == [] then 0 else es[0].Size() + Size(es[1..])
  }

  /** A read that starts inside the ring ends inside it, at most two turns of the ring on. */
  ghost predicate StaysInside(m: nat, p: nat, r: EntryRead) {
    r.ptr < m &&
    (r.result.Success? ==>
      var e := r.result.value;
      |e.body| <= m &&
      (r.ptr == p + e.Size() || r.ptr == p + e.Size() - m || r.ptr == p + e.Size() - 2 * m))
  }

  /** The ring shows the sealed entry e at p. */
  ghost predicate Printed(q: seq<byte>, p: nat, e: Entry) {
    p < |q| && e.Sealed() && e.Size() <= |q| && Read(q, p, e.Size()) == Encode(e)
  }

  lemma EntryParsed(q: seq<byte>, p: nat)
    requires |q| >= ENTRY_HEADER_SIZE && p < |q|
    ensures
      var r := ReadEntry(q, p);
      StaysInside(|q|, p, r) &&
      (r.result.Success? && r.result.value.Size() <= |q| ==> Printed(q, p, r.result.value))
  {
    var head := Read(q, p, ENTRY_HEADER_SIZE);
    HeaderReprint(head);
    var r := ReadEntry(q, p);
    if r.result.Success? {
      var e := r.result.value;
      if e.Size() <= |q| {
        ReadSplit(q, p, ENTRY_HEADER_SIZE, |e.body|);
        AdvanceSplit(|q|, p, ENTRY_HEADER_SIZE, |e.body|);
        XorAllConcat(head, e.body);
      }
    }
  }

  /** Why an entry is refused: its size, or the XOR of its bytes. */
  lemma EntryReasons(q: seq<byte>, p: nat)
    requires |q| >= ENTRY_HEADER_SIZE && p < |q|
    ensures
      var r := ReadEntry(q, p).result;
      var head := Read(q, p, 6);
      var n := LeNat(head[2..4]);
      (r == Failure(LengthTooBig) <==> n > |q|) &&
      (r == Failure(BadChecksum) <==> n <= |q| && XorAll(head) ^ XorAll(Read(q, Advance(|q|, p, 6), n)) != 0) &&
      (r.Failure? ==> r == Failure(LengthTooBig) || r == Failure(BadChecksum)) &&
      (r.Success? ==> r.value.header == DecodeHeader(head) && r.value.body == Read(q, Advance(|q|, p, 6), n))
  {
    hide LeNat, XorAll;
  }

  lemma EntryPrinted(q: seq<byte>, p: nat, e: Entry)
    requires |q| >= ENTRY_HEADER_SIZE && Printed(q, p, e)
    ensures ReadEntry(q, p) == EntryRead(Success(e), Advance(|q|, p, e.Size()))
  {
    ReadSplit(q, p, ENTRY_HEADER_SIZE, |e.body|);
    AdvanceSplit(|q|, p, ENTRY_HEADER_SIZE, |e.body|);
    assert Encode(e)[..ENTRY_HEADER_SIZE] == EncodeHeader(e.header);
    assert Encode(e)[ENTRY_HEADER_SIZE..] == e.body;
    HeaderRoundTrip(e.header);
    XorAllConcat(EncodeHeader(e.header), e.body);
  }

  /** Entries shown one after the other from p, for any notion of an entry being shown. */
  ghost predicate AllShown(m: nat, shown: (nat, Entry) -> bool, p: nat, es: seq<Entry>)
    decreases |es|
  {
    es == [] ||
    (p < m && es[0].Size() <= m && shown(p, es[0]) &&
     AllShown(m, shown, Advance(m, p, es[0].Size()), es[1..]))
  }

  ghost function Shows(q: seq<byte>): (nat, Entry) -> bool {
    (p: nat, e: Entry) => Printed(q, p, e)
  }

  lemma {:induction false} SegmentShows(q: seq<byte>, p: nat, es: seq<Entry>)
    requires p < |q| && Size(es) <= |q|
    ensures AllSealed(es) && Read(q, p, Size(es)) == EncodeAll(es)
       <==> AllShown(|q|, Shows(q), p, es)
    decreases |es|
  {
    if es != [] {
      var e, n := es[0], Size(es[1..]);
      var p' := Advance(|q|, p, e.Size());
      ReadSplit(q, p, e.Size(), n);
      SegmentShows(q, p', es[1..]);
      if Read(q, p, Size(es)) == EncodeAll(es) {
        SamePrefix(Read(q, p, e.Size()), Read(q, p', n), Encode(e), EncodeAll(es[1..]));
      }
      assert AllSealed(es) <==> e.Sealed() && AllSealed(es[1..]);
    }
  }

  /** Shown entries are read: a drain over them returns exactly them. */
  lemma {:induction false} DrainShown(
      m: nat, shown: (nat, Entry) -> bool, read: nat -> EntryRead, p: nat, es: seq<Entry>)
    requires forall p: nat, e: Entry :: p < m && e.Size() <= m && shown(p, e) ==>
               read(p) == EntryRead(Success(e), Advance(m, p, e.Size()))
    requires p < m && Size(es) <= m && AllShown(m, shown, p, es)
    ensures DrainWith(read, p, Size(es)) == Drained(es, None, Advance(m, p, Size(es)))
    decreases |es|
  {
    hide EncodeAll, Encode;
    if es != [] {
      AdvanceSplit(m, p, es[0].Size(), Size(es[1..]));
      DrainShown(m, shown, read, Advance(m, p, es[0].Size()), es[1..]);
    }
  }

  /** Read entries are shown, unless one overlaps itself. */
  lemma {:induction false} DrainIsShown(
      m: nat, shown: (nat, Entry) -> bool, read: nat -> EntryRead, p: nat, budget: int)
    requires forall p: nat :: p < m && read(p).result.Success? && read(p).result.value.Size() <= m ==>
               var e := read(p).result.value;
               shown(p, e) && read(p).ptr == Advance(m, p, e.Size()) < m
    requires p < m && Size(DrainWith(read, p, budget).entries) <= m
    ensures AllShown(m, shown, p, DrainWith(read, p, budget).entries)
    decreases budget
  {
    hide EncodeAll, Encode, Advance, Size;
    if budget > 0 && read(p).result.Success? {
      var e := read(p).result.value;
      DrainCons(read, p, budget);
      var d := DrainWith(read, read(p).ptr, budget - e.Size());
      DrainIsShown(m, shown, read, read(p).ptr, budget - e.Size());
      assert ([e] + d.entries)[1..] == d.entries;
    }
  }

  lemma SamePrefix(a: seq<byte>, b: seq<byte>, c: seq<byte>, d: seq<byte>)
    requires |a| == |c| && a + b == c + d
    ensures a == c && b == d
  {
    assert a == (a + b)[..|a|] && c == (c + d)[..|a|];
    assert b == (a + b)[|a|..] && d == (c + d)[|a|..];
  }

  /** A ring segment that encodes es drains to es. */
  lemma DrainSegment(q: seq<byte>, p: nat, es: seq<Entry>)
    requires |q| >= ENTRY_HEADER_SIZE && p < |q| && AllSealed(es) && Size(es) <= |q|
    requires Read(q, p, Size(es)) == EncodeAll(es)
    ensures Drain(q, p, Size(es)) == Drained(es, None, Advance(|q|, p, Size(es)))
  {
    forall p: nat, e: Entry | p < |q| && e.Size() <= |q| && Shows(q)(p, e)
      ensures Reader(q)(p) == EntryRead(Success(e), Advance(|q|, p, e.Size()))
    {
      EntryPrinted(q, p, e);
    }
    SegmentShows(q, p, es);
    DrainShown(|q|, Shows(q), Reader(q), p, es);
  }

  /** What a drain returns is what the segment it consumed encodes. */
  lemma DrainedSegment(q: seq<byte>, p: nat, budget: int)
    requires |q| >= ENTRY_HEADER_SIZE && p < |q|
    requires Size(Drain(q, p, budget).entries) <= |q|
    ensures
      var es := Drain(q, p, budget).entries;
      AllSealed(es) && Read(q, p, Size(es)) == EncodeAll(es)
  {
    forall p: nat | p < |q| && Reader(q)(p).result.Success? && Reader(q)(p).result.value.Size() <= |q|
      ensures
        var e := Reader(q)(p).result.value;
        Shows(q)(p, e) && Reader(q)(p).ptr == Advance(|q|, p, e.Size()) < |q|
    {
      EntryParsed(q, p);
      EntryPrinted(q, p, Reader(q)(p).result.value);
    }
    var es := Drain(q, p, budget).entries;
    DrainIsShown(|q|, Shows(q), Reader(q), p, budget);
    SegmentShows(q, p, es);
  }

  lemma DrainStops(read: nat -> EntryRead, p: nat, budget: int)
    ensures budget <= 0 ==> DrainWith(read, p, budget) == Drained([], None, p)
    ensures budget > 0 && read(p).result.Failure? ==>
              DrainWith(read, p, budget) == Drained([], Some(read(p).result.error), read(p).ptr)
  {}

  lemma DrainCons(read: nat -> EntryRead, p: nat, budget: int)
    requires budget > 0 && read(p).result.Success?
    ensures
      var r := read(p);
      var e := r.result.value;
      var d, d' := DrainWith(read, p, budget), DrainWith(read, r.ptr, budget - e.Size());
      d == d'.(entries := [e] + d'.entries) &&
      Size(d.entries) == e.Size() + Size(d'.entries) &&
      EncodeAll(d.entries) == Encode(e) + EncodeAll(d'.entries)
  {
    var e := read(p).result.value;
    var d' := DrainWith(read, read(p).ptr, budget - e.Size());
    assert ([e] + d'.entries)[1..] == d'.entries;
  }

  // ----- how far a drain can go -----

  /** p + consumed bytes = final pointer, up to whole turns of the ring. */
  ghost predicate Congruent(m: nat, p: int, ptr: int) {
    exists k: int :: p == ptr + k * m
  }

  lemma CongruentStep(m: nat, p: int, n: int, mid: int, ptr: int)
    requires mid == p || mid == p - m || mid == p - 2 * m
    requires Congruent(m, mid + n, ptr)
    ensures Congruent(m, p + n, ptr)
  {
    var k: int :| mid + n == ptr + k * m;
    var j := if mid == p then k else if mid == p - m then k + 1 else k + 2;
    assert p + n == ptr + j * m;
  }

  lemma CongruentSelf(m: nat, p: int)
    ensures Congruent(m, p, p)
  {
    assert p == p + 0 * m;
  }

  lemma CongruentTurns(m: nat, p: int, ptr: int)
    requires Congruent(m, p, ptr) && 0 <= ptr < m && 0 <= p < 4 * m
    ensures p == ptr || p == ptr + m || p == ptr + 2 * m || p == ptr + 3 * m
  {
    var k: int :| p == ptr + k * m;
    if k < 0 {
      MulLe(k, -1, m);
    } else if k > 3 {
      MulLe(4, k, m);
    }
  }

  function Last(es: seq<Entry>): Entry
    requires es != []
  {
    es[|es| - 1]
  }

  /** Passes through the drain loop: one for each entry, and one more if reading an entry failed. */
  function Iterations(d: Drained): (n: nat) {
    |d.entries| + if d.error.Some? then 1 else 0
  }

  lemma {:induction false} DrainCount(m: nat, read: nat -> EntryRead, p: nat, budget: int)
    requires p < m
    requires forall p: nat :: p < m ==> StaysInside(m, p, read(p))
    ensures
      var d := DrainWith(read, p, budget);
      d.ptr < m && 6 * Iterations(d) < (if budget < 0 then 0 else budget) + 6
    decreases budget
  {
    hide StaysInside, EncodeAll, Size;
    if budget > 0 {
      StaysInsideView(m, p, read(p));
      if read(p).result.Success? {
        DrainCons(read, p, budget);
        DrainCount(m, read, read(p).ptr, budget - read(p).result.value.Size());
      }
    }
  }

  lemma StaysInsideView(m: nat, p: nat, r: EntryRead)
    requires StaysInside(m, p, r)
    ensures r.ptr < m
  {}

  /** A completed drain: where it ends, and how far the last entry can take it beyond the budget. */
  ghost predicate Consumed(m: nat, p: nat, budget: int, d: Drained) {
    Congruent(m, p + Size(d.entries), d.ptr) && Size(d.entries) >= budget &&
    (budget > 0 ==>
      d.entries != [] && Last(d.entries).Size() <= 6 + m &&
      Size(d.entries) < budget + Last(d.entries).Size())
  }

  lemma ConsumedNothing(m: nat, p: nat, budget: int)
    requires budget <= 0
    ensures Consumed(m, p, budget, Drained([], None, p))
  {
    CongruentSelf(m, p);
  }

  lemma ConsumedMore(m: nat, p: nat, budget: int, e: Entry, p': nat, d: Drained, d': Drained)
    requires |e.body| <= m && (p' == p + e.Size() || p' == p + e.Size() - m || p' == p + e.Size() - 2 * m)
    requires budget > 0 && Consumed(m, p', budget - e.Size(), d')
    requires d == d'.(entries := [e] + d'.entries) && Size(d.entries) == e.Size() + Size(d'.entries)
    requires budget <= e.Size() ==> d'.entries == []
    ensures Consumed(m, p, budget, d)
  {
    hide Congruent;
    CongruentStep(m, p + e.Size(), Size(d'.entries), p', d'.ptr);
  }

  lemma {:induction false} DrainConsumed(m: nat, read: nat -> EntryRead, p: nat, budget: int)
    requires p < m
    requires forall p: nat :: p < m ==> StaysInside(m, p, read(p))
    requires DrainWith(read, p, budget).error.None?
    ensures Consumed(m, p, budget, DrainWith(read, p, budget))
    decreases budget
  {
    hide Consumed, EncodeAll, Size;
    if budget <= 0 {
      ConsumedNothing(m, p, budget);
    } else {
      var r := read(p);
      var e := r.result.value;
      DrainCons(read, p, budget);
      var d' := DrainWith(read, r.ptr, budget - e.Size());
      DrainConsumed(m, read, r.ptr, budget - e.Size());
      DrainStops(read, r.ptr, budget - e.Size());
      ConsumedMore(m, p, budget, e, r.ptr, DrainWith(read, p, budget), d');
    }
  }

  lemma ReaderStaysInside(q: seq<byte>)
    requires |q| >= ENTRY_HEADER_SIZE
    ensures forall p: nat :: p < |q| ==> StaysInside(|q|, p, Reader(q)(p))
  {
    hide StaysInside;
    forall p: nat | p < |q| ensures StaysInside(|q|, p, Reader(q)(p)) {
      EntryParsed(q, p);
    }
  }

  /**
   Whatever bytes the queue holds: the number of passes through the loop is bounded, the pointer
   stays in the ring, and a normal return has consumed the announced bytes or exactly one whole ring
   more; the latter only if the last entry claims more than the ring can hold beside its header.
   */
  lemma DrainBounds(q: seq<byte>, r: nat, w: nat)
    requires |q| >= ENTRY_HEADER_SIZE && r < |q|
    ensures
      var d, n := ReadLogs(q, r, w), Distance(|q|, r, if w <= |q| then w else r);
      d.ptr < |q| && 6 * |d.entries| < n + 6 && 6 * Iterations(Drain(q, r, n)) < n + 6 &&
      (d.error == None ==>
        d.ptr == w < |q| &&
        (Size(d.entries) == n ||
         (Size(d.entries) == n + |q| && d.entries != [] && Last(d.entries).Size() > |q|)))
  {
    hide StaysInside, Read, DecodeHeader, EncodeAll;
    var m, n := |q|, Distance(|q|, r, if w <= |q| then w else r);
    ReaderStaysInside(q);
    DrainCount(m, Reader(q), r, n);
    var d := Drain(q, r, n);
    if w <= |q| && d.error == None && d.ptr == w && w != r {
      DrainConsumed(m, Reader(q), r, n);
      CongruentTurns(m, r + Size(d.entries), d.ptr);
    }
  }

  lemma {:induction false} ZeroSum(s: seq<byte>)
    requires forall i :: 0 <= i < |s| ==> s[i] == 0
    ensures XorAll(s) == 0
  {
    if s != [] {
      ZeroSum(s[..|s| - 1]);
    }
  }

  /** A ring whose first entry claims all 8 bytes behind its header, that is, itself. */
  const OVERLAPPING: seq<byte> := [0, 0, 8, 0, 0, 0, 0, 0]

  lemma OverlappingBytes()
    ensures Read(OVERLAPPING, 0, 6) == [0, 0, 8, 0, 0, 0]
    ensures Read(OVERLAPPING, 6, 8) == [0, 0, 0, 0, 8, 0, 0, 0]
  {}

  lemma OverlappingSums()
    ensures XorAll([0, 0, 8, 0, 0, 0]) == 8 && XorAll([0, 0, 0, 0, 8, 0, 0, 0]) == 8
  {
    var two: seq<byte>, three: seq<byte>, four: seq<byte> := [0, 0], [0, 0, 0], [0, 0, 0, 0];
    OneByteSum(two, 8, three);
    OneByteSum(four, 8, three);
    assert two + [8] + three == [0, 0, 8, 0, 0, 0];
    assert four + [8] + three == [0, 0, 0, 0, 8, 0, 0, 0];
  }

  lemma OneByteSum(before: seq<byte>, b: byte, after: seq<byte>)
    requires forall i :: 0 <= i < |before| ==> before[i] == 0
    requires forall i :: 0 <= i < |after| ==> after[i] == 0
    ensures XorAll(before + [b] + after) == b
  {
    ZeroSum(before);
    ZeroSum(after);
    XorAllConcat(before + [b], after);
    XorAllSnoc(before, b);
  }

  lemma OverlappingHeader()
    ensures DecodeHeader([0, 0, 8, 0, 0, 0]) == QueueEntryHeader(0, 8, 0, 0)
  {
    var s: seq<byte> := [0, 0, 8, 0, 0, 0];
    assert s[..2] == [0, 0] && s[2..4] == [8, 0];
    assert LeNat([0, 0]) == 0 && LeNat([8, 0]) == 8;
  }

  lemma OverlappingEntry()
    ensures
      var e := Entry(QueueEntryHeader(0, 8, 0, 0), [0, 0, 0, 0, 8, 0, 0, 0]);
      ReadEntry(OVERLAPPING, 0) == EntryRead(Success(e), 6)
  {
    hide Read, XorAll, DecodeHeader;
    OverlappingBytes();
    OverlappingSums();
    OverlappingHeader();
  }

  /** The over-read does happen: an entry as long as the ring covers its own header and is accepted. */
  lemma OverReadHappens()
    ensures
      var d := ReadLogs(OVERLAPPING, 0, 6);
      d.error == None && d.ptr == 6 && Size(d.entries) == 6 + 8
  {
    hide ReadEntry, EncodeAll;
    OverlappingEntry();
    DrainCons(Reader(OVERLAPPING), 0, 6);
    DrainStops(Reader(OVERLAPPING), 6, 6 - 14);
  }

  /** A normal return consumed exactly the announced bytes if and only if no entry is longer than the ring. */
  lemma OverReadExactly(q: seq<byte>, r: nat, w: nat)
    requires |q| >= ENTRY_HEADER_SIZE && r < |q| && w <= |q| && ReadLogs(q, r, w).error.None?
    ensures
      var d := ReadLogs(q, r, w);
      Size(d.entries) == Distance(|q|, r, w) <==> forall e <- d.entries :: e.Size() <= |q|
  {
    hide ReadLogs, EncodeAll, Encode;
    DrainBounds(q, r, w);
    MemberSize(ReadLogs(q, r, w).entries);
  }

  /**
   Before the call: the drain returns normally after exactly the announced bytes if and only if the
   segment between the pointers is the encoding of some list of sealed entries.
   */
  lemma ExactReturnExactly(q: seq<byte>, r: nat, w: nat)
    requires |q| >= ENTRY_HEADER_SIZE && r < |q| && w < |q|
    ensures
      var d, n := ReadLogs(q, r, w), Distance(|q|, r, w);
      d.error.None? && Size(d.entries) == n <==>
        exists es :: AllSealed(es) && Read(q, r, n) == EncodeAll(es)
  {
    hide ReadLogs, Read, EncodeAll, AllSealed;
    var d, n := ReadLogs(q, r, w), Distance(|q|, r, w);
    if d.error.None? && Size(d.entries) == n {
      OverReadExactly(q, r, w);
      ParserInvertsPrinter(q, r, w, d.entries);
    }
    if es :| AllSealed(es) && Read(q, r, n) == EncodeAll(es) {
      ParserInvertsPrinter(q, r, w, es);
      assert d.entries == es;
    }
  }

  /** No reader inside the ring ever meets a write pointer that equals the ring size. */
  lemma WritePtrAtEndFails(q: seq<byte>, r: nat)
    requires |q| >= ENTRY_HEADER_SIZE && r < |q|
    ensures ReadLogs(q, r, |q|).error.Some?
  {
    DrainBounds(q, r, |q|);
  }

  /**
   With both pointers inside the ring, the poll returns es normally exactly when the bytes between
   the pointers are the encodings of es, each XORing to zero; and then the pointers meet.
   */
  lemma ParserInvertsPrinter(q: seq<byte>, r: nat, w: nat, es: seq<Entry>)
    requires |q| >= ENTRY_HEADER_SIZE && r < |q| && w < |q|
    ensures ReadLogs(q, r, w).Outcome() == Success(es) && (forall e <- es :: e.Size() <= |q|)
       <==> AllSealed(es) && Read(q, r, Distance(|q|, r, w)) == EncodeAll(es)
    ensures ReadLogs(q, r, w).Outcome() == Success(es) ==> ReadLogs(q, r, w).ptr == w
  {
    var n := Distance(|q|, r, w);
    if ReadLogs(q, r, w).Outcome() == Success(es) {
      DrainBounds(q, r, w);
      if forall e <- es :: e.Size() <= |q| {
        DrainedSegment(q, r, n);
      }
    }
    if AllSealed(es) && Read(q, r, n) == EncodeAll(es) {
      DrainSegment(q, r, es);
      MemberSize(es);
    }
  }

  lemma {:induction false} MemberSize(es: seq<Entry>)
    ensures forall e <- es :: e.Size() <= Size(es)
  {
    if es != [] {
      MemberSize(es[1..]);
    }
  }

  // ----- every write pointer below M can be met -----

  /** A ring of m zeros. */
  function Blank(m: nat): (q: seq<byte>)
    ensures |q| == m
  {
    seq(m, _ => 0)
  }

  lemma MoveOn(m: nat, r: nat, w: nat)
    requires r < m && w < m
    ensures Advance(m, r, Distance(m, r, w)) == w
  {}

  /** n >= 6 bytes from r to w: one sealed entry fills them. */
  lemma LongDistanceDrained(m: nat, r: nat, w: nat)
    requires ENTRY_HEADER_SIZE <= m < 0x1_0000 && r < m && w < m && Distance(m, r, w) >= ENTRY_HEADER_SIZE
    ensures exists q: seq<byte> :: |q| == m && ReadLogs(q, r, w).error.None?
  {
    hide Encode, EncodeAll, Read, Write, ReadLogs, Seal;
    var n := Distance(m, r, w);
    var body := Blank(n - ENTRY_HEADER_SIZE);
    var e := Seal(0, 0, body);
    var es := [e];
    SingleEntry(e);
    var q := Write(Blank(m), r, Encode(e));
    ReadWritten(Blank(m), r, Encode(e));
    ParserInvertsPrinter(q, r, w, es);
  }

  lemma SingleEntry(e: Entry)
    ensures EncodeAll([e]) == Encode(e)
    ensures AllSealed([e]) <==> e.Sealed()
  {
    hide Encode;
    assert [e][1..] == [] && Encode(e) + [] == Encode(e);
  }

  /** The header of an entry that covers the whole ring of m bytes and its own first n bytes. */
  function SelfHeader(m: nat, n: nat): (h: QueueEntryHeader)
    requires 0 < n < ENTRY_HEADER_SIZE <= m < 0x1_0000
  {
    var size := m + n - ENTRY_HEADER_SIZE;
    QueueEntryHeader(0, size, if n <= 4 then XorAll((LeBytes(0, 2) + LeBytes(size, 2))[n..]) else 0, 0)
  }

  /** The bytes of such an entry's header behind the first n XOR to zero. */
  lemma SelfHeaderSum(m: nat, n: nat)
    requires 0 < n < ENTRY_HEADER_SIZE <= m < 0x1_0000
    ensures XorAll(EncodeHeader(SelfHeader(m, n))[n..]) == 0
  {
    hide LeBytes, XorAll;
    var h := SelfHeader(m, n);
    var s := LeBytes(0, 2) + LeBytes(h.entrySize, 2);
    assert EncodeHeader(h) == s + [h.checksum, 0];
    if n <= 4 {
      TailSum(s, h.checksum, n);
    } else {
      assert EncodeHeader(h)[n..] == [0];
      ZeroSum([0]);
    }
  }

  lemma TailSum(s: seq<byte>, checksum: byte, n: nat)
    requires n <= |s| && checksum == XorAll(s[n..])
    ensures XorAll((s + [checksum, 0])[n..]) == 0
  {
    hide XorAll;
    assert (s + [checksum, 0])[n..] == s[n..] + [checksum] + [0];
    XorAllSnoc(s[n..], checksum);
    XorAllSnoc(s[n..] + [checksum], 0);
    XorSame(checksum);
  }

  lemma XorSame(a: byte)
    ensures (a ^ a) ^ 0 == 0
  {}

  /** A ring that shows header bytes head at r and zeros everywhere else. */
  function SelfRing(m: nat, r: nat, head: seq<byte>): (q: seq<byte>)
    requires |head| == ENTRY_HEADER_SIZE <= m && r < m
    ensures |q| == m
  {
    Write(Blank(m), r, head + Blank(m - ENTRY_HEADER_SIZE))
  }

  lemma SelfRingReads(m: nat, r: nat, head: seq<byte>, n: nat)
    requires |head| == ENTRY_HEADER_SIZE <= m && r < m && n <= ENTRY_HEADER_SIZE
    ensures
      var q, p := SelfRing(m, r, head), Advance(m, r, ENTRY_HEADER_SIZE);
      Read(q, r, ENTRY_HEADER_SIZE) == head && p < m &&
      Read(q, p, m + n - ENTRY_HEADER_SIZE) == Blank(m - ENTRY_HEADER_SIZE) + head[..n]
  {
    hide Write;
    var q, p, z := SelfRing(m, r, head), Advance(m, r, ENTRY_HEADER_SIZE), Blank(m - ENTRY_HEADER_SIZE);
    ReadWritten(Blank(m), r, head + z);
    assert Read(q, r, m) == head + z;
    ReadSplit(q, r, ENTRY_HEADER_SIZE, m - ENTRY_HEADER_SIZE);
    ReadSplit(q, r, n, ENTRY_HEADER_SIZE - n);
    SamePrefix(Read(q, r, ENTRY_HEADER_SIZE), Read(q, p, m - ENTRY_HEADER_SIZE), head, z);
    ReadSplit(q, p, m - ENTRY_HEADER_SIZE, n);
    assert Advance(m, p, m - ENTRY_HEADER_SIZE) == r;
    assert Read(q, r, n) == head[..n];
  }

  lemma SelfPointer(m: nat, r: nat, w: nat)
    requires ENTRY_HEADER_SIZE <= m && r < m && w < m && 0 < Distance(m, r, w) < ENTRY_HEADER_SIZE
    ensures Advance(m, Advance(m, r, ENTRY_HEADER_SIZE), m + Distance(m, r, w) - ENTRY_HEADER_SIZE) == w
  {}

  lemma SelfRead(m: nat, r: nat, w: nat)
    requires ENTRY_HEADER_SIZE <= m < 0x1_0000 && r < m && w < m && 0 < Distance(m, r, w) < ENTRY_HEADER_SIZE
    ensures
      var h := SelfHeader(m, Distance(m, r, w));
      var z := ReadEntry(SelfRing(m, r, EncodeHeader(h)), r);
      z.result.Success? && z.ptr == w && z.result.value.Size() == m + Distance(m, r, w)
  {
    hide Read, Write, XorAll, EncodeHeader, DecodeHeader, Advance, LeBytes, SelfRing, Distance;
    var n := Distance(m, r, w);
    var h := SelfHeader(m, n);
    var head, z := EncodeHeader(h), Blank(m - ENTRY_HEADER_SIZE);
    SelfRingReads(m, r, head, n);
    HeaderRoundTrip(h);
    SelfPointer(m, r, w);
    SelfHeaderSum(m, n);
    assert head == head[..n] + head[n..];
    XorAllConcat(head[..n], head[n..]);
    ZeroSum(z);
    XorAllConcat(z, head[..n]);
    XorZeros(XorAll(head[..n]));
  }

  lemma XorZeros(a: byte)
    ensures (a ^ 0) ^ (0 ^ a) == 0
  {}

  /** Fewer than 6 bytes from r to w: an entry as long as the ring and those bytes fills them. */
  lemma ShortDistanceDrained(m: nat, r: nat, w: nat)
    requires ENTRY_HEADER_SIZE <= m < 0x1_0000 && r < m && w < m && 0 < Distance(m, r, w) < ENTRY_HEADER_SIZE
    ensures exists q: seq<byte> :: |q| == m && ReadLogs(q, r, w).error.None?
  {
    hide ReadEntry, SelfRing, EncodeHeader, SelfHeader, Encode, EncodeAll;
    var n := Distance(m, r, w);
    var q := SelfRing(m, r, EncodeHeader(SelfHeader(m, n)));
    SelfRead(m, r, w);
    DrainCons(Reader(q), r, n);
    DrainStops(Reader(q), w, n - (m + n));
    assert |q| == m && ReadLogs(q, r, w).error.None?;
  }

  /** Among the write pointers the range check lets through, exactly those below M can be met. */
  lemma WritePtrExactly(m: nat, r: nat, w: nat)
    requires ENTRY_HEADER_SIZE <= m < 0x1_0000 && r < m && w <= m
    ensures (exists q: seq<byte> :: |q| == m && ReadLogs(q, r, w).error.None?) <==> w < m
  {
    hide ReadLogs;
    if w == m {
      forall q: seq<byte> | |q| == m ensures ReadLogs(q, r, w).error.Some? {
        WritePtrAtEndFails(q, r);
      }
    } else if w == r {
      NothingDrained(Blank(m), r);
    } else if Distance(m, r, w) < ENTRY_HEADER_SIZE {
      ShortDistanceDrained(m, r, w);
    } else {
      LongDistanceDrained(m, r, w);
    }
  }

  lemma NothingDrained(q: seq<byte>, r: nat)
    requires |q| >= ENTRY_HEADER_SIZE && r < |q|
    ensures ReadLogs(q, r, r) == Drained([], None, r)
  {}
}
