/**
 Half-read and half-stored pointers.  The BMC reads the write pointer and stores its read pointer one
 byte at a time; this module says exactly when the other side's steps in between do no harm, and
 gives runs in which they do.
 */
module Tearing {
  import opened Bytes
  import opened Wrappers
  import opened Arithmetic
  import opened Ring
  import opened Interleaving

  /** The low byte of one packed pointer before the other bytes of another reads as the torn pointer. */
  lemma TornBytes(low: nat, high: nat)
    requires low < 0x1_0000 && high < 0x1_0000
    ensures LeNat([LeBytes(low, 3)[0]] + LeBytes(high, 3)[1..]) == Torn(low, high)
    ensures LeBytes(low, 3)[2] == LeBytes(high, 3)[2] == 0
  {
    hide Torn;
    TwoBytes(high);
    ByteRoundTrip(low % 256);
    ByteRoundTrip(high / 256);
    TwoBytes(low);
    var s := [LeBytes(low, 3)[0]] + LeBytes(high, 3)[1..];
    assert s == [(low % 256) as byte, (high / 256) as byte, 0];
    assert s[1..] == [(high / 256) as byte, 0] && s[1..][1..] == [0];
    ThreeByteValue(s);
    TornParts(low, high);
  }

  lemma TwoBytes(p: nat)
    requires p < 0x1_0000
    ensures LeBytes(p, 3) == [(p % 256) as byte, (p / 256) as byte, 0]
  {
    var h := p / 256;
    assert h % 256 == h && h / 256 == 0;
    assert LeBytes(0, 1) == [0] + LeBytes(0, 0) == [0];
    assert LeBytes(h, 2) == [h as byte] + LeBytes(0, 1);
    assert LeBytes(p, 3) == [(p % 256) as byte] + LeBytes(h, 2);
  }

  lemma ThreeByteValue(s: seq<byte>)
    requires |s| == 3
    ensures LeNat(s) == s[0] as nat + 256 * (s[1] as nat + 256 * (s[2] as nat))
  {
    var t, u := s[1..], [s[2]];
    assert t[0] == s[1] && t[1..] == u && u[1..] == [];
    assert LeNat(u) == s[2] as nat;
    assert LeNat(t) == s[1] as nat + 256 * LeNat(u);
    assert LeNat(s) == s[0] as nat + 256 * LeNat(t);
  }

  lemma TornParts(low: nat, high: nat)
    ensures Torn(low, high) == low % 256 + 256 * (high / 256)
    ensures Torn(low, high) % 256 == low % 256 && Torn(low, high) / 256 == high / 256
  {}

  // ----- a snapshot read in two halves -----

  /**
   With at most one of the two bytes changed in between, the value read is the pointer before or
   after; and only then.
   */
  lemma TornIsOneOfBoth(first: nat, last: nat)
    ensures Torn(first, last) == first || Torn(first, last) == last <==>
              first % 256 == last % 256 || first / 256 == last / 256
  {
    TornParts(first, last);
    TornSelf(first);
    TornSelf(last);
    TornParts(first, first);
    TornParts(last, last);
  }

  /** Where the published entries up to number k end. */
  function EndOf(x: World, k: nat): (p: nat)
    requires |x.returned| <= k <= |x.appended| && x.r < |x.q|
    requires Size(x.appended[|x.returned|..k]) < |x.q|
    ensures p <= |x.q|
  {
    Advance(|x.q|, x.r, Size(x.appended[|x.returned|..k]))
  }

  lemma {:induction false} WholeOfSize(es: seq<Entry>, k: nat)
    requires k <= |es|
    ensures Whole(es, Size(es[..k])) == k
    decreases k
  {
    hide EncodeAll;
    if k == 0 {
      assert es[..0] == [];
      EmptySize();
    } else {
      assert es[..k][0] == es[0] && es[..k][1..] == es[1..][..k - 1];
      WholeOfSize(es[1..], k - 1);
    }
  }

  lemma EmptySize()
    ensures Size([]) == 0
  {}

  lemma DistanceBack(m: nat, r: nat, n: nat)
    requires r < m && n < m
    ensures Advance(m, r, n) < m && Distance(m, r, Advance(m, r, n)) == n
  {}

  /** A snapshot is harmless exactly if it is where some number of published entries end. */
  lemma BoundaryExactly(x: World, v: nat)
    requires Inv(x)
    ensures
      Boundary(x, v) <==>
        exists k: nat ::
          |x.returned| <= k <= |x.appended| && Size(x.appended[|x.returned|..k]) < |x.q| && v == EndOf(x, k)
  {
    hide EncodeAll, Size, Read, Advance, Distance, ReaderOnTrack, WriterFits;
    if Boundary(x, v) {
      var d := Distance(|x.q|, x.r, v);
      var k := |x.returned| + Whole(Rest(x), d);
      assert x.appended[|x.returned|..k] == Rest(x)[..Whole(Rest(x), d)];
      DistanceLess(|x.q|, x.r, v);
      MoveOn(|x.q|, x.r, v);
      assert v == EndOf(x, k);
    }
    if k: nat :|
      |x.returned| <= k <= |x.appended| && Size(x.appended[|x.returned|..k]) < |x.q| && v == EndOf(x, k)
    {
      EndIsBoundary(x, k);
    }
  }

  lemma DistanceLess(m: nat, r: nat, w: nat)
    requires r < m && w < m
    ensures Distance(m, r, w) < m
  {}

  lemma EndIsBoundary(x: World, k: nat)
    requires x.r < |x.q| && |x.returned| <= k <= |x.appended| && Size(x.appended[|x.returned|..k]) < |x.q|
    ensures Boundary(x, EndOf(x, k))
  {
    hide EncodeAll, Size, Advance, Distance;
    var es := x.appended[|x.returned|..k];
    assert es == Rest(x)[..k - |x.returned|];
    WholeOfSize(Rest(x), k - |x.returned|);
    DistanceBack(|x.q|, x.r, Size(es));
  }

  /** Both the pointer at the first byte's reading and the present one are where entries end. */
  lemma BothAreBoundaries(x: World)
    requires Inv(x) && x.reader.Snapping?
    ensures Boundary(x, x.reader.first) && Boundary(x, x.w)
  {
    hide Read, Boundary, WriterFits, EncodeHeader, XorAll;
    EndIsBoundary(x, x.reader.count);
    assert x.appended[|x.returned|..|x.appended|] == Rest(x);
    assert EncodeAll(Rest(x))[0..] == EncodeAll(Rest(x));
    assert Size(Rest(x)) == Used(x);
    EndIsBoundary(x, |x.appended|);
    MoveOn(|x.q|, x.r, x.w);
  }

  /** The two bytes of the write pointer were not both changed between their readings. */
  predicate OneByteChanged(x: World) {
    x.reader.Snapping? && (x.reader.first % 256 == x.w % 256 || x.reader.first / 256 == x.w / 256)
  }

  lemma OneByteIsSound(x: World)
    requires Inv(x) && OneByteChanged(x)
    ensures Boundary(x, Torn(x.reader.first, x.w))
  {
    hide Inv, Boundary, Torn;
    TornIsOneOfBoth(x.reader.first, x.w);
    BothAreBoundaries(x);
  }

  // ----- a read pointer stored in two halves -----

  /**
   What the BIOS sees while the new pointer p is half stored over prev: at least the bytes still to
   be read, exactly if the shown value is not before prev, or seeing it before prev does not go once
   around the ring, or it is p already.
   */
  lemma HalfStoreExactly(m: nat, prev: nat, p: nat, w: nat)
    requires prev < m && p < m && w < m && Distance(m, prev, p) <= Distance(m, prev, w)
    ensures
      var v := Torn(p, prev);
      Distance(m, v % m, w) >= Distance(m, p, w) <==>
        v >= prev || Distance(m, prev, w) + (prev - v) < m || v == p
  {
    hide Torn;
    var v := Torn(p, prev);
    TornParts(p, prev);
    TornPlace(m, prev, p);
    if v < m {
      ModSmall(v, m);
    }
  }

  /** Where the half-stored value lies: in the block of prev, and past the end of the ring only after a wrap. */
  lemma TornPlace(m: nat, prev: nat, p: nat)
    requires prev < m && p < m
    ensures
      var v := Torn(p, prev);
      v < prev + 256 && prev < v + 256 &&
      (prev <= p ==> v <= p) &&
      (v >= m ==> p < prev && v % m == v - m < p)
  {
    TornParts(p, prev);
    var v := Torn(p, prev);
    if prev <= p {
      assert prev / 256 <= p / 256;
    }
    if v >= m {
      assert v - m < p % 256 <= p;
      ModSmall(v - m, m);
      QuotientUnique(v, m, 1, v - m);
    }
  }

  /** The reader has stored the low byte, and the BIOS has not gone beyond the old pointer since. */
  predicate HalfStored(x: World) {
    x.half && x.prev < |x.q| && x.r < |x.q| && x.w < |x.q| &&
    Distance(|x.q|, x.prev, x.r) <= Distance(|x.q|, x.prev, x.w)
  }

  lemma HalfStoredSees(x: World)
    requires Inv(x) && HalfStored(x)
    ensures
      Seen(x) >= Used(x) <==>
        x.shown >= x.prev || Distance(|x.q|, x.prev, x.w) + (x.prev - x.shown) < |x.q| || x.shown == x.r
  {
    hide Torn, Distance, RingHolds, WriterFits, ReaderOnTrack;
    HalfStoreExactly(|x.q|, x.prev, x.r, x.w);
    HoldsInside(x);
  }

  lemma HoldsInside(x: World)
    requires Inv(x)
    ensures x.r < |x.q| && x.w < |x.q| && ENTRY_HEADER_SIZE <= |x.q| < 0x1_0000 && x.gap >= 1
  {
    hide Read, EncodeAll;
  }

  /** The BIOS would start an entry of n bytes. */
  predicate SeesRoom(x: World, n: nat) {
    Seen(x) + n + x.gap <= |x.q|
  }

  /** The BIOS sees room for too large an entry exactly if it sees at least gap bytes too few in use. */
  lemma TooMuchRoomExactly(x: World)
    requires Inv(x) && SeesRoom(x, 0)
    ensures (exists n: nat :: SeesRoom(x, n) && Used(x) + n >= |x.q|) <==> Seen(x) + x.gap <= Used(x)
  {
    hide Inv, Seen, Used;
    if Seen(x) + x.gap <= Used(x) {
      var n: nat := |x.q| - x.gap - Seen(x);
      assert SeesRoom(x, n) && Used(x) + n >= |x.q|;
    }
  }

  // ----- an entry that does not fit -----

  /** The BIOS storing the next n bytes of its entry. */
  function Writes(n: nat): (schedule: seq<Step>)
    ensures |schedule| == n
  {
    seq(n, _ => BiosWrite)
  }

  lemma {:induction false} WritesRun(x: World, n: nat)
    requires x.writer.Writing? && x.w < |x.q| && x.writer.written + n <= x.writer.e.Size() <= |x.q|
    ensures
      var y := Written(x, n);
      Runs(x, Writes(n), y)
    decreases n
  {
    hide Encode, Written;
    WrittenStep(x, n);
    if n > 0 {
      var z := Do(x, BiosWrite);
      WritesRun(z, n - 1);
      assert Writes(n)[0] == BiosWrite && Writes(n)[1..] == Writes(n - 1);
    }
  }

  /** The world after that. */
  function Written(x: World, n: nat): (y: World)
    requires x.writer.Writing? && x.w < |x.q| && x.writer.written + n <= x.writer.e.Size() <= |x.q|
    ensures y.writer.Writing? && y.writer.e == x.writer.e && y.writer.written == x.writer.written + n
    ensures |y.q| == |x.q| && y == x.(q := y.q, writer := y.writer)
    decreases n
  {
    if n == 0 then x
    else
      var k := x.writer.written;
      Written(x.(q := x.q[At(|x.q|, x.w, k) := Encode(x.writer.e)[k]], writer := x.writer.(written := k + 1)), n - 1)
  }

  lemma WrittenStep(x: World, n: nat)
    requires x.writer.Writing? && x.w < |x.q| && x.writer.written + n <= x.writer.e.Size() <= |x.q|
    ensures n == 0 ==> Written(x, n) == x
    ensures n > 0 ==> Enabled(x, BiosWrite) && Written(x, n) == Written(Do(x, BiosWrite), n - 1)
  {}

  /** All steps of the BIOS that append e. */
  function Appends(e: Entry): (schedule: seq<Step>) {
    [BiosBegin(e)] + Writes(e.Size()) + [BiosPublish]
  }

  /** The world after the BIOS has appended e on its own. */
  function Appended(x: World, e: Entry): (y: World)
    requires x.w < |x.q| && e.Size() <= |x.q|
    ensures y.w <= |x.q| && |y.q| == |x.q|
    ensures y == x.(q := y.q, w := Advance(|x.q|, x.w, e.Size()), writer := Quiet, appended := x.appended + [e])
  {
    Written(x.(writer := Writing(e, 0)), e.Size()).(
      w := Advance(|x.q|, x.w, e.Size()), writer := Quiet, appended := x.appended + [e])
  }

  lemma {:induction false} RunsConcat(x: World, a: seq<Step>, y: World, b: seq<Step>, z: World)
    requires Runs(x, a, y) && Runs(y, b, z)
    ensures Runs(x, a + b, z)
    decreases |a|
  {
    hide Enabled, Do;
    if a == [] {
      assert a + b == b;
    } else {
      assert (a + b)[1..] == a[1..] + b;
      RunsConcat(Do(x, a[0]), a[1..], y, b, z);
    }
  }

  lemma RunsOne(x: World, step: Step)
    requires Enabled(x, step)
    ensures Runs(x, [step], Do(x, step))
  {
    hide Enabled, Do;
    assert [step][1..] == [];
  }

  lemma AppendsRun(x: World, e: Entry)
    requires Enabled(x, BiosBegin(e)) && x.w < |x.q| && x.gap >= 1
    ensures Runs(x, Appends(e), Appended(x, e))
  {
    hide Runs, Encode, Written, Entry.Sealed;
    var y := Do(x, BiosBegin(e));
    RunsOne(x, BiosBegin(e));
    WritesRun(y, e.Size());
    var z := Written(y, e.Size());
    RunsConcat(x, [BiosBegin(e)], y, Writes(e.Size()), z);
    RunsOne(z, BiosPublish);
    RunsConcat(x, [BiosBegin(e)] + Writes(e.Size()), z, [BiosPublish], Do(z, BiosPublish));
  }

  /** The same schedule, sound if the entry fits. */
  lemma {:induction false} BiosIsSound(x: World, schedule: seq<Step>, y: World)
    requires Runs(x, schedule, y) && forall step <- schedule :: step.BiosWrite? || step.BiosPublish?
    ensures SoundRuns(x, schedule, y)
    decreases |schedule|
  {
    hide Enabled, Do;
    if schedule != [] {
      assert schedule[0] in schedule;
      BiosIsSound(Do(x, schedule[0]), schedule[1..], y);
    }
  }

  /**
   Exactly which entries the BIOS may append: the ring still holds all unreturned entries afterwards
   if and only if the entry left a byte free of what is really free.
   */
  lemma AppendExactly(x: World, e: Entry)
    requires Inv(x) && Enabled(x, BiosBegin(e))
    ensures x.w < |x.q| && Runs(x, Appends(e), Appended(x, e))
    ensures RingHolds(Appended(x, e)) <==> Used(x) + e.Size() < |x.q|
  {
    hide Runs, SoundRuns, Encode, EncodeAll, Read, Entry.Sealed, Written, Advance, Distance, ReaderOnTrack;
    HoldsInside(x);
    AppendsRun(x, e);
    var z := Appended(x, e);
    if Used(x) + e.Size() < |x.q| {
      AppendKeeps(x, e);
    } else if RingHolds(z) {
      AppendTooLong(x, e);
    }
  }

  lemma AppendKeeps(x: World, e: Entry)
    requires Inv(x) && Enabled(x, BiosBegin(e)) && Used(x) + e.Size() < |x.q| && x.w < |x.q|
    ensures Inv(Appended(x, e)) && SoundRuns(x, Appends(e), Appended(x, e))
  {
    hide Inv, Runs, Written, Used;
    HoldsInside(x);
    AppendsRun(x, e);
    var tail := Writes(e.Size()) + [BiosPublish];
    assert Appends(e)[0] == BiosBegin(e) && Appends(e)[1..] == tail;
    RunsTail(x, Appends(e), Appended(x, e));
    var y := Do(x, BiosBegin(e));
    assert forall step <- tail :: step.BiosWrite? || step.BiosPublish?;
    BiosIsSound(y, tail, Appended(x, e));
    ScheduleKeeps(x, Appends(e), Appended(x, e));
  }

  lemma RunsTail(x: World, schedule: seq<Step>, y: World)
    requires Runs(x, schedule, y) && schedule != []
    ensures Enabled(x, schedule[0]) && Runs(Do(x, schedule[0]), schedule[1..], y)
  {}

  /** What the ring can hold is less than its size, and every unreturned entry needs its bytes. */
  lemma AppendTooLong(x: World, e: Entry)
    requires Inv(x) && x.w < |x.q| && e.Size() <= |x.q| && RingHolds(Appended(x, e))
    ensures Used(x) + e.Size() < |x.q|
  {
    hide Encode, EncodeAll, Read, Entry.Sealed, Written, Advance, ReaderOnTrack, WriterFits;
    var z := Appended(x, e);
    assert Rest(z) == Rest(x) + [e];
    EncodeAllConcat(Rest(x), [e]);
    EncodeOne(e);
    assert |EncodeAll(Rest(z))| - Released(z) == Used(z);
    DistanceLess(|z.q|, z.r, z.w);
  }

  // ----- a BIOS that leaves a block of 256 bytes free -----

  /** Bytes of the entry the BIOS is storing. */
  function Pending(x: World): nat {
    if x.writer.Writing? then x.writer.e.Size() else 0
  }

  /** The read pointer from which the BIOS's room can be counted: the shown one, unless that lies before the old one. */
  function Base(x: World): nat {
    if (x.half && x.shown < x.prev && x.shown != x.r) || |x.q| == 0 then x.prev else x.shown % |x.q|
  }

  predicate Roomy(x: World) {
    x.gap >= 256 && x.w < |x.q| && Base(x) < |x.q| &&
    Used(x) <= Distance(|x.q|, Base(x), x.w) &&
    Distance(|x.q|, Base(x), x.w) + Pending(x) + x.gap <= |x.q|
  }

  lemma FurtherBack(m: nat, v: nat, prev: nat, w: nat)
    requires v < prev < m && w < m && Distance(m, prev, w) + (prev - v) < m
    ensures Distance(m, v, w) == Distance(m, prev, w) + (prev - v)
  {}

  lemma HalfBase(m: nat, prev: nat, n: nat, w: nat)
    requires prev < m && w < m && n <= Distance(m, prev, w)
    ensures
      var p := Advance(m, prev, n);
      var v := Torn(p, prev);
      var b := if v < prev && v != p then prev else v % m;
      p < m && b < m && Distance(m, p, w) <= Distance(m, b, w) <= Distance(m, prev, w)
  {
    hide Torn;
    DistanceLess(m, prev, w);
    var p := Advance(m, prev, n);
    assert p < m;
    var v := Torn(p, prev);
    TornPlace(m, prev, p);
    if v < m {
      ModSmall(v, m);
    }
  }

  /** Such a BIOS never sees fewer bytes in use than there are. */
  lemma RoomySees(x: World)
    requires Inv(x) && Roomy(x)
    ensures Used(x) <= Distance(|x.q|, Base(x), x.w) <= Seen(x)
  {
    hide RingHolds, WriterFits, ReaderOnTrack, Torn, Distance, Used;
    HoldsInside(x);
    if Base(x) != x.shown % |x.q| {
      TornPlace(|x.q|, x.prev, x.r);
      ModSmall(x.shown, |x.q|);
      FurtherBack(|x.q|, x.shown, x.prev, x.w);
    }
  }

  lemma BeginRoomy(x: World, e: Entry)
    requires Inv(x) && Roomy(x) && Enabled(x, BiosBegin(e))
    ensures Used(x) + e.Size() < |x.q| && Roomy(Do(x, BiosBegin(e)))
  {
    hide Inv, Entry.Sealed;
    RoomySees(x);
  }

  lemma PublishRoomy(x: World)
    requires Inv(x) && Roomy(x) && Enabled(x, BiosPublish)
    ensures Roomy(Do(x, BiosPublish))
  {
    hide RingHolds, WriterFits, ReaderOnTrack, Torn, Distance, Advance, Base;
    HoldsInside(x);
    SameBase(x, Do(x, BiosPublish));
    FurtherOn(|x.q|, Base(x), x.w, x.writer.e.Size());
    FurtherOn(|x.q|, x.r, x.w, x.writer.e.Size());
  }

  lemma SameBase(x: World, y: World)
    requires y.half == x.half && y.shown == x.shown && y.prev == x.prev && y.r == x.r && |y.q| == |x.q|
    ensures Base(y) == Base(x)
  {}

  /** The bytes the reader releases next are in use. */
  lemma NextFits(x: World)
    requires Inv(x) && |x.returned| < |x.appended|
    ensures Released(x) == 0 ==> ENTRY_HEADER_SIZE <= Used(x)
    ensures Released(x) == ENTRY_HEADER_SIZE ==> |x.appended[|x.returned|].body| <= Used(x)
  {
    hide EncodeHeader, XorAll, Advance, Torn;
    NextEntry(x);
    assert |EncodeAll(Rest(x))| - Released(x) == Used(x);
  }

  /** A BMC step leaves the pointers alone, stores a second byte, or releases bytes in use and stores a first byte. */
  lemma BmcPointers(x: World) returns (n: nat)
    requires Inv(x) && Sound(x, Bmc)
    ensures n <= Used(x) && x.r < |x.q|
    ensures
      var y := BmcStep(x);
      y.w == x.w && y.q == x.q && y.gap == x.gap && y.writer == x.writer &&
      (x.half ==> y.shown == y.r == x.r && !y.half) &&
      (!x.half ==>
        (y.r == x.r && y.shown == x.shown && y.prev == x.prev && !y.half) ||
        (y.r == Advance(|x.q|, x.r, n) && y.shown == Torn(y.r, x.r) && y.prev == x.r && y.half))
  {
    hide EncodeHeader, XorAll, Torn, DecodeHeader, Whole, Boundary, RingHolds, WriterFits;
    HoldsInside(x);
    n := 0;
    CountersFit(x);
    if !x.half && (x.reader.Header? || x.reader.Body?) {
      NextFits(x);
      RingBounds(x);
      n := if x.reader.Body? && |x.reader.got| == x.reader.head.entrySize then |x.reader.got|
           else if x.reader.Header? then ENTRY_HEADER_SIZE else 0;
    }
  }

  lemma BmcRoomy(x: World)
    requires Inv(x) && Roomy(x) && Sound(x, Bmc)
    ensures Roomy(BmcStep(x))
  {
    hide RingHolds, WriterFits, ReaderOnTrack, Torn, Distance, Advance, BmcStep, Boundary;
    var n := BmcPointers(x);
    HoldsInside(x);
    var y := BmcStep(x);
    if x.half {
      ModSmall(x.r, |x.q|);
    } else if !y.half {
      SameBase(x, y);
    } else {
      ModSmall(x.r, |x.q|);
      HalfBase(|x.q|, x.r, n, x.w);
    }
  }

  /** No snapshot is read while both bytes of the write pointer change. */
  predicate Steady(x: World, step: Step) {
    Snaps(x, step) ==> OneByteChanged(x)
  }

  ghost predicate SteadyRuns(x: World, schedule: seq<Step>, y: World)
    decreases |schedule|
  {
    if schedule == [] then x == y
    else
      Enabled(x, schedule[0]) && Steady(x, schedule[0]) && SteadyRuns(Do(x, schedule[0]), schedule[1..], y)
  }

  lemma RoomyStep(x: World, step: Step)
    requires Inv(x) && Roomy(x) && Enabled(x, step) && Steady(x, step)
    ensures Sound(x, step) && Roomy(Do(x, step))
  {
    hide Inv, BmcStep, Boundary, Base, Used;
    match step
    case BiosBegin(e) => BeginRoomy(x, e);
    case BiosWrite => SameBase(x, Do(x, step)); SameUsed(x, Do(x, step));
    case BiosPublish => PublishRoomy(x);
    case Bmc =>
      if Snaps(x, Bmc) {
        OneByteIsSound(x);
      }
      BmcRoomy(x);
  }

  lemma SameUsed(x: World, y: World)
    requires y.r == x.r && y.w == x.w && |y.q| == |x.q|
    ensures Used(y) == Used(x)
  {}

  lemma {:induction false} RoomySound(x: World, schedule: seq<Step>, y: World)
    requires Inv(x) && Roomy(x) && SteadyRuns(x, schedule, y)
    ensures SoundRuns(x, schedule, y)
    decreases |schedule|
  {
    hide Inv, Roomy, Do, Enabled, Steady, Sound;
    if schedule != [] {
      RoomyStep(x, schedule[0]);
      StepKeeps(x, schedule[0]);
      RoomySound(Do(x, schedule[0]), schedule[1..], y);
    }
  }

  /**
   A BIOS that always leaves 256 bytes free is never misled by a half-stored read pointer: all its
   runs in which no snapshot is read while both bytes of the write pointer change are sound.
   */
  lemma BlockFreeIsSound(x: World, schedule: seq<Step>, y: World)
    requires Initial(x) && 256 <= x.gap <= |x.q| && SteadyRuns(x, schedule, y)
    ensures SoundRuns(x, schedule, y)
    ensures !y.reader.Failed? && y.returned + Rest(y) == y.appended && RingHolds(y)
  {
    hide Inv, SteadyRuns, SoundRuns;
    InitialHolds(x);
    ModSmall(x.r, |x.q|);
    RoomySound(x, schedule, y);
    FifoSafety(x, schedule, y);
  }

  // ----- what a poll does with any snapshot -----

  /** The poll goes on; meanwhile the BIOS at most stores bytes of an entry it has begun. */
  ghost predicate PollRuns(x: World, schedule: seq<Step>, y: World)
    decreases |schedule|
  {
    if schedule == [] then x == y
    else
      var step := schedule[0];
      x.reader != Idle && (step.Bmc? || step.BiosWrite?) && Enabled(x, step) &&
      PollRuns(Do(x, step), schedule[1..], y)
  }

  /** The reader has gone from r0 over the bytes of the entries it returned since number n0, and stops at limit. */
  ghost predicate OnItsWay(x: World, r0: nat, n0: nat, limit: nat) {
    ENTRY_HEADER_SIZE <= |x.q| && x.r < |x.q| && n0 <= |x.returned| &&
    match x.reader
    case Snapping(_, _) => false
    case Failed(_) => true
    case Idle => x.r == limit && Congruent(|x.q|, r0 + Size(x.returned[n0..]), x.r)
    case Header(l, _, _, _) => l == limit && Congruent(|x.q|, r0 + Size(x.returned[n0..]), x.r)
    case Body(l, _, _, _, _) =>
      l == limit && Congruent(|x.q|, r0 + Size(x.returned[n0..]) + ENTRY_HEADER_SIZE, x.r)
  }

  lemma CongruentMove(m: nat, a: int, r: nat, n: nat)
    requires r < m && n <= m && Congruent(m, a, r)
    ensures Advance(m, r, n) < m && Congruent(m, a + n, Advance(m, r, n))
  {
    var k: int :| a == r + k * m;
    var p := Advance(m, r, n);
    if p == r + n {
      assert a + n == p + k * m;
    } else {
      assert a + n == p + (k + 1) * m;
    }
  }

  lemma {:induction false} SizeConcat(a: seq<Entry>, b: seq<Entry>)
    ensures Size(a + b) == Size(a) + Size(b)
  {
    hide EncodeAll;
    if a == [] {
      assert a + b == b;
    } else {
      assert (a + b)[1..] == a[1..] + b;
      SizeConcat(a[1..], b);
    }
  }

  lemma SizeSnoc(es: seq<Entry>, n0: nat, e: Entry)
    requires n0 <= |es|
    ensures Size((es + [e])[n0..]) == Size(es[n0..]) + e.Size()
  {
    hide EncodeAll;
    assert (es + [e])[n0..] == es[n0..] + [e];
    SizeConcat(es[n0..], [e]);
    SizeCons([e], e, []);
  }

  lemma WayStep(x: World, r0: nat, n0: nat, limit: nat)
    requires OnItsWay(x, r0, n0, limit) && x.reader != Idle
    ensures OnItsWay(BmcStep(x), r0, n0, limit)
  {
    hide Size, EncodeAll, EncodeHeader, DecodeHeader, XorAll, Torn, Congruent, Advance;
    if !x.half {
      match x.reader
      case Header(_, _, _, got) =>
        CongruentMove(|x.q|, r0 + Size(x.returned[n0..]), x.r, ENTRY_HEADER_SIZE);
      case Body(_, _, _, head, got) =>
        if |got| <= |x.q| {
          CongruentMove(|x.q|, r0 + Size(x.returned[n0..]) + ENTRY_HEADER_SIZE, x.r, |got|);
          SizeSnoc(x.returned, n0, Entry(head, got));
        }
      case Failed(_) =>
    }
  }

  lemma {:induction false} WayRuns(x: World, schedule: seq<Step>, y: World, r0: nat, n0: nat, limit: nat)
    requires OnItsWay(x, r0, n0, limit) && PollRuns(x, schedule, y)
    ensures OnItsWay(y, r0, n0, limit) && y.appended == x.appended && |y.q| == |x.q| && x.returned <= y.returned
    decreases |schedule|
  {
    hide OnItsWay;
    if schedule != [] {
      var step := schedule[0];
      if step.Bmc? {
        WayStep(x, r0, n0, limit);
      } else {
        WaySame(x, Do(x, step), r0, n0, limit);
      }
      WayRuns(Do(x, step), schedule[1..], y, r0, n0, limit);
    }
  }

  lemma WaySame(x: World, y: World, r0: nat, n0: nat, limit: nat)
    requires OnItsWay(x, r0, n0, limit)
    requires |y.q| == |x.q| && y.r == x.r && y.returned == x.returned && y.reader == x.reader
    ensures OnItsWay(y, r0, n0, limit)
  {}

  /** From a sound snapshot on, such a run is sound. */
  lemma {:induction false} PollIsSound(x: World, schedule: seq<Step>, y: World)
    requires Inv(x) && !x.reader.Snapping? && PollRuns(x, schedule, y)
    ensures Inv(y)
    decreases |schedule|
  {
    hide Inv, Do, Enabled, BmcStep;
    if schedule != [] {
      StepKeeps(x, schedule[0]);
      NeverSnaps(x, schedule[0]);
      PollIsSound(Do(x, schedule[0]), schedule[1..], y);
    }
  }

  lemma NeverSnaps(x: World, step: Step)
    requires Enabled(x, step) && x.reader != Idle && !x.reader.Snapping?
    ensures !Do(x, step).reader.Snapping?
  {
    hide Torn, Encode, EncodeHeader, XorAll, DecodeHeader;
  }

  lemma CongruentOnce(m: nat, r: nat, n: nat, p: nat)
    requires r < m && n < m && p < m && Congruent(m, r + n, p)
    ensures p == Advance(m, r, n)
  {
    CongruentTurns(m, r + n, p);
  }

  /** A poll that ends with published entries only has stopped where one of them ends. */
  lemma EndedAtBoundary(x: World, y: World, limit: nat)
    requires Inv(x) && !x.half && x.reader.Snapping? && limit < |x.q|
    requires OnItsWay(y, x.r, |x.returned|, limit) && y.reader == Idle
    requires |y.q| == |x.q| && y.appended == x.appended && x.returned <= y.returned <= y.appended
    ensures Boundary(x, limit)
  {
    hide EncodeAll, Size, Read, Congruent, Boundary, Advance, WriterFits, XorAll, EncodeHeader, Torn, Distance;
    var k := |y.returned|;
    var es := x.appended[|x.returned|..k];
    assert y.returned[|x.returned|..] == es;
    assert Rest(x) == es + x.appended[k..];
    SizeConcat(es, x.appended[k..]);
    assert EncodeAll(Rest(x))[0..] == EncodeAll(Rest(x));
    assert Size(Rest(x)) == Used(x);
    DistanceLess(|x.q|, x.r, x.w);
    CongruentOnce(|x.q|, x.r, Size(es), limit);
    EndIsBoundary(x, k);
  }

  /**
   Exactly when a poll is correct, whatever its snapshot was: while the BIOS publishes nothing, a poll
   that ends normally has returned published entries only if and only if some of them end where its
   snapshot says.
   */
  lemma SnapshotExactly(x: World, schedule: seq<Step>, y: World)
    requires Inv(x) && !x.half && x.reader.Snapping? && PollRuns(BmcStep(x), schedule, y) && y.reader == Idle
    ensures y.returned <= y.appended <==> Boundary(x, Torn(x.reader.first, x.w))
  {
    hide Inv, Torn, Boundary, PollRuns, Whole, OnItsWay;
    HoldsInside(x);
    var v, z := Torn(x.reader.first, x.w), BmcStep(x);
    if Boundary(x, v) {
      SnapshotKeeps(x);
      PollIsSound(z, schedule, y);
      ReturnedPrefix(y);
    }
    if y.returned <= y.appended {
      if v > |x.q| {
        FailedStays(z, schedule, y);
      } else {
        WayStarts(x);
        WayRuns(z, schedule, y, x.r, |x.returned|, v);
        EndInside(y, x.r, |x.returned|, v);
        EndedAtBoundary(x, y, v);
      }
    }
  }

  lemma EndInside(y: World, r0: nat, n0: nat, limit: nat)
    requires OnItsWay(y, r0, n0, limit) && y.reader == Idle
    ensures limit < |y.q|
  {}

  lemma {:induction false} FailedStays(x: World, schedule: seq<Step>, y: World)
    requires x.reader.Failed? && PollRuns(x, schedule, y)
    ensures y.reader.Failed?
    decreases |schedule|
  {
    hide Torn, Encode;
    if schedule != [] {
      FailedStays(Do(x, schedule[0]), schedule[1..], y);
    }
  }

  lemma WayStarts(x: World)
    requires Inv(x) && !x.half && x.reader.Snapping? && Torn(x.reader.first, x.w) <= |x.q|
    ensures
      var v := Torn(x.reader.first, x.w);
      OnItsWay(BmcStep(x), x.r, |x.returned|, v) && x.returned == BmcStep(x).returned
  {
    hide Torn, Whole, Read, EncodeAll, Distance;
    assert x.returned[|x.returned|..] == [];
    CongruentSelf(|x.q|, x.r);
  }

  // ----- runs in which it goes wrong -----

  function BmcOnly(n: nat): (schedule: seq<Step>) {
    seq(n, _ => Bmc)
  }

  lemma {:induction false} AloneRuns(x: World, n: nat)
    ensures Runs(x, BmcOnly(n), Alone(x, n))
    decreases n
  {
    hide BmcStep;
    if n > 0 {
      AloneRuns(BmcStep(x), n - 1);
      assert BmcOnly(n)[0] == Bmc && BmcOnly(n)[1..] == BmcOnly(n - 1);
    }
  }

  /** The reader alone reads the whole write pointer. */
  predicate ReadsWhole(x: World) {
    x.reader.Snapping? ==> x.reader.first == x.w
  }

  lemma {:induction false} AloneKeeps(x: World, n: nat)
    requires Inv(x) && ReadsWhole(x)
    ensures Inv(Alone(x, n))
    decreases n
  {
    hide Inv, BmcStep;
    if n > 0 {
      if x.reader.Snapping? {
        OneByteIsSound(x);
      }
      BmcKeeps(x);
      StillReadsWhole(x);
      AloneKeeps(BmcStep(x), n - 1);
    }
  }

  lemma StillReadsWhole(x: World)
    requires ReadsWhole(x)
    ensures ReadsWhole(BmcStep(x))
  {
    hide Torn, EncodeHeader, XorAll, DecodeHeader;
  }

  /** An entry of n bytes. */
  function Filler(n: nat): (e: Entry)
    requires ENTRY_HEADER_SIZE <= n < 0x1_0000
    ensures e.Sealed() && e.Size() == n
  {
    Seal(0, 0, Blank(n - ENTRY_HEADER_SIZE))
  }

  /** Four more steps: two that read the write pointer; then the six bytes of the header. */
  lemma HeaderAlone(x: World)
    requires Inv(x) && !x.half && x.reader == Idle && x.w != x.r
    requires |x.returned| < |x.appended|
    ensures
      var e, d := x.appended[|x.returned|], Distance(|x.q|, x.r, x.w);
      var y := Alone(x, 8);
      x.r < |x.q| && x.w < |x.q| &&
      y == x.(reader := Header(x.w, d, 0, EncodeHeader(e.header)), mark := y.mark)
  {
    hide Torn, EncodeAll, EncodeHeader, XorAll, Whole, Alone, BmcStep;
    HoldsInside(x);
    SnapshotAlone(x);
    var z := Snapshot(x, x.w);
    HeaderBytes(z, ENTRY_HEADER_SIZE);
    AloneAdd(x, 2, ENTRY_HEADER_SIZE);
    HeaderRead(x);
  }

  lemma HeaderRead(x: World)
    requires Inv(x) && Released(x) == 0 && |x.returned| < |x.appended|
    ensures ENTRY_HEADER_SIZE <= |x.q| && x.r < |x.q|
    ensures Read(x.q, x.r, ENTRY_HEADER_SIZE) == EncodeHeader(x.appended[|x.returned|].header)
  {
    hide Torn, EncodeAll, EncodeHeader, XorAll, Read;
    HoldsInside(x);
    var head := EncodeHeader(x.appended[|x.returned|].header);
    var s := Read(x.q, x.r, ENTRY_HEADER_SIZE);
    forall n | 0 <= n < ENTRY_HEADER_SIZE ensures s[n] == head[n] {
      NextByte(x, n);
      ReadAtIndex(x.q, x.r, ENTRY_HEADER_SIZE, n);
    }
    assert s == head;
  }

  /** Then the header is released, the body read, and the first byte of the pointer past it stored. */
  lemma BodyAlone(x: World, e: Entry) returns (n: nat)
    requires ENTRY_HEADER_SIZE <= |x.q| && x.r < |x.q| && !x.half && e.Sealed() && |e.body| < |x.q|
    requires x.reader.Header? && x.reader.got == EncodeHeader(e.header)
    ensures
      var p := Advance(|x.q|, x.r, ENTRY_HEADER_SIZE);
      var y := Alone(x, n);
      p < |x.q| && y.half && y.prev == p && y.r == Advance(|x.q|, p, |e.body|) && y.shown == Torn(y.r, p) &&
      y.w == x.w && y.q == x.q && y.gap == x.gap && y.writer == x.writer
  {
    hide Read, DecodeHeader, EncodeHeader, XorAll, Alone, Torn;
    HeaderRoundTrip(e.header);
    AloneZero(x);
    PublishAlone(x, 0, x, BmcStep(x));
    var z := Alone(x, 2);
    BodyBytes(z, |e.body|);
    AloneAdd(x, 2, |e.body|);
    AloneNext(x, 2 + |e.body|);
    n := 2 + |e.body| + 1;
  }

  lemma AloneZero(x: World)
    ensures Alone(x, 0) == x
  {}

  /** A half-stored read pointer lets the BIOS append where entries are still unread. */
  lemma TornStoreOverwrites(x: World) returns (schedule: seq<Step>, y: World, e: Entry)
    requires Initial(x) && |x.q| == 0x400 && x.r == 0x1f0 && x.gap <= 0x10
    ensures Runs(x, schedule, y) && Inv(y) && y.half && y.w == 0x1e0 && y.prev == 0x1f6 && y.r == 0x210
    ensures y.shown == 0x110 && Seen(y) == 0xd0 && Used(y) == 0x3d0
    ensures Enabled(y, BiosBegin(e)) && e.Size() <= |y.q|
    ensures Runs(y, Appends(e), Appended(y, e)) && !RingHolds(Appended(y, e))
  {
    hide Runs, Filler, Alone, Written, RingHolds, ReaderOnTrack, WriterFits, EncodeHeader, Entry.Sealed;
    var e1, e2 := Filler(0x20), Filler(0x3d0);
    InitialHolds(x);
    var a := Appended(x, e1);
    AppendKeeps(x, e1);
    AppendsRun(x, e1);
    var b := Appended(a, e2);
    AppendKeeps(a, e2);
    AppendsRun(a, e2);
    RunsConcat(x, Appends(e1), a, Appends(e2), b);
    assert b.appended == [e1, e2] && b.w == 0x1e0;
    HeaderAlone(b);
    var c := Alone(b, 8);
    var n := BodyAlone(c, e1);
    AloneAdd(b, 8, n);
    AloneKeeps(b, 8 + n);
    AloneRuns(b, 8 + n);
    y := Alone(b, 8 + n);
    schedule := Appends(e1) + Appends(e2) + BmcOnly(8 + n);
    RunsConcat(x, Appends(e1) + Appends(e2), b, BmcOnly(8 + n), y);
    e := Filler(0x106);
    AppendExactly(y, e);
  }

  /** An entry of six zero bytes. */
  const PHANTOM := Entry(QueueEntryHeader(0, 0, 0, 0), [])

  function Phantoms(n: nat): (es: seq<Entry>)
    ensures |es| == n
  {
    seq(n, _ => PHANTOM)
  }

  lemma PhantomBytes()
    ensures Encode(PHANTOM) == Blank(6) && PHANTOM.Sealed() && PHANTOM.Size() == 6
  {
    assert LeBytes(0, 1) == [0] + LeBytes(0, 0) == [0];
    assert LeBytes(0, 2) == [0] + LeBytes(0, 1) == [0, 0];
    assert Encode(PHANTOM) == Blank(6);
    ZeroSum(Blank(6));
  }

  lemma {:induction false} PhantomsBytes(n: nat)
    ensures EncodeAll(Phantoms(n)) == Blank(6 * n) && AllSealed(Phantoms(n))
  {
    hide Encode, Entry.Sealed;
    PhantomBytes();
    if n > 0 {
      PhantomsBytes(n - 1);
      assert Phantoms(n)[1..] == Phantoms(n - 1);
      assert Blank(6) + Blank(6 * (n - 1)) == Blank(6 * n);
    }
  }

  /** One byte more of a stretch stored at i. */
  lemma StretchStep(q: seq<byte>, i: nat, b: byte, rest: seq<byte>)
    requires i + 1 + |rest| <= |q|
    ensures
      var q' := q[i := b];
      q'[..i + 1] + rest + q'[i + 1 + |rest|..] == q[..i] + ([b] + rest) + q[i + 1 + |rest|..]
  {}

  /** What the BIOS stores of an entry that does not go around the ring. */
  lemma {:induction false} WrittenFlat(x: World, n: nat)
    requires x.writer.Writing? && x.w + x.writer.e.Size() <= |x.q| && x.w < |x.q|
    requires x.writer.written + n <= x.writer.e.Size()
    ensures
      var i := x.w + x.writer.written;
      Written(x, n).q ==
      x.q[..i] + Encode(x.writer.e)[x.writer.written..x.writer.written + n] + x.q[i + n..]
    decreases n
  {
    hide Encode, Written;
    WrittenStep(x, n);
    if n > 0 {
      var k, s := x.writer.written, Encode(x.writer.e);
      var z := Do(x, BiosWrite);
      assert z.q == x.q[x.w + k := s[k]];
      WrittenFlat(z, n - 1);
      assert s[k..k + n] == [s[k]] + s[k + 1..k + n];
      StretchStep(x.q, x.w + k, s[k], s[k + 1..k + n]);
    } else {
      assert Encode(x.writer.e)[x.writer.written..x.writer.written] == [];
    }
  }

  lemma AppendedFlat(x: World, e: Entry)
    requires x.w + e.Size() < |x.q|
    ensures Appended(x, e).q == x.q[..x.w] + Encode(e) + x.q[x.w + e.Size()..]
    ensures Appended(x, e).w == x.w + e.Size()
  {
    hide Encode, Written;
    WrittenFlat(x.(writer := Writing(e, 0)), e.Size());
    assert Encode(e)[0..e.Size()] == Encode(e);
  }

  /**
   A write pointer whose bytes both changed between their readings makes the reader return entries
   nobody published.
   */
  lemma TornSnapshotInvents(x: World) returns (schedule: seq<Step>, y: World)
    requires Initial(x) && x.q == Blank(0x400) && x.r == 0 && x.gap <= 0x100
    ensures Runs(x, schedule, y) && y.reader == Idle && !y.half && |y.appended| == 2
    ensures y.r == 0x1f8 && y.w == 0x108 && y.returned == y.appended + Phantoms(40)
  {
    hide Runs, Filler, Alone, Written, Encode, RingHolds, ReaderOnTrack, WriterFits, Entry.Sealed, Ring.Read;
    var e1, e2 := Filler(0xf8), Filler(0x10);
    var a := Appended(x, e1);
    AppendsRun(x, e1);
    AppendedFlat(x, e1);
    var b := Do(a, Bmc);
    RunsOne(a, Bmc);
    RunsConcat(x, Appends(e1), a, [Bmc], b);
    var c := Appended(b, e2);
    AppendsRun(b, e2);
    AppendedFlat(b, e2);
    RunsConcat(x, Appends(e1) + [Bmc], b, Appends(e2), c);
    var d := Do(c, Bmc);
    RunsOne(c, Bmc);
    schedule := Appends(e1) + [Bmc] + Appends(e2) + [Bmc];
    RunsConcat(x, Appends(e1) + [Bmc] + Appends(e2), c, [Bmc], d);
    assert d.reader == Header(0x1f8, 0x1f8, 0, []);
    var n := DrainAlone(d);
    TwoAndPhantoms(d.q, e1, e2);
    AloneRuns(d, n);
    y := Alone(d, n);
    RunsConcat(x, schedule, d, BmcOnly(n), y);
    schedule := schedule + BmcOnly(n);
  }

  /** Two entries and zeros behind them read as the two entries and phantoms. */
  lemma TwoAndPhantoms(q: seq<byte>, e1: Entry, e2: Entry)
    requires |q| == 0x400 && e1.Sealed() && e2.Sealed() && e1.Size() == 0xf8 && e2.Size() == 0x10
    requires q == Encode(e1) + Encode(e2) + Blank(0x2f8)
    ensures DrainWith(Reader(q), 0, 0x1f8) == Drained([e1, e2] + Phantoms(40), None, 0x1f8)
  {
    hide Encode, Entry.Sealed, EncodeAll, Size;
    var es := [e1, e2] + Phantoms(40);
    PhantomsBytes(40);
    EncodeAllConcat([e1, e2], Phantoms(40));
    EncodeAllConcat([e1], [e2]);
    EncodeOne(e1);
    EncodeOne(e2);
    assert [e1] + [e2] == [e1, e2];
    assert Read(q, 0, 0x1f8) == EncodeAll(es);
    assert Size(es) == 0x1f8;
    DrainSegment(q, 0, es);
  }
}
