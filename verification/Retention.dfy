/** Which log entries are kept as files (src/rde/external_storer_file.cpp:176-239). */
module Retention {
  import opened Wrappers

  type Path = string

  /** The first maxSaved log entries are kept for good; of the later ones at most maxOther at a time. */
  datatype Limits = Limits(maxSaved: nat, maxOther: nat) {
    predicate Valid() {
      maxOther >= 1
    }
  }

  /** What creating a file and announcing it comes to; an exception may come after the file was made. */
  datatype Creation = Created | Refused | Threw(written: bool)

  /** A log entry to store, under a path never used before, and what the file system answers. */
  datatype Event = Event(path: Path, removes: bool, creation: Creation)

  /**
   The two queues and the log files on disk; and for the record all paths stored so far, and the
   files no queue will remove: those whose removal failed or whose creation ended in an exception.
   */
  datatype Store = Store(saved: seq<Path>, queue: seq<Path>, files: set<Path>, created: seq<Path>, stuck: set<Path>)

  datatype Reply = Reply(store: Store, result: Result<bool>)

  /** A full window first loses its oldest path, whether or not its file can be removed. */
  function MakeRoom(l: Limits, s: Store, removes: bool): (r: Reply)
    requires l.Valid()
  {
    if |s.queue| != l.maxOther then Reply(s, Success(true))
    else
      var oldest, t := s.queue[0], s.(queue := s.queue[1..]);
      if removes then Reply(t.(files := s.files - {oldest}), Success(true))
      else Reply(t.(stuck := s.stuck + {oldest}), Success(false))
  }

  /** A file that was made but is in no queue. */
  function Strand(s: Store, p: Path): Store {
    s.(files := s.files + {p}, stuck := s.stuck + {p})
  }

  function Process(l: Limits, s: Store, e: Event): (r: Reply)
    requires l.Valid()
  {
    var room := MakeRoom(l, s, e.removes);
    if room.result != Success(true) then room
    else
      match e.creation
      case Refused => Reply(room.store, Success(false))
      case Threw(written) => Reply(if written then Strand(room.store, e.path) else room.store, Failure(StorerThrew))
      case Created =>
        var t := room.store.(files := room.store.files + {e.path}, created := s.created + [e.path]);
        Reply(
          if |s.saved| < l.maxSaved then t.(saved := s.saved + [e.path]) else t.(queue := t.queue + [e.path]),
          Success(true))
  }

  /** The window never holds more than it may. */
  lemma {:induction false} WindowBounded(l: Limits, es: seq<Event>)
    requires l.Valid()
    ensures |Run(l, EMPTY, es).queue| <= l.maxOther
  {
    if es != [] {
      WindowBounded(l, es[..|es| - 1]);
    }
  }

  /** The window after making room. */
  function Shifted(l: Limits, queue: seq<Path>): (q: seq<Path>)
    requires l.Valid()
  {
    if |queue| < l.maxOther || queue == [] then queue else queue[1..]
  }

  /**
   Exactly what storing one entry answers and does, in every state that a run reaches: an entry is
   stored if and only if there is room or the oldest file can be removed, and its own can be created.
   */
  lemma ProcessAnswers(l: Limits, es: seq<Event>, e: Event)
    requires l.Valid()
    ensures
      var s := Run(l, EMPTY, es);
      var r := Process(l, s, e);
      var t, room := r.store, |s.queue| < l.maxOther || e.removes;
      var dropped := if |s.queue| < l.maxOther then {} else {s.queue[0]};
      (r.result == Success(true) <==> room && e.creation == Created) &&
      (r.result == Success(false) <==> !room || e.creation == Refused) &&
      (r.result.Failure? <==> room && e.creation.Threw?) &&
      t.created == (if room && e.creation == Created then s.created + [e.path] else s.created) &&
      (!room ==> t.files == s.files && t.queue == s.queue[1..] && t.saved == s.saved) &&
      (room && e.creation != Created ==>
         t.queue == Shifted(l, s.queue) && t.saved == s.saved &&
         t.files == s.files - dropped + (if e.creation == Threw(true) then {e.path} else {})) &&
      (room && e.creation == Created ==>
         t.files == s.files - dropped + {e.path} &&
         if |s.saved| < l.maxSaved then t.saved == s.saved + [e.path] && t.queue == Shifted(l, s.queue)
         else t.saved == s.saved && t.queue == Shifted(l, s.queue) + [e.path])
  {
    WindowBounded(l, es);
  }

  function Run(l: Limits, s: Store, es: seq<Event>): (t: Store)
    requires l.Valid()
  {
    if es == [] then s else Process(l, Run(l, s, es[..|es| - 1]), es[|es| - 1]).store
  }

  const EMPTY := Store([], [], {}, [], {})

  predicate Distinct(ps: seq<Path>) {
    forall i, j :: 0 <= i < j < |ps| ==> ps[i] != ps[j]
  }

  function Elements(ps: seq<Path>): (s: set<Path>) {
    set p | p in ps
  }

  /** Every path is used for one log entry only. */
  ghost predicate FreshPaths(es: seq<Event>) {
    forall i, j :: 0 <= i < j < |es| ==> es[i].path != es[j].path
  }

  /** saved is the first created paths, queue the latest of the others. */
  ghost predicate InOrder(l: Limits, s: Store) {
    var n := |s.created|;
    s.saved == s.created[..if l.maxSaved < n then l.maxSaved else n] &&
    |s.queue| <= l.maxOther && |s.saved| + |s.queue| <= n &&
    s.queue == s.created[n - |s.queue|..] &&
    (s.queue != [] ==> |s.saved| == l.maxSaved) &&
    Distinct(s.created)
  }

  /** The log files are those of both queues and what is stuck. */
  ghost predicate OnDisk(s: Store) {
    s.files == Elements(s.saved) + Elements(s.queue) + s.stuck &&
    s.stuck !! Elements(s.saved) + Elements(s.queue)
  }

  ghost predicate Retains(l: Limits, s: Store) {
    InOrder(l, s) && OnDisk(s)
  }

  /** The window is as full as it can be. */
  ghost predicate WindowFull(l: Limits, s: Store) {
    var later := if |s.created| > l.maxSaved then |s.created| - l.maxSaved else 0;
    |s.queue| == (if later < l.maxOther then later else l.maxOther) && s.stuck == {}
  }

  lemma MakeRoomRetains(l: Limits, s: Store, removes: bool)
    requires l.Valid() && Retains(l, s)
    ensures Retains(l, MakeRoom(l, s, removes).store)
    ensures MakeRoom(l, s, removes).result == Success(true) ==> |MakeRoom(l, s, removes).store.queue| < l.maxOther
    ensures MakeRoom(l, s, removes).store.created == s.created
    ensures MakeRoom(l, s, removes).store.stuck <= s.stuck + Elements(s.created)
  {
    if |s.queue| == l.maxOther {
      DropOldest(l, s);
    }
  }

  lemma DropOldest(l: Limits, s: Store)
    requires Retains(l, s) && s.queue != []
    ensures
      var oldest, t := s.queue[0], s.(queue := s.queue[1..]);
      Retains(l, t.(files := s.files - {oldest})) && Retains(l, t.(stuck := s.stuck + {oldest}))
  {
    hide InOrder, OnDisk;
    OldestElsewhere(l, s);
    DropInOrder(l, s);
    DropOnDisk(s);
    var oldest, t := s.queue[0], s.(queue := s.queue[1..]);
    SameOrder(l, t, t.(files := s.files - {oldest}));
    SameOrder(l, t, t.(stuck := s.stuck + {oldest}));
  }

  lemma SameOrder(l: Limits, s: Store, t: Store)
    requires InOrder(l, s) && t.saved == s.saved && t.queue == s.queue && t.created == s.created
    ensures InOrder(l, t)
  {}

  lemma DropInOrder(l: Limits, s: Store)
    requires InOrder(l, s) && s.queue != []
    ensures InOrder(l, s.(queue := s.queue[1..]))
  {
    hide Distinct;
    var rest := s.queue[1..];
    assert rest == s.created[|s.created| - |rest|..];
  }

  lemma DropOnDisk(s: Store)
    requires OnDisk(s) && s.queue != []
    requires s.queue[0] in s.created && s.queue[0] !in s.saved && s.queue[0] !in s.queue[1..]
    ensures
      var oldest, t := s.queue[0], s.(queue := s.queue[1..]);
      OnDisk(t.(files := s.files - {oldest})) && OnDisk(t.(stuck := s.stuck + {oldest}))
  {
    var oldest, rest := s.queue[0], s.queue[1..];
    ElementsHead(s.queue);
    assert oldest in Elements(s.created) && oldest !in Elements(s.saved) && oldest !in Elements(rest);
    MoveElement(s.files, Elements(s.saved), Elements(rest), s.stuck, oldest);
  }

  lemma ElementsHead(ps: seq<Path>)
    requires ps != []
    ensures Elements(ps) == {ps[0]} + Elements(ps[1..])
  {}

  lemma MoveElement(files: set<Path>, a: set<Path>, b: set<Path>, c: set<Path>, p: Path)
    requires files == a + ({p} + b) + c && p !in a && p !in b && c !! a + ({p} + b)
    ensures files - {p} == a + b + c && files == a + b + (c + {p})
    ensures c !! a + b && (c + {p}) !! a + b
  {}

  lemma OldestElsewhere(l: Limits, s: Store)
    requires Retains(l, s) && s.queue != []
    ensures s.queue[0] in s.created && s.queue[0] !in s.saved && s.queue[0] !in s.queue[1..]
  {
    assert s.queue[0] == s.created[|s.created| - |s.queue|];
  }

  lemma ElementsSnoc(ps: seq<Path>, p: Path)
    ensures Elements(ps + [p]) == Elements(ps) + {p}
  {}

  lemma ProcessRetains(l: Limits, s: Store, e: Event)
    requires l.Valid() && Retains(l, s) && e.path !in s.created && e.path !in s.stuck
    ensures Retains(l, Process(l, s, e).store)
    ensures Elements(Process(l, s, e).store.created) <= Elements(s.created) + {e.path}
    ensures Process(l, s, e).store.stuck <= s.stuck + Elements(s.created) + {e.path}
  {
    hide Retains;
    MakeRoomRetains(l, s, e.removes);
    var t := MakeRoom(l, s, e.removes).store;
    if Process(l, s, e).result == Success(true) {
      if |s.saved| < l.maxSaved {
        PinRetains(l, t, e.path);
      } else {
        AppendRetains(l, t, e.path);
      }
    } else if Process(l, s, e).store != t {
      StrandRetains(l, t, e.path);
    }
  }

  lemma StrandRetains(l: Limits, t: Store, p: Path)
    requires Retains(l, t) && p !in t.created
    ensures Retains(l, Strand(t, p))
  {
    hide Distinct;
    assert p !in t.saved && p !in t.queue;
  }

  lemma DistinctSnoc(ps: seq<Path>, p: Path)
    requires Distinct(ps) && p !in ps
    ensures Distinct(ps + [p])
  {}

  lemma PinRetains(l: Limits, t: Store, p: Path)
    requires Retains(l, t) && |t.saved| < l.maxSaved && p !in t.created && p !in t.stuck
    ensures Retains(l, t.(files := t.files + {p}, created := t.created + [p], saved := t.saved + [p]))
  {
    DistinctSnoc(t.created, p);
    ElementsSnoc(t.saved, p);
    ElementsSnoc(t.created, p);
    assert t.saved == t.created[..|t.created|] == t.created && t.queue == [];
    assert t.saved + [p] == (t.created + [p])[..|t.created| + 1];
  }

  lemma AppendRetains(l: Limits, t: Store, p: Path)
    requires Retains(l, t) && |t.queue| < l.maxOther && |t.saved| >= l.maxSaved
    requires p !in t.created && p !in t.stuck
    ensures Retains(l, t.(files := t.files + {p}, created := t.created + [p], queue := t.queue + [p]))
  {
    hide InOrder, OnDisk;
    var u := t.(files := t.files + {p}, created := t.created + [p], queue := t.queue + [p]);
    AppendInOrder(l, t, u, p);
    AppendOnDisk(t, u, p);
  }

  lemma AppendInOrder(l: Limits, t: Store, u: Store, p: Path)
    requires InOrder(l, t) && |t.queue| < l.maxOther && |t.saved| >= l.maxSaved && p !in t.created
    requires u.saved == t.saved && u.created == t.created + [p] && u.queue == t.queue + [p]
    ensures InOrder(l, u)
  {
    hide Distinct;
    DistinctSnoc(t.created, p);
    var n := |t.created|;
    assert u.created[n - |t.queue|..] == t.created[n - |t.queue|..] + [p];
    assert u.created[..l.maxSaved] == t.created[..l.maxSaved];
  }

  lemma AppendOnDisk(t: Store, u: Store, p: Path)
    requires OnDisk(t) && p !in t.stuck
    requires u.saved == t.saved && u.queue == t.queue + [p] && u.files == t.files + {p} && u.stuck == t.stuck
    ensures OnDisk(u)
  {
    ElementsSnoc(t.queue, p);
  }

  function Paths(es: seq<Event>): (s: set<Path>) {
    set e | e in es :: e.path
  }

  lemma NothingRetained(l: Limits)
    ensures Retains(l, EMPTY)
  {}

  lemma {:induction false} RunHistory(l: Limits, es: seq<Event>)
    requires l.Valid() && FreshPaths(es)
    ensures
      var s := Run(l, EMPTY, es);
      Retains(l, s) && Elements(s.created) <= Paths(es) && s.stuck <= Paths(es)
  {
    hide Retains, Process;
    if es == [] {
      NothingRetained(l);
    } else {
      var front, e := es[..|es| - 1], es[|es| - 1];
      RunHistory(l, front);
      assert es == front + [e];
      assert e.path !in Paths(front) && Paths(es) == Paths(front) + {e.path};
      var s := Run(l, EMPTY, front);
      assert e.path !in Elements(s.created);
      ProcessRetains(l, s, e);
    }
  }

  /** Over every run: the pinned prefix, the window and the disk agree with what was created. */
  lemma EveryRunRetains(l: Limits, es: seq<Event>)
    requires l.Valid() && FreshPaths(es)
    ensures Retains(l, Run(l, EMPTY, es))
  {
    RunHistory(l, es);
  }

  lemma PrefixFresh(es: seq<Event>)
    requires es != [] && FreshPaths(es)
    ensures FreshPaths(es[..|es| - 1])
  {}

  lemma RetainsSizes(l: Limits, es: seq<Event>)
    requires l.Valid() && FreshPaths(es)
    ensures
      var s := Run(l, EMPTY, es);
      |s.saved| == (if l.maxSaved < |s.created| then l.maxSaved else |s.created|) && |s.queue| <= l.maxOther &&
      s.files == Elements(s.saved) + Elements(s.queue) + s.stuck
  {
    hide Run;
    EveryRunRetains(l, es);
  }

  /** Without failures the window holds exactly the latest paths, as many as fit, and nothing is stuck. */
  lemma {:induction false} FailureFreeRunsFillWindow(l: Limits, es: seq<Event>)
    requires l.Valid() && FreshPaths(es) && forall e <- es :: e.removes && e.creation.Created?
    ensures
      var s := Run(l, EMPTY, es);
      WindowFull(l, s) && |s.created| == |es| && s.files == Elements(s.saved) + Elements(s.queue)
  {
    hide Retains, FreshPaths;
    RetainsSizes(l, es);
    if es != [] {
      var n := |es| - 1;
      assert FreshPaths(es[..n]) by {
        PrefixFresh(es);
      }
      FailureFreeRunsFillWindow(l, es[..n]);
      RetainsSizes(l, es[..n]);
    }
  }

  /** The retention part of ExternalStorerFileInterface; files is the set of log files on disk. */
  class LogStorer {
    const limits: Limits
    var logServiceId: string
    var logEntrySavedQueue: seq<Path>
    var logEntryQueue: seq<Path>
    ghost var files: set<Path>
    ghost var created: seq<Path>
    ghost var stuck: set<Path>

    ghost function State(): Store
      reads this
    {
      Store(logEntrySavedQueue, logEntryQueue, files, created, stuck)
    }

    constructor (limits: Limits)
      ensures this.limits == limits && State() == EMPTY && logServiceId == ""
      ensures logEntrySavedQueue == [] && logEntryQueue == []
    {
      this.limits := limits;
      logServiceId, logEntrySavedQueue, logEntryQueue := "", [], [];
      files, created, stuck := {}, [], {};
    }

    /**
     processLogEntry; id is the generated UUID, removes and creation are the answers of the file
     handler and the notifier.
     */
    method ProcessLogEntry(id: string, removes: bool, creation: Creation) returns (r: Result<bool>)
      requires limits.Valid()
      modifies this
      ensures logServiceId == old(logServiceId)
      ensures
        if logServiceId == "" then r == Success(false) && State() == old(State())
        else Process(limits, old(State()), Event(SubPath(logServiceId, id), removes, creation)) == Reply(State(), r)
    {
      if logServiceId == "" {
        return Success(false);
      }
      if |logEntryQueue| == limits.maxOther {
        var oldestFilePath := logEntryQueue[0];
        logEntryQueue := logEntryQueue[1..];
        if !removes {
          stuck := stuck + {oldestFilePath};
          return Success(false);
        }
        files := files - {oldestFilePath};
      }
      var subPath := SubPath(logServiceId, id);
      if creation.Refused? {
        return Success(false);
      }
      if creation.Threw? {
        if creation.written {
          files, stuck := files + {subPath}, stuck + {subPath};
        }
        return Failure(StorerThrew);
      }
      files, created := files + {subPath}, created + [subPath];
      if |logEntrySavedQueue| < limits.maxSaved {
        logEntrySavedQueue := logEntrySavedQueue + [subPath];
      } else {
        logEntryQueue := logEntryQueue + [subPath];
      }
      return Success(true);
    }
  }

  function SubPath(logServiceId: string, id: string): (p: Path) {
    "/redfish/v1/Systems/system/LogServices/" + logServiceId + "/Entries/" + id
  }

  lemma SubPathExample()
    ensures SubPath("abc", "0-1") == "/redfish/v1/Systems/system/LogServices/abc/Entries/0-1"
  {}

  /** Identifiers of one length that differ give different paths, under the same or another service. */
  lemma SubPathsDiffer(s: string, t: string, id: string, id': string)
    requires |id| == |id'| && id != id'
    ensures SubPath(s, id) != SubPath(t, id')
  {
    var p, q := SubPath(s, id), SubPath(t, id');
    assert p[|p| - |id|..] == id && q[|q| - |id|..] == id';
  }
}
