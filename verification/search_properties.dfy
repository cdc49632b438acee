/**
 Properties of one polling pass and of the session setters, stated against
 an independent description of what a pass should report: the difference
 between the files retained before the pass and the files the walk saw.
 */
module SearchProperties {
  import opened Wrappers
  import opened PyDict
  import opened Search

  /**
   `e` is an event the pass owes the user, given the retained files
   `before`, the files the walk saw `after`, the session flags, and the
   wall-clock reading `now`.
   */
  ghost predicate Reported(e: Event, before: map<Path, Stamp>, after: map<Path, Stamp>,
                           initSearch: bool, initLog: bool, now: Stamp)
  {
    match e.kind
    case Baseline =>
      initSearch && initLog && e.path !in before && e.path in after && e.stamp == after[e.path]
    case Created =>
      !initSearch && e.path !in before && e.path in after && e.stamp == after[e.path]
    case Changed =>
      e.path in before && e.path in after && before[e.path] != after[e.path] && e.stamp == after[e.path]
    case Deleted =>
      e.path in before && e.path !in after && e.stamp == now
  }

  /** No two events of `events` are about the same file. */
  ghost predicate OnePerPath(events: seq<Event>) {
    forall i, j :: 0 <= i < j < |events| ==> events[i].path != events[j].path
  }

  /** The snapshot of a real walk names each file once. */
  ghost predicate WellFormed(snap: Snapshot) {
    Distinct(Keys(snap))
  }

  /** A snapshot is well-formed exactly when, read as a dict, it is valid. */
  lemma WellFormedValid(snap: Snapshot)
    ensures WellFormed(snap) <==> Valid(snap)
  {
    if WellFormed(snap) {
      DistinctValid(snap);
    }
    if Valid(snap) {
      ValidDistinct(snap);
    }
  }

  lemma WellFormedTail(snap: Snapshot)
    requires snap != [] && WellFormed(snap)
    ensures WellFormed(snap[1..])
    ensures snap[0].0 !in Found(snap[1..])
  {
    assert snap == [snap[0]] + snap[1..];
    KeysCons(snap[0], snap[1..]);
    KeysMember(snap[1..], snap[0].0);
    forall i, j | 0 <= i < j < |snap| - 1 ensures Keys(snap[1..])[i] != Keys(snap[1..])[j] {
      assert Keys(snap[1..])[i] == Keys(snap)[i + 1] && Keys(snap[1..])[j] == Keys(snap)[j + 1];
    }
  }

  /** The loop body reports, for its one file, exactly the event owed. */
  lemma StepReports(entry: Entry, data: Dict<Path, Stamp>, after: map<Path, Stamp>,
                    initSearch: bool, initLog: bool, now: Stamp)
    requires Valid(data) && entry.0 in after && after[entry.0] == entry.1
    ensures forall e :: e in Step(entry, data, initSearch, initLog).0 <==>
      e.path == entry.0 && e.kind != Deleted && Reported(e, ToMap(data), after, initSearch, initLog, now)
  {
  }

  /** Whether an event is owed for a file depends only on that file's entries. */
  lemma ReportedLocal(e: Event, before: map<Path, Stamp>, before': map<Path, Stamp>,
                      after: map<Path, Stamp>, after': map<Path, Stamp>,
                      initSearch: bool, initLog: bool, now: Stamp)
    requires (e.path in before <==> e.path in before') && (e.path in after <==> e.path in after')
    requires e.path in before ==> before[e.path] == before'[e.path]
    requires e.path in after ==> after[e.path] == after'[e.path]
    ensures Reported(e, before, after, initSearch, initLog, now) <==>
            Reported(e, before', after', initSearch, initLog, now)
  {
  }

  /**
   The walk loop reports, for the files of a well-formed snapshot, exactly
   the baseline, created and changed events owed.
   */
  lemma {:induction false} ScanReports(snap: Snapshot, data: Dict<Path, Stamp>,
                                       initSearch: bool, initLog: bool, now: Stamp)
    requires Valid(data) && WellFormed(snap)
    ensures forall e :: e in Scan(snap, data, initSearch, initLog).0 <==>
      e.kind != Deleted && Reported(e, ToMap(data), SnapMap(snap), initSearch, initLog, now)
  {
    if snap != [] {
      var (p, t) := snap[0];
      var (events, data') := Step(snap[0], data, initSearch, initLog);
      var rest := snap[1..];
      var (more, data'') := Scan(rest, data', initSearch, initLog);
      WellFormedTail(snap);
      ScanReports(rest, data', initSearch, initLog, now);
      assert Scan(snap, data, initSearch, initLog).0 == events + more;
      var before := ToMap(data);
      var after := SnapMap(snap);
      assert after == map[p := t] + SnapMap(rest);
      StepReports(snap[0], data, after, initSearch, initLog, now);
      forall e ensures e in events + more <==>
        e.kind != Deleted && Reported(e, before, after, initSearch, initLog, now)
      {
        if e.path == p {
          assert e !in more;
        } else {
          assert e !in events;
          ReportedLocal(e, before, ToMap(data'), after, SnapMap(rest), initSearch, initLog, now);
        }
      }
    }
  }

  /** The walk loop reports each file of a well-formed snapshot at most once. */
  lemma {:induction false} ScanOnePerPath(snap: Snapshot, data: Dict<Path, Stamp>,
                                          initSearch: bool, initLog: bool)
    requires Valid(data) && WellFormed(snap)
    ensures OnePerPath(Scan(snap, data, initSearch, initLog).0)
  {
    if snap != [] {
      var step := Step(snap[0], data, initSearch, initLog);
      var more := Scan(snap[1..], step.1, initSearch, initLog).0;
      WellFormedTail(snap);
      ScanOnePerPath(snap[1..], step.1, initSearch, initLog);
      ScanCons(snap, data, initSearch, initLog);
      StepOnePerPath(snap[0], data, initSearch, initLog);
      ConcatOnePerPath(step.0, more);
    }
  }

  /** The loop body reports its file at most once. */
  lemma StepOnePerPath(entry: Entry, data: Dict<Path, Stamp>, initSearch: bool, initLog: bool)
    requires Valid(data)
    ensures OnePerPath(Step(entry, data, initSearch, initLog).0)
  {
  }

  lemma {:induction false} VanishedDistinct(keys: seq<Path>, found: set<Path>)
    requires Distinct(keys)
    ensures Distinct(Vanished(keys, found))
  {
    if keys != [] {
      var rest := keys[1..];
      assert Distinct(rest) by {
        forall i, j | 0 <= i < j < |rest| ensures rest[i] != rest[j] {
          assert rest[i] == keys[i + 1] && rest[j] == keys[j + 1];
        }
      }
      VanishedDistinct(rest, found);
      if keys[0] !in found {
        var v := [keys[0]] + Vanished(rest, found);
        assert keys[0] !in rest;
        forall i, j | 0 <= i < j < |v| ensures v[i] != v[j] {
          assert v[j] == Vanished(rest, found)[j - 1];
          assert v[j] in Vanished(rest, found);
          if i > 0 {
            assert v[i] == Vanished(rest, found)[i - 1];
          }
        }
      }
    }
  }

  /**
   A pass reports the walk loop's events followed by one deleted event per
   retained file the walk did not find, in the retained dict's order.
   */
  lemma PassSplit(s: State, snap: Snapshot, now: Stamp)
    requires Valid(s.fileData)
    ensures Pass(s, snap, now).0 ==
      Scan(snap, s.fileData, s.initSearch, s.initLog).0 + Tombstones(Vanished(Keys(s.fileData), Found(snap)), now)
  {
    var scan := Scan(snap, s.fileData, s.initSearch, s.initLog);
    var found := Found(snap);
    var data := scan.1;
    SweptOrder(s.fileData, snap, Keys(data));
    ValidDistinct(data);
    KeySetHas(data);
    var sweep := Sweep(Keys(data), found, data, now);
    assert sweep.0 == Tombstones(Vanished(Keys(s.fileData), found), now);
    assert Pass(s, snap, now).0 == scan.0 + sweep.0;
  }

  /**
   Over a well-formed snapshot a pass reports exactly the events owed:
   baseline, created or changed for the files the walk saw, deleted for the
   retained files it did not see, and nothing else.
   */
  lemma PassReports(s: State, snap: Snapshot, now: Stamp)
    requires Valid(s.fileData) && WellFormed(snap)
    ensures forall e :: e in Pass(s, snap, now).0 <==>
      Reported(e, ToMap(s.fileData), SnapMap(snap), s.initSearch, s.initLog, now)
  {
    PassSplit(s, snap, now);
    ScanReports(snap, s.fileData, s.initSearch, s.initLog, now);
    TombstonesReport(s.fileData, snap, s.initSearch, s.initLog, now);
  }

  /** The deletion loop reports exactly the deleted events owed. */
  lemma TombstonesReport(data: Dict<Path, Stamp>, snap: Snapshot, initSearch: bool, initLog: bool, now: Stamp)
    ensures forall e :: e in Tombstones(Vanished(Keys(data), Found(snap)), now) <==>
      e.kind == Deleted && Reported(e, ToMap(data), SnapMap(snap), initSearch, initLog, now)
  {
    var gone := Vanished(Keys(data), Found(snap));
    var tombs := Tombstones(gone, now);
    forall e ensures e in tombs <==>
      e.kind == Deleted && Reported(e, ToMap(data), SnapMap(snap), initSearch, initLog, now)
    {
      KeysMember(data, e.path);
      if e in tombs {
        var i :| 0 <= i < |tombs| && tombs[i] == e;
        assert gone[i] in gone;
      }
      if e.kind == Deleted && Reported(e, ToMap(data), SnapMap(snap), initSearch, initLog, now) {
        assert e.path in gone;
        var i :| 0 <= i < |gone| && gone[i] == e.path;
        assert tombs[i] == e;
      }
    }
  }

  lemma ConcatOnePerPath(a: seq<Event>, b: seq<Event>)
    requires OnePerPath(a) && OnePerPath(b)
    requires forall e, e' :: e in a && e' in b ==> e.path != e'.path
    ensures OnePerPath(a + b)
  {
    var all := a + b;
    forall i, j | 0 <= i < j < |all| ensures all[i].path != all[j].path {
      if j < |a| {
        assert all[i] == a[i] && all[j] == a[j];
      } else if i < |a| {
        assert all[i] in a && all[j] in b;
      } else {
        assert all[i] == b[i - |a|] && all[j] == b[j - |a|];
      }
    }
  }

  lemma TombstonesOnePerPath(gone: seq<Path>, now: Stamp)
    requires Distinct(gone)
    ensures OnePerPath(Tombstones(gone, now))
    ensures forall e :: e in Tombstones(gone, now) ==> e.path in gone
  {
    var tombs := Tombstones(gone, now);
    forall e | e in tombs ensures e.path in gone {
      var i :| 0 <= i < |tombs| && tombs[i] == e;
      assert gone[i] in gone;
    }
  }

  /** Over a well-formed snapshot a pass reports each file at most once. */
  lemma PassOnePerPath(s: State, snap: Snapshot, now: Stamp)
    requires Valid(s.fileData) && WellFormed(snap)
    ensures OnePerPath(Pass(s, snap, now).0)
  {
    PassSplit(s, snap, now);
    ScanOnePerPath(snap, s.fileData, s.initSearch, s.initLog);
    var scanned := Scan(snap, s.fileData, s.initSearch, s.initLog).0;
    var gone := Vanished(Keys(s.fileData), Found(snap));
    ValidDistinct(s.fileData);
    VanishedDistinct(Keys(s.fileData), Found(snap));
    TombstonesOnePerPath(gone, now);
    ConcatOnePerPath(scanned, Tombstones(gone, now));
  }

  /**
   `events` ends with one deleted event per path of `gone`, in that order,
   stamped `now`, and has no deleted event before them.
   */
  ghost predicate EndsWithDeletions(events: seq<Event>, gone: seq<Path>, now: Stamp) {
    && |gone| <= |events|
    && (forall i :: 0 <= i < |events| - |gone| ==> events[i].kind != Deleted)
    && (forall i :: 0 <= i < |gone| ==> events[|events| - |gone| + i] == Event(gone[i], now, Deleted))
  }

  lemma ConcatDeletionsLast(a: seq<Event>, gone: seq<Path>, now: Stamp)
    requires forall e :: e in a ==> e.kind != Deleted
    ensures EndsWithDeletions(a + Tombstones(gone, now), gone, now)
  {
    var all := a + Tombstones(gone, now);
    forall i | 0 <= i < |a| ensures all[i].kind != Deleted {
      assert all[i] == a[i];
      assert a[i] in a;
    }
    forall i | 0 <= i < |gone| ensures all[|a| + i] == Event(gone[i], now, Deleted) {
      assert all[|a| + i] == Tombstones(gone, now)[i];
    }
  }

  /**
   A pass ends with the deleted events, one per retained file the walk did
   not find, in the order the retained dict holds them, all stamped with the
   same reading `now`; no deleted event comes before the others.
   */
  lemma PassDeletionOrder(s: State, snap: Snapshot, now: Stamp)
    requires Valid(s.fileData)
    ensures EndsWithDeletions(Pass(s, snap, now).0, Vanished(Keys(s.fileData), Found(snap)), now)
  {
    PassSplit(s, snap, now);
    ConcatDeletionsLast(Scan(snap, s.fileData, s.initSearch, s.initLog).0,
                        Vanished(Keys(s.fileData), Found(snap)), now);
  }

  /** The events of `events` about file `p`, in order. */
  function EventsFor(events: seq<Event>, p: Path): (r: seq<Event>)
    ensures forall e :: e in r <==> e in events && e.path == p
    ensures (forall e :: e in events ==> e.path != p) ==> r == []
  {
    if events == [] then []
    else if events[0].path == p then [events[0]] + EventsFor(events[1..], p)
    else EventsFor(events[1..], p)
  }

  /** In a sequence with one event per file, the event about a file is alone. */
  lemma {:induction false} EventsForSingle(events: seq<Event>, e: Event)
    requires OnePerPath(events) && e in events
    ensures EventsFor(events, e.path) == [e]
  {
    var rest := events[1..];
    assert OnePerPath(rest) by {
      forall i, j | 0 <= i < j < |rest| ensures rest[i].path != rest[j].path {
        assert rest[i] == events[i + 1] && rest[j] == events[j + 1];
      }
    }
    if events[0] == e {
      forall e' | e' in rest ensures e'.path != e.path {
        var j :| 0 <= j < |rest| && rest[j] == e';
        assert events[j + 1] == e';
      }
    } else {
      assert e in rest;
      EventsForSingle(rest, e);
    }
  }

  /**
   The event, if any, that a pass owes about file `p`: the case table of
   `Reported` read file by file.
   */
  ghost function Owed(p: Path, before: map<Path, Stamp>, after: map<Path, Stamp>,
                      initSearch: bool, initLog: bool, now: Stamp): seq<Event>
  {
    if p in after && p !in before then
      if initSearch && initLog then [Event(p, after[p], Baseline)]
      else if !initSearch then [Event(p, after[p], Created)]
      else []
    else if p in after && before[p] != after[p] then [Event(p, after[p], Changed)]
    else if p in after then []
    else if p in before then [Event(p, now, Deleted)]
    else []
  }

  /**
   What a pass reports about one file, case by case: a file new to the
   session gets one baseline event on the first pass when initial logging is
   on, none when it is off, and one created event on every later pass; a
   known file gets one changed event when its timestamp differs and none
   when it is the same; a retained file the walk did not find gets one
   deleted event stamped `now`; any other file gets none.
   */
  lemma PassPerFile(s: State, snap: Snapshot, now: Stamp, p: Path)
    requires Valid(s.fileData) && WellFormed(snap)
    ensures EventsFor(Pass(s, snap, now).0, p) ==
            Owed(p, ToMap(s.fileData), SnapMap(snap), s.initSearch, s.initLog, now)
  {
    PassReports(s, snap, now);
    PassOnePerPath(s, snap, now);
    OwedEvents(Pass(s, snap, now).0, p, ToMap(s.fileData), SnapMap(snap), s.initSearch, s.initLog, now);
  }

  /** A list holding each owed event once has the owed events for each file. */
  lemma OwedEvents(all: seq<Event>, p: Path, before: map<Path, Stamp>, after: map<Path, Stamp>,
                   initSearch: bool, initLog: bool, now: Stamp)
    requires forall e :: e in all <==> Reported(e, before, after, initSearch, initLog, now)
    requires OnePerPath(all)
    ensures EventsFor(all, p) == Owed(p, before, after, initSearch, initLog, now)
  {
    var owed := Owed(p, before, after, initSearch, initLog, now);
    if owed == [] {
      forall e | e in all ensures e.path != p {
        assert Reported(e, before, after, initSearch, initLog, now);
      }
    } else {
      assert owed[0] in all;
      EventsForSingle(all, owed[0]);
    }
  }

  /** In a well-formed snapshot each file's timestamp is the one the walk read. */
  lemma {:induction false} SnapMapAt(snap: Snapshot)
    requires WellFormed(snap)
    ensures forall i :: 0 <= i < |snap| ==> snap[i].0 in SnapMap(snap) && SnapMap(snap)[snap[i].0] == snap[i].1
  {
    KeySetHas(snap);
    if snap != [] {
      WellFormedTail(snap);
      SnapMapAt(snap[1..]);
      assert SnapMap(snap) == map[snap[0].0 := snap[0].1] + SnapMap(snap[1..]);
      forall i | 0 < i < |snap| ensures SnapMap(snap)[snap[i].0] == snap[i].1 {
        assert snap[i] == snap[1..][i - 1];
        assert Keys(snap[1..])[i - 1] == snap[i].0;
        KeysMember(snap[1..], snap[i].0);
        assert Keys(snap)[0] != Keys(snap)[i];
      }
    }
  }

  /**
   After a pass over a well-formed snapshot, `file_data` holds exactly the
   files of the snapshot, each with the timestamp the walk read, whatever
   the session flags were.
   */
  lemma PassStoresSnapshot(s: State, snap: Snapshot, now: Stamp)
    requires Valid(s.fileData) && WellFormed(snap)
    ensures ToMap(Pass(s, snap, now).1.fileData).Keys == Found(snap)
    ensures forall i :: 0 <= i < |snap| ==>
      snap[i].0 in ToMap(Pass(s, snap, now).1.fileData) && ToMap(Pass(s, snap, now).1.fileData)[snap[i].0] == snap[i].1
  {
    SnapMapAt(snap);
    var retained := ToMap(Pass(s, snap, now).1.fileData);
    assert retained == SnapMap(snap);
  }

  /** The walk loop changes nothing when every file is retained with its timestamp. */
  lemma {:induction false} ScanQuiet(snap: Snapshot, data: Dict<Path, Stamp>, initSearch: bool, initLog: bool)
    requires Valid(data)
    requires forall i :: 0 <= i < |snap| ==> snap[i].0 in ToMap(data) && ToMap(data)[snap[i].0] == snap[i].1
    ensures Scan(snap, data, initSearch, initLog) == ([], data)
  {
    if snap != [] {
      assert forall i :: 0 <= i < |snap| - 1 ==> snap[1..][i] == snap[i + 1];
      ScanQuiet(snap[1..], data, initSearch, initLog);
      assert Step(snap[0], data, initSearch, initLog) == ([], data);
      assert Scan(snap[1..], data, initSearch, initLog) == ([], data);
      assert Scan(snap, data, initSearch, initLog).1 == data;
      assert Scan(snap, data, initSearch, initLog).0 == [];
    }
  }

  /**
   A pass over a snapshot that matches `file_data` exactly reports nothing
   and leaves `file_data` as it is, order included.
   */
  lemma QuietPass(s: State, snap: Snapshot, now: Stamp)
    requires Valid(s.fileData) && WellFormed(snap)
    requires ToMap(s.fileData) == SnapMap(snap)
    ensures Pass(s, snap, now) == ([], s.(initSearch := false))
  {
    SnapMapAt(snap);
    ScanQuiet(snap, s.fileData, s.initSearch, s.initLog);
    var keys := Keys(s.fileData);
    forall i | 0 <= i < |keys| ensures keys[i] in Found(snap) {
      KeysMember(s.fileData, keys[i]);
    }
    VanishedAllFound(keys, Found(snap));
    ValidDistinct(s.fileData);
    KeySetHas(s.fileData);
    var sweep := Sweep(keys, Found(snap), s.fileData, now);
    assert sweep == ([], s.fileData);
    assert Scan(snap, s.fileData, s.initSearch, s.initLog) == ([], s.fileData);
    assert Pass(s, snap, now).0 == [];
    assert Pass(s, snap, now).1 == s.(initSearch := false);
  }

  /**
   Idempotence: a second pass over the same well-formed snapshot reports
   nothing and changes nothing, whatever the first pass did.
   */
  lemma SecondPassQuiet(s: State, snap: Snapshot, now: Stamp, later: Stamp)
    requires Valid(s.fileData) && WellFormed(snap)
    ensures var s' := Pass(s, snap, now).1;
            Pass(s', snap, later) == ([], s')
  {
    var s' := Pass(s, snap, now).1;
    QuietPass(s', snap, later);
  }

  /** One baseline event per file of `snap`, in walk order. */
  function Baselines(snap: Snapshot): (events: seq<Event>)
    ensures |events| == |snap|
    ensures forall i :: 0 <= i < |snap| ==> events[i] == Event(snap[i].0, snap[i].1, Baseline)
  {
    seq(|snap|, i requires 0 <= i < |snap| => Event(snap[i].0, snap[i].1, Baseline))
  }

  lemma {:induction false} ScanFirst(snap: Snapshot, data: Dict<Path, Stamp>, initLog: bool)
    requires Valid(data) && WellFormed(snap)
    requires forall i :: 0 <= i < |snap| ==> snap[i].0 !in ToMap(data)
    ensures Scan(snap, data, true, initLog).0 == if initLog then Baselines(snap) else []
  {
    if snap != [] {
      var step := Step(snap[0], data, true, initLog);
      var rest := snap[1..];
      FirstStep(snap, data, initLog);
      WellFormedTail(snap);
      ScanFirst(rest, step.1, initLog);
      ScanCons(snap, data, true, initLog);
      if initLog {
        BaselinesCons(snap);
      }
    }
  }

  lemma BaselinesCons(snap: Snapshot)
    requires snap != []
    ensures Baselines(snap) == [Event(snap[0].0, snap[0].1, Baseline)] + Baselines(snap[1..])
  {
  }

  /** On a first pass, a file not yet retained gets a baseline event or none. */
  lemma FirstStep(snap: Snapshot, data: Dict<Path, Stamp>, initLog: bool)
    requires snap != [] && Valid(data) && WellFormed(snap)
    requires forall i :: 0 <= i < |snap| ==> snap[i].0 !in ToMap(data)
    ensures Step(snap[0], data, true, initLog).0 ==
            if initLog then [Event(snap[0].0, snap[0].1, Baseline)] else []
    ensures forall i :: 0 <= i < |snap[1..]| ==> snap[1..][i].0 !in ToMap(Step(snap[0], data, true, initLog).1)
  {
    assert snap[0].0 !in ToMap(data);
    forall i | 0 <= i < |snap[1..]| ensures snap[1..][i].0 != snap[0].0 {
      assert snap[1..][i] == snap[i + 1];
      assert Keys(snap)[i + 1] != Keys(snap)[0];
    }
  }

  /** One turn of the walk loop, then the rest of it. */
  lemma ScanCons(snap: Snapshot, data: Dict<Path, Stamp>, initSearch: bool, initLog: bool)
    requires snap != [] && Valid(data)
    ensures Scan(snap, data, initSearch, initLog).0 ==
            Step(snap[0], data, initSearch, initLog).0 +
            Scan(snap[1..], Step(snap[0], data, initSearch, initLog).1, initSearch, initLog).0
  {
  }

  /**
   The first pass of a session reports one baseline event per file, in walk
   order, when initial logging is on, and nothing at all when it is off;
   either way it retains every file.
   */
  lemma FirstPass(s: State, snap: Snapshot, now: Stamp)
    requires Inv(s) && s.initSearch && WellFormed(snap)
    ensures Pass(s, snap, now).0 == if s.initLog then Baselines(snap) else []
    ensures ToMap(Pass(s, snap, now).1.fileData) == SnapMap(snap)
    ensures Keys(Pass(s, snap, now).1.fileData) == Keys(snap)
  {
    PassSplit(s, snap, now);
    ScanFirst(snap, s.fileData, s.initLog);
    assert Vanished(Keys(s.fileData), Found(snap)) == [];
    assert Kept(Keys(s.fileData), Found(snap)) == [];
    NewPathsDistinct(snap, {});
  }

  /** Over distinct paths none of which is known, the new paths are the walked paths. */
  lemma {:induction false} NewPathsDistinct(snap: Snapshot, known: set<Path>)
    requires WellFormed(snap)
    requires forall i :: 0 <= i < |snap| ==> snap[i].0 !in known
    ensures NewPaths(snap, known) == Keys(snap)
  {
    if snap != [] {
      var p, rest := snap[0].0, snap[1..];
      WellFormedTail(snap);
      KeySetHas(rest);
      assert forall i :: 0 <= i < |rest| ==> rest[i].0 !in known + {p} by {
        forall i | 0 <= i < |rest| ensures rest[i].0 !in known + {p} {
          assert rest[i] == snap[i + 1];
        }
      }
      NewPathsDistinct(rest, known + {p});
      assert snap == [snap[0]] + rest;
      KeysCons(snap[0], rest);
    }
  }

  /**
   Deleted events follow the order in which the files were first walked:
   after the first pass of a session, a pass that finds nothing reports one
   deleted event per file, in walk order.
   */
  lemma DeletionsFollowWalk(s: State, snap: Snapshot, now: Stamp, later: Stamp)
    requires Inv(s) && s.initSearch && WellFormed(snap)
    ensures Pass(Pass(s, snap, now).1, [], later).0 == Tombstones(Keys(snap), later)
  {
    var s' := Pass(s, snap, now).1;
    FirstPass(s, snap, now);
    PassSplit(s', [], later);
    VanishedNothingFound(Keys(snap));
  }

  lemma {:induction false} VanishedNothingFound(keys: seq<Path>)
    ensures Vanished(keys, {}) == keys
  {
    if keys != [] {
      VanishedNothingFound(keys[1..]);
      assert keys == [keys[0]] + keys[1..];
    }
  }


  /**
   Choosing a different folder starts a fresh session: the next pass reports
   one baseline event per file when initial logging is on and nothing when
   it is off, never a created, changed or deleted event.
   */
  lemma NewFolderFirstPass(s: State, p: Path, snap: Snapshot, now: Stamp)
    requires Inv(s) && Some(p) != s.folder && WellFormed(snap)
    ensures Pass(Run(s, Some(p)), snap, now).0 == if s.initLog then Baselines(snap) else []
  {
    FirstPass(Run(s, Some(p)), snap, now);
  }

  /** Choosing the folder already watched keeps the session as it is. */
  lemma SameFolderKeepsSession(s: State)
    requires Inv(s) && s.folder.Some?
    ensures Run(s, s.folder) == s
  {
  }

  /** The four kinds are told apart by their colours. */
  lemma ColorsDistinct(k: Kind, k': Kind)
    requires k != k'
    ensures k.Color() != k'.Color()
  {
  }

  lemma {:induction false} EventsForAll(events: seq<Event>, p: Path)
    requires forall x :: x in events ==> x.path == p
    ensures EventsFor(events, p) == events
  {
    if events != [] {
      assert events[0] in events;
      EventsForAll(events[1..], p);
    }
  }

  /** A pass whose only owed event is `e` reports exactly `[e]`. */
  lemma OnlyOwed(s: State, snap: Snapshot, now: Stamp, e: Event)
    requires Valid(s.fileData) && WellFormed(snap)
    requires Reported(e, ToMap(s.fileData), SnapMap(snap), s.initSearch, s.initLog, now)
    requires forall e' :: Reported(e', ToMap(s.fileData), SnapMap(snap), s.initSearch, s.initLog, now) ==> e' == e
    ensures Pass(s, snap, now).0 == [e]
  {
    var events := Pass(s, snap, now).0;
    PassReports(s, snap, now);
    PassOnePerPath(s, snap, now);
    EventsForSingle(events, e);
    EventsForAll(events, e.path);
  }

  /**
   A file `b` appearing beside a retained file `a` after the first pass
   yields one created event.
   */
  lemma SessionCreate(s: State, a: Path, b: Path, ta: Stamp, tb: Stamp, now: Stamp)
    requires a != b
    requires Valid(s.fileData) && !s.initSearch && ToMap(s.fileData) == map[a := ta]
    ensures Pass(s, [(a, ta), (b, tb)], now).0 == [Event(b, tb, Created)]
  {
    var snap: Snapshot := [(a, ta), (b, tb)];
    assert SnapMap(snap) == map[a := ta, b := tb] by {
      assert snap[1..] == [(b, tb)];
    }
    OnlyOwed(s, snap, now, Event(b, tb, Created));
  }

  /** Touching retained file `a` beside an unchanged `b` yields one changed event. */
  lemma SessionChange(s: State, a: Path, b: Path, ta: Stamp, ta': Stamp, tb: Stamp, now: Stamp)
    requires a != b && ta != ta'
    requires Valid(s.fileData) && ToMap(s.fileData) == map[a := ta, b := tb]
    ensures Pass(s, [(a, ta'), (b, tb)], now).0 == [Event(a, ta', Changed)]
  {
    var snap: Snapshot := [(a, ta'), (b, tb)];
    assert SnapMap(snap) == map[a := ta', b := tb] by {
      assert snap[1..] == [(b, tb)];
    }
    OnlyOwed(s, snap, now, Event(a, ta', Changed));
  }

  /**
   Removing retained file `b` beside an unchanged `a` yields one deleted
   event stamped with the pass's reading.
   */
  lemma SessionDelete(s: State, a: Path, b: Path, ta: Stamp, tb: Stamp, now: Stamp)
    requires a != b
    requires Valid(s.fileData) && ToMap(s.fileData) == map[a := ta, b := tb]
    ensures Pass(s, [(a, ta)], now).0 == [Event(b, now, Deleted)]
  {
    var snap: Snapshot := [(a, ta)];
    assert SnapMap(snap) == map[a := ta];
    OnlyOwed(s, snap, now, Event(b, now, Deleted));
  }

  /** The walk loop of a later pass does not consult the initial-log flag. */
  lemma {:induction false} ScanIgnoresInitLog(snap: Snapshot, data: Dict<Path, Stamp>, initLog: bool, initLog': bool)
    requires Valid(data)
    ensures Scan(snap, data, false, initLog) == Scan(snap, data, false, initLog')
  {
    if snap != [] {
      var step := Step(snap[0], data, false, initLog);
      assert step == Step(snap[0], data, false, initLog');
      ScanIgnoresInitLog(snap[1..], step.1, initLog, initLog');
    }
  }

  /**
   `set_init_log` only matters to the first pass of a session: once that
   pass is over, flipping the flag changes neither what a pass reports nor
   what it retains.
   */
  lemma InitLogOnlyFirstPass(s: State, status: bool, snap: Snapshot, now: Stamp)
    requires Valid(s.fileData) && !s.initSearch
    ensures Pass(SetInitLog(s, status), snap, now).0 == Pass(s, snap, now).0
    ensures Pass(SetInitLog(s, status), snap, now).1.fileData == Pass(s, snap, now).1.fileData
  {
    ScanIgnoresInitLog(snap, s.fileData, s.initLog, status);
  }

  /** Applies `set_timer` for each value of `times` in turn, collecting the warnings. */
  function SetTimers(s: State, times: seq<real>): (r: (State, seq<Warning>))
    decreases |times|
  {
    if times == [] then (s, [])
    else
      var (s', w) := SetTimer(s, times[0]);
      var (s'', ws) := SetTimers(s', times[1..]);
      (s'', w + ws)
  }

  /** The last positive value of `times`, or `default` when there is none. */
  function LastPositive(times: seq<real>, default: real): real {
    if times == [] then default
    else if times[|times| - 1] > 0.0 then times[|times| - 1]
    else LastPositive(times[..|times| - 1], default)
  }

  /** The values of `times` that are not positive, in order. */
  function Rejected(times: seq<real>): seq<real> {
    if times == [] then []
    else if times[0] <= 0.0 then [times[0]] + Rejected(times[1..])
    else Rejected(times[1..])
  }

  lemma {:induction false} LastPositiveCons(t: real, times: seq<real>, default: real)
    ensures LastPositive([t] + times, default) == LastPositive(times, if t > 0.0 then t else default)
    decreases |times|
  {
    var all := [t] + times;
    if times != [] {
      assert all[..|all| - 1] == [t] + times[..|times| - 1];
      assert all[|all| - 1] == times[|times| - 1];
      LastPositiveCons(t, times[..|times| - 1], default);
    } else {
      assert all[..|all| - 1] == [];
    }
  }

  /**
   After a run of `set_timer` calls the interval in force is the last
   positive value passed, or the interval from before when every value was
   refused; each refused value produced one warning, in call order; nothing
   but the interval changes.
   */
  lemma {:induction false} SetTimersKeepsLastValid(s: State, times: seq<real>)
    ensures SetTimers(s, times).0 == s.(interval := LastPositive(times, s.interval))
    ensures SetTimers(s, times).1 == seq(|Rejected(times)|, i requires 0 <= i < |Rejected(times)| => InvalidInterval(Rejected(times)[i]))
    decreases |times|
  {
    if times != [] {
      var s' := SetTimer(s, times[0]).0;
      SetTimersKeepsLastValid(s', times[1..]);
      assert times == [times[0]] + times[1..];
      LastPositiveCons(times[0], times[1..], s.interval);
    }
  }
}
