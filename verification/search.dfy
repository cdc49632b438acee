/**
 The change-detection core of the `Search` class: the state a watch session
 keeps, one polling pass that diffs a directory snapshot against that state,
 and the setters the user interface calls between passes.

 The filesystem walk is not modelled: a pass receives the snapshot that
 `os.walk` and `os.path.getmtime` would have produced, as a sequence of
 (path, modification time) pairs in walk order, and the wall-clock reading
 that stamps deletions. Timestamps are only ever compared for equality, so
 they are plain integers here.
 */
module Search {
  import opened Wrappers
  import opened PyDict

  type Path = string
  type Stamp = int

  /** One file as the walk saw it. */
  type Entry = (Path, Stamp)
  type Snapshot = seq<Entry>

  /** The four kinds of event one pass can report. */
  datatype Kind = Baseline | Created | Changed | Deleted {
    /** The fixed display colour of each kind (the class constants of `Search`). */
    function Color(): string {
      match this
      case Baseline => "black"
      case Created => "green"
      case Changed => "blue"
      case Deleted => "red"
    }
  }

  /** What `send_log` passes up: the file, the time shown beside it, and the kind. */
  datatype Event = Event(path: Path, stamp: Stamp, kind: Kind)

  /** The message `set_timer` sends up when it refuses an interval. */
  datatype Warning = InvalidInterval(rejected: real) {
    function Color(): string { "red" }
  }

  /**
   The fields of a `Search` object that the core reads and writes.
   `pollerStarted` stands for `thread is not None`.
   */
  datatype State = State(
    folder: Option<Path>,
    pollerStarted: bool,
    interval: real,
    fileData: Dict<Path, Stamp>,
    initLog: bool,
    initSearch: bool)

  /** A freshly constructed `Search`. */
  function Init(): (s: State)
    ensures Inv(s)
    ensures s.folder == None && !s.pollerStarted && s.interval == 1.0
    ensures s.fileData == [] && s.initLog && s.initSearch
  {
    State(None, false, 1.0, [], true, true)
  }

  /**
   What holds of every reachable state: `file_data` is a well-formed dict, the
   interval is positive, nothing is retained before the first pass of a
   session, and the polling thread has been started exactly when a folder has
   been chosen.
   */
  ghost predicate Inv(s: State) {
    && Valid(s.fileData)
    && s.interval > 0.0
    && (s.initSearch ==> s.fileData == [])
    && (s.pollerStarted <==> s.folder.Some?)
  }

  /** The set `found_files` a walk over `snap` collects. */
  function Found(snap: Snapshot): set<Path> {
    KeySet(snap)
  }

  /**
   The files and timestamps the snapshot reports; when a path occurs twice
   the later occurrence wins, as it would in a dict filled in walk order.
   */
  function SnapMap(snap: Snapshot): (m: map<Path, Stamp>)
    ensures m.Keys == Found(snap)
  {
    if snap == [] then map[]
    else
      assert snap == [snap[0]] + snap[1..];
      KeySetCons(snap[0], snap[1..]);
      map[snap[0].0 := snap[0].1] + SnapMap(snap[1..])
  }

  /** The body of the walk loop for one file. */
  function Step(entry: Entry, data: Dict<Path, Stamp>, initSearch: bool, initLog: bool)
    : (r: (seq<Event>, Dict<Path, Stamp>))
    requires Valid(data)
    ensures Valid(r.1)
    ensures ToMap(r.1) == ToMap(data)[entry.0 := entry.1]
    ensures KeySet(r.1) == KeySet(data) + {entry.0}
    ensures entry.0 in KeySet(data) ==> Keys(r.1) == Keys(data)
    ensures entry.0 !in KeySet(data) ==> Keys(r.1) == Keys(data) + [entry.0]
    ensures forall e :: e in r.0 ==> e.path == entry.0 && e.kind != Deleted
  {
    var (path, changed) := entry;
    var stored := ToMap(data);
    if path !in stored then
      var data' := Put(data, path, changed);
      if initSearch && initLog then ([Event(path, changed, Baseline)], data')
      else if !initSearch then ([Event(path, changed, Created)], data')
      else ([], data')
    else if stored[path] != changed then
      ([Event(path, changed, Changed)], Put(data, path, changed))
    else
      assert stored[path := changed] == stored;
      ([], data)
  }

  /** The walk loop: every file of the snapshot, in walk order. */
  function Scan(snap: Snapshot, data: Dict<Path, Stamp>, initSearch: bool, initLog: bool)
    : (r: (seq<Event>, Dict<Path, Stamp>))
    requires Valid(data)
    ensures Valid(r.1)
    ensures ToMap(r.1) == ToMap(data) + SnapMap(snap)
    ensures Keys(r.1) == Keys(data) + NewPaths(snap, KeySet(data))
    ensures forall e :: e in r.0 ==> e.path in Found(snap) && e.kind != Deleted
  {
    if snap == [] then ([], data)
    else
      var (events, data') := Step(snap[0], data, initSearch, initLog);
      var (more, data'') := Scan(snap[1..], data', initSearch, initLog);
      ScanCombine(snap, data, data', data'');
      (events + more, data'')
  }

  /** Updating one key and then overlaying a map is overlaying the update and the map. */
  lemma UpdateThenUnion(m: map<Path, Stamp>, k: Path, v: Stamp, n: map<Path, Stamp>)
    ensures m[k := v] + n == m + (map[k := v] + n)
  {
  }

  /** What one turn of the walk loop and the rest of the loop give together. */
  lemma ScanCombine(snap: Snapshot, data: Dict<Path, Stamp>, data': Dict<Path, Stamp>, data'': Dict<Path, Stamp>)
    requires snap != []
    requires ToMap(data') == ToMap(data)[snap[0].0 := snap[0].1]
    requires KeySet(data') == KeySet(data) + {snap[0].0}
    requires snap[0].0 in KeySet(data) ==> Keys(data') == Keys(data)
    requires snap[0].0 !in KeySet(data) ==> Keys(data') == Keys(data) + [snap[0].0]
    requires ToMap(data'') == ToMap(data') + SnapMap(snap[1..])
    requires Keys(data'') == Keys(data') + NewPaths(snap[1..], KeySet(data'))
    ensures Found(snap) == {snap[0].0} + Found(snap[1..])
    ensures ToMap(data'') == ToMap(data) + SnapMap(snap)
    ensures Keys(data'') == Keys(data) + NewPaths(snap, KeySet(data))
  {
    assert snap == [snap[0]] + snap[1..];
    KeySetCons(snap[0], snap[1..]);
    UpdateThenUnion(ToMap(data), snap[0].0, snap[0].1, SnapMap(snap[1..]));
    NewPathsStep(snap, Keys(data), KeySet(data), Keys(data'), KeySet(data'));
  }

  /**
   The walked paths that are not yet `known`, each once, in the order the
   walk first meets them: the keys the walk loop appends to `file_data`.
   */
  function NewPaths(snap: Snapshot, known: set<Path>): seq<Path>
  {
    if snap == [] then []
    else if snap[0].0 in known then NewPaths(snap[1..], known)
    else [snap[0].0] + NewPaths(snap[1..], known + {snap[0].0})
  }

  /** The key order after one turn of the walk loop and the rest of it. */
  lemma NewPathsStep(snap: Snapshot, ks: seq<Path>, known: set<Path>, ks': seq<Path>, known': set<Path>)
    requires snap != [] && known' == known + {snap[0].0}
    requires snap[0].0 in known ==> ks' == ks
    requires snap[0].0 !in known ==> ks' == ks + [snap[0].0]
    ensures ks' + NewPaths(snap[1..], known') == ks + NewPaths(snap, known)
  {
    var p := snap[0].0;
    if p in known {
      assert known' == known;
    } else {
      var more := NewPaths(snap[1..], known');
      assert NewPaths(snap, known) == [p] + more;
      assert (ks + [p]) + more == ks + ([p] + more);
    }
  }

  /** Every path `NewPaths` lists was walked and was not known. */
  lemma {:induction false} NewPathsFound(snap: Snapshot, known: set<Path>)
    ensures forall i :: 0 <= i < |NewPaths(snap, known)| ==>
      NewPaths(snap, known)[i] in Found(snap) && NewPaths(snap, known)[i] !in known
  {
    if snap != [] {
      assert snap == [snap[0]] + snap[1..];
      KeySetCons(snap[0], snap[1..]);
      NewPathsFound(snap[1..], known);
      NewPathsFound(snap[1..], known + {snap[0].0});
    }
  }

  /** The keys of `keys`, in order, that the walk did not find. */
  function Vanished(keys: seq<Path>, found: set<Path>): (v: seq<Path>)
    ensures forall k :: k in v <==> k in keys && k !in found
  {
    if keys == [] then []
    else if keys[0] !in found then [keys[0]] + Vanished(keys[1..], found)
    else Vanished(keys[1..], found)
  }

  /** The keys of `keys`, in order, that the walk found: those `Vanished` leaves out. */
  function Kept(keys: seq<Path>, found: set<Path>): (v: seq<Path>)
    ensures forall k :: k in v <==> k in keys && k in found
  {
    if keys == [] then []
    else if keys[0] in found then [keys[0]] + Kept(keys[1..], found)
    else Kept(keys[1..], found)
  }

  lemma {:induction false} VanishedAppend(a: seq<Path>, b: seq<Path>, found: set<Path>)
    ensures Vanished(a + b, found) == Vanished(a, found) + Vanished(b, found)
  {
    if a != [] {
      assert (a + b)[1..] == a[1..] + b;
      VanishedAppend(a[1..], b, found);
    } else {
      assert a + b == b;
    }
  }

  lemma {:induction false} VanishedAllFound(keys: seq<Path>, found: set<Path>)
    requires forall i :: 0 <= i < |keys| ==> keys[i] in found
    ensures Vanished(keys, found) == []
  {
    if keys != [] {
      VanishedAllFound(keys[1..], found);
    }
  }

  /** Omitting the keys that vanished keeps exactly the keys that were found. */
  lemma {:induction false} OmitVanished(keys: seq<Path>, gone: seq<Path>, found: set<Path>)
    requires forall i :: 0 <= i < |keys| ==> (keys[i] in gone <==> keys[i] !in found)
    ensures Omit(keys, gone) == Kept(keys, found)
  {
    if keys != [] {
      OmitVanished(keys[1..], gone, found);
    }
  }

  /** Deleted events for `gone`, in order, all stamped `now`. */
  function Tombstones(gone: seq<Path>, now: Stamp): (events: seq<Event>)
    ensures |events| == |gone|
    ensures forall i :: 0 <= i < |gone| ==> events[i] == Event(gone[i], now, Deleted)
  {
    if gone == [] then []
    else [Event(gone[0], now, Deleted)] + Tombstones(gone[1..], now)
  }

  /** The deletion loop over a copy `keys` of the dict's keys. */
  function Sweep(keys: seq<Path>, found: set<Path>, data: Dict<Path, Stamp>, now: Stamp)
    : (r: (seq<Event>, Dict<Path, Stamp>))
    requires Valid(data) && Distinct(keys)
    requires forall i :: 0 <= i < |keys| ==> keys[i] in KeySet(data)
    ensures Valid(r.1)
    ensures forall k :: k in ToMap(r.1) <==> k in ToMap(data) && (k in found || k !in keys)
    ensures forall k :: k in ToMap(r.1) ==> ToMap(r.1)[k] == ToMap(data)[k]
    ensures Keys(r.1) == Omit(Keys(data), Vanished(keys, found))
    ensures r.0 == Tombstones(Vanished(keys, found), now)
    ensures Vanished(keys, found) == [] ==> r.1 == data
  {
    if keys == [] then
      OmitNone(Keys(data), []);
      ([], data)
    else
      var rest := keys[1..];
      assert Distinct(rest) by {
        forall i, j | 0 <= i < j < |rest| ensures rest[i] != rest[j] {
          assert rest[i] == keys[i + 1] && rest[j] == keys[j + 1];
        }
      }
      if keys[0] !in found then
        var data' := Delete(data, keys[0]);
        assert forall i :: 0 <= i < |rest| ==> rest[i] != keys[0] && rest[i] in KeySet(data');
        var (events, data'') := Sweep(rest, found, data', now);
        OmitWithout(Keys(data), keys[0], Vanished(rest, found));
        ([Event(keys[0], now, Deleted)] + events, data'')
      else
        Sweep(rest, found, data, now)
  }

  /**
   One polling pass (`seach_iter`): classify every file of the snapshot
   against `file_data`, then report and forget every retained file the walk
   did not find, stamped with the single reading `now`, and end the first
   pass of the session.
   */
  function Pass(s: State, snap: Snapshot, now: Stamp): (r: (seq<Event>, State))
    requires Valid(s.fileData)
    ensures Valid(r.1.fileData)
    ensures ToMap(r.1.fileData) == SnapMap(snap)
    ensures Keys(r.1.fileData) == Kept(Keys(s.fileData), Found(snap)) + NewPaths(snap, KeySet(s.fileData))
    ensures !r.1.initSearch
    ensures r.1 == s.(fileData := r.1.fileData, initSearch := false)
    ensures Inv(s) ==> Inv(r.1)
  {
    var (scanned, data) := Scan(snap, s.fileData, s.initSearch, s.initLog);
    var found := Found(snap);
    ValidDistinct(data);
    KeySetHas(data);
    var (deleted, data') := Sweep(Keys(data), found, data, now);
    assert ToMap(data') == SnapMap(snap) by {
      forall k ensures k in ToMap(data') <==> k in SnapMap(snap) {
        KeysMember(data, k);
      }
    }
    SweptOrder(s.fileData, snap, Keys(data));
    (scanned + deleted, s.(fileData := data', initSearch := false))
  }

  /**
   The keys the deletion loop leaves after the walk loop appended the new
   paths: the old keys still found, then the new paths.
   */
  lemma SweptOrder(before: Dict<Path, Stamp>, snap: Snapshot, keys: seq<Path>)
    requires keys == Keys(before) + NewPaths(snap, KeySet(before))
    ensures Vanished(keys, Found(snap)) == Vanished(Keys(before), Found(snap))
    ensures Omit(keys, Vanished(keys, Found(snap))) ==
            Kept(Keys(before), Found(snap)) + NewPaths(snap, KeySet(before))
  {
    var found := Found(snap);
    var a, n := Keys(before), NewPaths(snap, KeySet(before));
    NewPathsFound(snap, KeySet(before));
    VanishedAppend(a, n, found);
    VanishedAllFound(n, found);
    assert Vanished(keys, found) == Vanished(a, found);
    OmitAppend(a, n, Vanished(a, found));
    OmitNone(n, Vanished(a, found));
    OmitVanished(a, Vanished(a, found), found);
  }

  /**
   `run(path)`: no effect for `None`; a path different from the current
   folder starts a new session with nothing retained; either way the polling
   thread is started if it was not yet.
   */
  function Run(s: State, path: Option<Path>): (r: State)
    ensures path.None? ==> r == s
    ensures path.Some? && path != s.folder ==>
      r == s.(folder := path, fileData := [], initSearch := true, pollerStarted := true)
    ensures path.Some? && path == s.folder ==> r == s.(pollerStarted := true)
    ensures Inv(s) ==> Inv(r)
  {
    if path.None? then s
    else
      var s' := if path != s.folder then s.(folder := path, fileData := [], initSearch := true) else s;
      s'.(pollerStarted := true)
  }

  /** `set_timer(time)`: a non-positive interval is refused with a warning. */
  function SetTimer(s: State, time: real): (r: (State, seq<Warning>))
    ensures time <= 0.0 ==> r.0 == s && r.1 == [InvalidInterval(time)]
    ensures time > 0.0 ==> r.0 == s.(interval := time) && r.1 == []
    ensures Inv(s) ==> Inv(r.0) && r.0.interval > 0.0
  {
    if time <= 0.0 then (s, [InvalidInterval(time)])
    else (s.(interval := time), [])
  }

  /** `set_init_log(status)`. */
  function SetInitLog(s: State, status: bool): (r: State)
    ensures r == s.(initLog := status)
    ensures Inv(s) ==> Inv(r)
  {
    s.(initLog := status)
  }
}
