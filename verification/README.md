# File change viewer: change-detection core

This project models, in Dafny, the polling engine of the `Search` class of the
File change viewer, and proves properties of it.

The engine watches one folder. Every interval it walks the folder tree and
records each file's modification time in `file_data`, a dict keyed by path.
Each walk, called a pass, is compared with what was retained. The pass
reports one event per difference:

- a baseline event (black) for a file seen on the first pass of a session, if initial logging is on;
- a created event (green) for a new file on any later pass;
- a changed event (blue) for a known file whose timestamp differs;
- a deleted event (red) for a retained file the walk no longer finds.

Choosing a new folder starts a new session. The user can also change the
polling interval and the initial-logging flag.

Files:

- `wrappers.dfy`: `Option`, which stands for Python's `None`-or-value.
- `pydict.dfy`: module `PyDict`, which models a Python dict. Entries keep insertion order and no key occurs twice. Assigning to a present key keeps its place, assigning to a new key appends it, and `del` removes one present entry and keeps the order of the rest. Python's `del` raises `KeyError` for an absent key, so the model's `Delete` requires the key to be present; the deletion loop only ever deletes keys the dict holds, as long as no `run` call interleaves with the pass. `ToMap` gives the contents without the order. The order matters because the deletion loop iterates over the dict, so deleted events come out in dict order.
- `search.dfy`: module `Search`, which models the `Search` class. It holds the session state, one pass (`Pass`, built from the walk loop `Scan` and the deletion loop `Sweep`), and the operations `Run`, `SetTimer` and `SetInitLog`. `Inv` is the invariant of every reachable state, and each operation's contract says it preserves `Inv`.
- `search_properties.dfy`: module `SearchProperties`, which holds the properties. `Reported` defines independently what a pass owes: it compares the retained files with the files the walk saw. The lemmas prove that a pass reports exactly that. They also cover the per-file case table, the order of events, idempotence, the first pass of a session, the flag and timer setters, and three concrete steps of a small session.

Modelling choices:

- The walk is an input. A snapshot is the sequence of (path, modification time) pairs that `os.walk` and `os.path.getmtime` would produce, in walk order.
- The time `time.time()` returns is also an input: `now`, the one reading that stamps every deleted event of a pass.
- Timestamps are integers, because the code only compares them for equality. The interval is a `real`, because the code only compares it with 0.
- The pass functions accept any snapshot, with duplicate paths too, and behave as the loop would on them. Lemmas about events need `WellFormed`, which says each path occurs once. A real walk always meets that condition.
- `pollerStarted` stands for `self.thread is not None`.

Three behaviours of the code, which the model keeps:

- `run` ignores only `None`. An empty string counts as a folder path.
- A file that disappears between the walk and `getmtime` is not tolerated. The code would raise, so the model does not include that case.
- A rejected interval is sent up as a red warning. Nothing is stored.

## Model

| member | source | states |
|---|---|---|
| PyDict.Put | app/Search.py:74 | assigning `d[k] = v` keeps the dict free of duplicate keys and makes its contents the old contents with `k` mapped to `v`; a present key keeps its place in the iteration order, a new key is appended |
| PyDict.Delete | app/Search.py:91 | `del d[k]` on a present key (the only case that does not raise) keeps the dict free of duplicate keys, removes exactly `k` from its contents and leaves the order of the other keys unchanged |
| Search.Init | app/Search.py:16-23 | a new `Search` has no folder, no thread, interval 1, nothing retained, initial logging on, and is before its first pass; it satisfies the session invariant |
| Search.Step | app/Search.py:72-85 | one turn of the walk loop stores the file's timestamp under its path; a known path keeps its place in the dict and a new path is appended; every event it emits is about that file and none is a deletion |
| Search.Scan | app/Search.py:66-85 | the walk loop retains every walked file with the timestamp the walk read, overriding older values; the key order becomes the old keys in their order followed by the paths not yet known, once each, in the order the walk first meets them; every event it emits is about a walked file and none is a deletion |
| Search.Sweep | app/Search.py:88-92 | the deletion loop, over distinct keys the dict holds, forgets exactly the keys the walk did not find and keeps the others with their values and in their relative order; it emits one deleted event per such key, in key order, all stamped with the same reading; when nothing vanished it leaves the dict untouched |
| Search.Pass | app/Search.py:64-95 | after a pass the retained contents equal the files of the snapshot with their timestamps, whatever the flags; the dict's order is the old keys still found, in their order, followed by the newly walked paths in walk order; the first-pass flag is off; no other field changes; the session invariant is preserved |
| Search.Run | app/Search.py:25-45 | `None` changes nothing; a different folder starts a new session with nothing retained and the first-pass flag on; the same folder keeps the session; a folder always leaves the polling thread started; the invariant is preserved |
| Search.SetTimer | app/Search.py:47-53 | an interval of zero or less is refused with one red warning and the state is unchanged; a positive one becomes the interval and nothing else changes; the interval stays positive |
| Search.SetInitLog | app/Search.py:55-57 | only the initial-logging flag changes; the invariant is preserved |
| SearchProperties.ScanReports | app/Search.py:66-85 | over a well-formed snapshot the walk loop emits exactly the baseline, created and changed events owed by the difference between the retained and the walked files |
| SearchProperties.PassReports | app/Search.py:64-92 | an event is in a pass's output if and only if it is owed: baseline for a new file on a first pass with initial logging on, created for a new file on a later pass, changed for a known file with a different timestamp (carrying the new one), deleted for a retained file not found (stamped `now`) |
| SearchProperties.PassOnePerPath | app/Search.py:66-92 | over a well-formed snapshot no two events of a pass are about the same file |
| SearchProperties.PassDeletionOrder | app/Search.py:87-92 | a pass ends with one deleted event per retained file the walk did not find, in the retained dict's order, all stamped `now`, and no deleted event precedes a baseline, created or changed one |
| SearchProperties.PassPerFile | app/Search.py:72-92 | per file, the events of a pass are: one baseline event (new file, first pass, logging on), none (new file, first pass, logging off), one created event (new file, later pass), one changed event (timestamp differs), none (timestamp equal), one deleted event (retained file not found), none otherwise |
| SearchProperties.PassStoresSnapshot | app/Search.py:72-92 | after a pass over a well-formed snapshot the retained paths are exactly the walked paths and each holds the timestamp the walk read for it, whatever the flags |
| SearchProperties.QuietPass | app/Search.py:72-92 | a pass over a snapshot that matches the retained files reports nothing and leaves the dict unchanged, order included |
| SearchProperties.SecondPassQuiet | app/Search.py:64-95 | repeating a pass over the same well-formed snapshot reports nothing and changes nothing |
| SearchProperties.FirstPass | app/Search.py:73-80 | the first pass of a session reports one baseline event per file in walk order when initial logging is on and nothing when it is off, and retains every file either way, in walk order |
| SearchProperties.DeletionsFollowWalk | app/Search.py:74-92 | after the first pass of a session, a pass that finds no files reports one deleted event per file, in the order the first walk met them, all stamped with that pass's reading |
| SearchProperties.NewFolderFirstPass | app/Search.py:31-39 | after switching to a different folder the next pass reports only baseline events, one per file, or none when initial logging is off; never created, changed or deleted events |
| SearchProperties.SameFolderKeepsSession | app/Search.py:35-45 | running again on the folder already watched leaves the state as it is |
| SearchProperties.ColorsDistinct | app/Search.py:11-14 | the four event kinds carry four different colours |
| SearchProperties.InitLogOnlyFirstPass | app/Search.py:75-80 | once the first pass is over, the initial-logging flag changes neither the events of a pass nor what it retains |
| SearchProperties.SetTimersKeepsLastValid | app/Search.py:47-53 | after any series of interval updates the interval in force is the last positive value or the earlier interval, each refused value produced one warning in call order, and nothing else changed |
| SearchProperties.SessionCreate | app/Search.py:78-80 | a file appearing after the first pass beside an unchanged one yields exactly one created event |
| SearchProperties.SessionChange | app/Search.py:83-85 | touching one of two retained files yields exactly one changed event with the new timestamp |
| SearchProperties.SessionDelete | app/Search.py:88-92 | removing one of two retained files yields exactly one deleted event stamped `now` |

## Left out

- The filesystem walk (`os.walk`, `os.path.join`, `os.path.getmtime`, app/Search.py:66-69) is not modelled. The snapshot and its timestamps are inputs. A file removed between listing and `getmtime` would raise in the code, and so would `getmtime` on a dangling symbolic link, which `os.walk` lists among the files; the model has no such case. `search_thread` (app/Search.py:59-62) catches nothing, so any exception from a pass ends the polling thread for good. `self.thread` stays set, so `run` (app/Search.py:42) never starts another one, and nothing more is reported for the life of the process, even after a folder change.
- The clock is not modelled: `time.time()` at app/Search.py:88 becomes the parameter `now`.
- `send_log` formatting is not modelled: `time.strftime`, `localtime`, `normpath` and the Qt signal (app/Search.py:97-102). An event is the (path, timestamp, kind) triple that would be formatted, and the kind gives its colour. The text of the interval warning (app/Search.py:49) is reduced to the refused value.
- Threading is not modelled: the global lock, the daemon thread and the endless sleep loop of `search_thread` (app/Search.py:7, 42-45, 59-62). Starting the thread is the flag `pollerStarted`. A pass is atomic here. In the code, `seach_iter` holds no lock, so a `run` or setter call during a pass can interleave with it. For example, `run` on a new folder while a pass over the old folder is in flight: the pass keeps walking the old folder into the freshly emptied dict and then clears `init_search` (app/Search.py:95). The new folder's first pass then reports created events instead of baselines, plus deleted events for the old folder's files. A `run` on a new folder can also replace `file_data` with an empty dict (app/Search.py:36-39) between the point where the pass reads it and the point where it writes it. Then `del self.file_data[f]` (line 91), or the read `self.file_data[file_path]` (line 83), raises `KeyError`, which stops polling as described above. The model does not include these interleavings.
- Floating point is not modelled. The interval is a real number, so NaN and infinities, which `time <= 0` would let through, do not arise.
- The graphical shell is not modelled: app/MainWidget.py and App.py. The interval field calls `set_interval` (app/MainWidget.py:62), which `Search` does not define; the model follows `set_timer` as written.
- Log-file persistence and a log-file-name encoder do not exist in this code and are not modelled.
- SearchProperties.PassReports: states which events a pass emits, and PassDeletionOrder states where the deleted ones go. The order of the baseline, created and changed events among themselves is stated only for the first pass (FirstPass: walk order).
- PyDict.Delete: requires the key to be present. Python's `del` raises `KeyError` for an absent key; the deletion loop (app/Search.py:89-91) deletes each retained key at most once, so that error never arises there when the pass is not interleaved with `run`; the interleaved case is described in the threading line above and is not modelled.
