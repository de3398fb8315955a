# Aggie File Integrity Monitor — a Dafny model

The Aggie File Integrity Monitor records a SHA-256 digest for every file under
a directory tree in a baseline file (`path|digest`, one record per line). It
then polls the tree. Each poll re-hashes every file, stabilizing the digest of
files that are being written, and compares the result with an in-memory
baseline. It reports NEW, MODIFIED and DELETED files, and updates that
baseline in place so that a change is reported once.

This project models the script's core in Dafny and proves properties of the
model:

- `wrappers.dfy`: `Option`, Python's `None`.
- `seqs.dfy`: small facts about slicing and concatenating sequences, shared by
  the proofs.
- `dicts.dfy`: the script's dictionaries (path → digest). They keep CPython's
  insertion order, so the order of keys, and hence the order of the printed
  events, is part of the model. `d[p] = h` is `Put` and `del d[p]` is `Remove`.
- `stabilizer.dfy`: `stabilize_hash`. The hasher's answers are given as a
  sequence of outcomes, one per retry, each a digest or `None`.
  `StabilizeHash` is the retry loop, proved against the reference definition
  `Stabilized` and the call count `Calls`.
- `traversal.dfy`: the shared traversal, which is
  - the sub-directory pruning test (`Descend`) and the `dirs[:]` filter that
    applies it to the listed sub-directories in order (`PruneDirs`);
  - a top-down walk over an abstract directory tree that descends into the
    sub-directories `PruneDirs` keeps (`Walk`, `WalkDirs`), walking them one
    after the other (`KeptSubdirWalked`, `PrunedSubdirSkipped`);
  - the self-exclusion test on file names (`IsOwnFile`), with the script's own
    name as `os.path.basename` gives it (`Basename`, `ScriptName`);
  - Python truthiness of the digest (`Recorded`);
  - the (path, digest) records of a scan (`Records`).
- `baseline_store.dfy`: baseline creation (`CreateBaseline`) and the record
  format. Loading (`Load`, `LoadBaseline`) covers text-mode newline
  translation, line splitting, `str.strip`, the split at the first `|` and
  absolutisation of relative paths, which together fix the record read from
  any line (`ParsePaddedRecord`, `LineIsPaddedRecord`). It ends with the round trip
  `LoadSerialized`.
- `monitor.dfy`: one polling cycle as a specification (`Updates`, `Deletes`,
  `Cycle`) with lemmas about it. `BaselineTable` is the in-memory baseline
  that `RunCycle` mutates in place. `ScanCurrentFiles` builds the current
  state. `StartMonitoring` runs a session over a finite list of polls.

Abstract inputs:

- Every hash outcome.
- The directory tree.
- The existence check `os.path.exists` (a predicate `onDisk`).
- `os.path.abspath` (a function `absPath`) and the absolute root directory.
- The script's own file name (`scriptName`, in place of the `__file__` lookup).
- The baseline file's contents (`None` when the file does not exist).

Notes on behaviour the model makes explicit:

- `if file_hash:` and `if current_hash:` test Python truthiness. An empty
  digest is dropped like a missing one, while `stabilize_hash` itself treats
  any non-`None` value as a success. A SHA-256 hex digest is never empty.
- The self-exclusion test compares file names only. A file named
  `baseline.txt` or like the script is skipped in every sub-directory, not
  just at the root (`IsOwnFile`, `OwnFileIgnored`).
- The `'.venv'` clause of the pruning test is subsumed by the hidden-name
  clause (`Descend`'s ensures).
- The round trip of the record format needs more than "no `|` in the path":
  - the path must be absolute, or the loader replaces it by `absPath(path)`;
  - the path must have no line break (`\n` or `\r`), since text mode reads
    `\r` as a line end;
  - the digest must have no line break and must not end in whitespace, which
    `strip()` would remove.
  A hex digest meets the digest conditions.
- Loading keeps the order of first appearance: a path recorded twice keeps
  the place of its first record and takes the digest of its last (`Put`,
  `ToDictLastWins`).

## Model

| member | source | states |
|---|---|---|
| `Dicts.Dict.Put` | aggie_fim.py:169 | dictionary assignment sets the path to the digest; an existing key keeps its place, a new key goes last; the dictionary stays well-formed |
| `Dicts.Dict.Remove` | aggie_fim.py:185 | `del` removes exactly that path and keeps the dictionary well-formed; the other keys keep their order: a missing key changes nothing, and a key listed at position i leaves the keys before it followed by those after it |
| `Dicts.RemoveKeyAt` | aggie_fim.py:185 | removing a key listed once, at position i, closes the gap and keeps the other keys in order |
| `Dicts.ToDict` | aggie_fim.py:106-114 | filling a dictionary pair by pair gives exactly the paths of the pairs, each with a value taken from one of its pairs |
| `Dicts.ToDictLastWins` | aggie_fim.py:113 | a later pair for the same path overwrites an earlier one: the path gets the digest of its last pair |
| `Stabilizer.LastSuccess` | aggie_fim.py:50-61 | `last_hash` after a run of attempts is one of the attempts' values, and is `None` iff every attempt failed |
| `Stabilizer.LastSuccessIsLast` | aggie_fim.py:50-61 | `last_hash` is the value of some attempt after which every attempt failed: it is the last success |
| `Stabilizer.LastSuccessOf` | aggie_fim.py:53-61 | a successful attempt followed only by failed ones is what `last_hash` holds |
| `Stabilizer.SettlesIff` | aggie_fim.py:53-60 | an attempt settles iff it succeeds with the digest of the latest earlier successful attempt; failures in between do not reset `last_hash` |
| `Stabilizer.FirstSettle` | aggie_fim.py:55-60 | finds the first attempt whose successful digest equals the previous successful digest, and no earlier one settles; `None` iff none settles |
| `Stabilizer.Stabilized` | aggie_fim.py:45-63 | the stabilizer's result is `None` iff every attempt failed, and otherwise is one of the attempts' digests |
| `Stabilizer.Calls` | aggie_fim.py:51-60 | at most `retries` hasher calls; it stops early only at an attempt that settles, and an attempt settles somewhere iff the last call made settles |
| `Stabilizer.StabilizeHash` | aggie_fim.py:45-63 | the retry loop returns the reference result `Stabilized` and makes exactly `Calls` hasher calls |
| `Stabilizer.StabilizedIsLastSuccessMade` | aggie_fim.py:46-48 | the result is always the last successful hash among the attempts made (the docstring's promise) |
| `Stabilizer.FailuresDoNotReset` | aggie_fim.py:52-61 | failed attempts between two equal digests do not reset `last_hash`: the second digest settles after k+2 calls |
| `Stabilizer.NeverSettlingReturnsLast` | aggie_fim.py:51-63 | a file that reads differently at every attempt costs all `retries` calls and yields the last digest (best effort, bounded) |
| `Stabilizer.DefaultRetriesOutcome` | aggie_fim.py:45-63 | with the default two retries (aggie_fim.py line 21) the hasher is called twice, and the result is the second digest unless that attempt failed, else the first |
| `Traversal.Descend` | aggie_fim.py:78 | a sub-directory is walked into iff its name does not start with `.` and is not `__pycache__` |
| `Traversal.PruneDirs` | aggie_fim.py:147 | the kept sub-directories are listed ones that pass the test, every listed one that passes is kept, and there are no more of them than were listed |
| `Traversal.PruneDirsAppend` | aggie_fim.py:147 | the filter keeps listing order: filtering a concatenation gives the filtered parts, concatenated |
| `Traversal.PruneDirsSingle` | aggie_fim.py:78 | a single listed sub-directory is kept iff the pruning test lets it through |
| `Traversal.Walk` | aggie_fim.py:76-79 | the walk lists the directory's own files first, in listing order and at the directory's own path, and every file it meets lies under the starting path (a directory without sub-directories lists nothing else, `WalkLeaf`; what each sub-directory adds is `KeptSubdirWalked` and `PrunedSubdirSkipped`) |
| `Traversal.WalkLeaf` | aggie_fim.py:76-79 | a directory without sub-directories lists exactly its own files, in listing order, and nothing else |
| `Traversal.WalkDirs` | aggie_fim.py:76-78 | every file met under the kept sub-directories lies under the parent's path |
| `Traversal.WalkDirsAppend` | aggie_fim.py:76-78 | sub-directories are walked one after the other, in the order given: the walk of a concatenation is the walks of its parts, concatenated |
| `Traversal.WalkDirsSnoc` | aggie_fim.py:76-78 | walking one more sub-directory appends its walk, taken at the joined path `dir/name` |
| `Traversal.KeptSubdirWalked` | aggie_fim.py:76-78 | a listed sub-directory that passes the pruning test is walked into: appending it to the listing appends its own walk, at its joined path, to the listing of files |
| `Traversal.PrunedSubdirSkipped` | aggie_fim.py:76-78 | a listed sub-directory that fails the pruning test is not walked into: appending it changes nothing |
| `Traversal.Basename` | aggie_fim.py:83 | `os.path.basename` on POSIX: a suffix of the path with no `/`, preceded by a `/` when it is not the whole path |
| `Traversal.ScriptName` | aggie_fim.py:83 | the name skipped as the tool's own: the fallback `aggie_fim.py` without a module file, else the module file's base name |
| `Traversal.PrunedSubtreeIgnored` | aggie_fim.py:76-78 | whatever a pruned sub-directory contains, the walk's listing is the same |
| `Traversal.Records` | aggie_fim.py:79-93 | no more records than listed files (which files give records is `RecordsContents`) |
| `Traversal.RecordsContents` | aggie_fim.py:84-93 | a (path, digest) pair is recorded iff it comes from a listed file that is not the tool's own (`IsOwnFile`: named like the script or `baseline.txt`) and whose digest is truthy (`Recorded`: present and not empty) |
| `Traversal.RecordsAppend` | aggie_fim.py:76-93 | the records of a listing split in two are those of the first part, then those of the second: walk order is kept |
| `Traversal.OwnFileIgnored` | aggie_fim.py:83-85 | a file named like the script or the baseline file contributes nothing: dropping it changes no record |
| `BaselineStore.RecordLine` | aggie_fim.py:92 | a record's line is its path, then `|`, then its digest, then a newline |
| `BaselineStore.Serialize` | aggie_fim.py:88-93 | the written text is empty iff there are no records, and otherwise ends with a newline |
| `BaselineStore.SerializeAppend` | aggie_fim.py:92 | writing one more record appends its line to the text |
| `BaselineStore.CreateBaseline` | aggie_fim.py:65-95 | the text written is the serialisation of the scan's records, and the count is the number of records |
| `BaselineStore.WriteRecords` | aggie_fim.py:79-93 | the loop over the walk's files writes the serialisation of their records and counts them |
| `BaselineStore.IsSpaceIsPythonWhitespace` | aggie_fim.py:109 | `IsSpace`, the characters `str.strip()` removes, is exactly CPython's `str.isspace` table (ASCII 0x09-0x0D, 0x1C-0x1F, space, and Unicode's other whitespace characters); `|` is not among them |
| `BaselineStore.LStrip` | aggie_fim.py:109 | removes exactly the leading whitespace: what it drops is whitespace, and what remains does not start with whitespace |
| `BaselineStore.RStrip` | aggie_fim.py:109 | removes exactly the trailing whitespace |
| `BaselineStore.Strip` | aggie_fim.py:109 | the stripped line is no longer than the line and starts and ends with no whitespace |
| `BaselineStore.StripIsMiddle` | aggie_fim.py:109 | `strip()` removes only whitespace, and only at the two ends: the result is a contiguous part of the line with nothing but whitespace before and after it |
| `BaselineStore.StripKeeps` | aggie_fim.py:109 | a character that is not whitespace survives stripping, so a `|` in the line is still there to split at |
| `BaselineStore.IndexOf` | aggie_fim.py:109 | the position of the first occurrence of the delimiter |
| `BaselineStore.Translate` | aggie_fim.py:106-107 | text-mode reading leaves no carriage return and changes nothing in a text without one |
| `BaselineStore.TranslateCrLf` | aggie_fim.py:106 | a file written with `\r\n` line ends reads back as the text with `\n` line ends |
| `BaselineStore.TranslateCrOnly` | aggie_fim.py:106 | a file written with lone `\r` line ends reads back as the text with `\n` line ends |
| `BaselineStore.SplitLines` | aggie_fim.py:107 | iterating over the file gives non-empty lines that concatenate back to the text, each ending at its only newline (the last may lack it) |
| `BaselineStore.ParseLine` | aggie_fim.py:108-113 | a line yields a record iff it contains `|` (which record is `ParsePaddedRecord`) |
| `BaselineStore.ParsePaddedRecord` | aggie_fim.py:108-113 | a line made of whitespace, `p|h` and whitespace (with `p` holding no `|` and not starting with whitespace, `h` not ending with whitespace) yields the record `(p, h)`, with a relative `p` made absolute |
| `BaselineStore.LineIsPaddedRecord` | aggie_fim.py:108-109 | every line holding `|` has that shape, so `ParsePaddedRecord` fixes the value of every record the loader reads: strip, split at the first `|`, make the path absolute |
| `BaselineStore.StripPadded` | aggie_fim.py:109 | stripping removes exactly the whitespace around a part whose two ends are not whitespace |
| `BaselineStore.ParsedRecords` | aggie_fim.py:107-113 | no more records than lines (which lines give which records is `ParsedRecordsContents`) |
| `BaselineStore.ParsedRecordsContents` | aggie_fim.py:107-113 | the loader's records are exactly the parses of the lines holding a `|` |
| `BaselineStore.Load` | aggie_fim.py:97-114 | a missing baseline file gives `None`, an existing one (even empty) a well-formed dictionary |
| `BaselineStore.LoadBaseline` | aggie_fim.py:97-114 | the line-by-line loader computes `Load` |
| `BaselineStore.ParseRecordLine` | aggie_fim.py:92 | a written line `p|h` parses back to `(p, h)` when `p` has no `|` and no leading whitespace and `h` no trailing whitespace; a relative `p` is made absolute |
| `BaselineStore.LineWithoutDelimiterSkipped` | aggie_fim.py:108 | a line without `|` contributes nothing to the loaded baseline |
| `BaselineStore.LoadSerialized` | aggie_fim.py:92 | round trip: loading serialised loadable records gives their dictionary back, keys, digests and order |
| `BaselineStore.LoadCreatedBaseline` | aggie_fim.py:88-93 | loading what baseline creation wrote gives the dictionary of the scan's records |
| `BaselineStore.LoadSerializedCrLf` | aggie_fim.py:106-114 | a baseline written with Windows line ends loads to the same dictionary |
| `Monitor.Updates` | aggie_fim.py:163-177 | the first loop gives no more events than there are current paths, each for a current path, and none of them DELETED (one event per path at most is `UpdatesEvents`) |
| `Monitor.Deletes` | aggie_fim.py:179-185 | the second loop reports only DELETED, each for a snapshot path absent from the current state; what survives keeps its digest, and every current path survives |
| `Monitor.Cycle` | aggie_fim.py:163-185 | after a cycle every current path maps to its current digest, and an event's path is current iff the event is not DELETED |
| `Monitor.UpdatesBaseline` | aggie_fim.py:163-177 | after the first loop every current path maps to its current digest, other baseline entries are unchanged, nothing else is added |
| `Monitor.UpdatesEvents` | aggie_fim.py:165-177 | the first loop reports NEW exactly for current paths not in the baseline, MODIFIED exactly for those with a different digest, each path once, no DELETED |
| `Monitor.DeletesEffect` | aggie_fim.py:181-185 | the second loop removes and reports DELETED exactly the snapshot paths absent from the current state and from disk; the rest keep their digests |
| `Monitor.CycleEvents` | aggie_fim.py:163-185 | a cycle reports NEW iff current and not in the baseline, MODIFIED iff in both with different digests, DELETED iff in the baseline, not current and not on disk |
| `Monitor.CycleBaseline` | aggie_fim.py:163-185 | after a cycle the baseline holds exactly the current paths (with their current digests) and the old paths still on disk (with their old digests) |
| `Monitor.CycleReportsOnce` | aggie_fim.py:163-186 | no path gets two events in one cycle, so none is both NEW/MODIFIED and DELETED, and all DELETED events follow the others |
| `Monitor.CycleIdempotent` | aggie_fim.py:176-177 | a second cycle over the same state reports nothing and leaves the baseline unchanged |
| `Monitor.CycleOnUnchangedState` | aggie_fim.py:172 | when the current state equals the baseline, a cycle reports nothing and changes nothing |
| `Monitor.NewChangedDeletedScenario` | aggie_fim.py:165-185 | a file created, overwritten and removed between three cycles is reported NEW, MODIFIED, DELETED, and is then gone from the baseline |
| `Monitor.BaselineTable.constructor` | aggie_fim.py:123 | the in-memory baseline starts as the loaded dictionary |
| `Monitor.BaselineTable.Put` | aggie_fim.py:177 | in-place assignment: the table becomes the old dictionary with the path set |
| `Monitor.BaselineTable.Delete` | aggie_fim.py:185 | in-place `del` of a key that is present |
| `Monitor.BaselineTable.ApplyChanges` | aggie_fim.py:163-177 | the first loop, in place, computes `Updates` |
| `Monitor.BaselineTable.ApplyDeletions` | aggie_fim.py:179-185 | the second loop, over a snapshot of the keys, computes `Deletes` and never deletes a missing key |
| `Monitor.BaselineTable.RunCycle` | aggie_fim.py:160-185 | one cycle in place: the new table and the events are those of `Cycle` |
| `Monitor.CurrentState` | aggie_fim.py:142-158 | the current state is a well-formed dictionary |
| `Monitor.CurrentStateContents` | aggie_fim.py:148-158 | the current state holds exactly the paths of non-own files with a truthy stabilized digest, each mapped to such a digest |
| `Monitor.ScanCurrentFiles` | aggie_fim.py:142-158 | the scan loop computes `CurrentState` of the walk |
| `Monitor.RunPolls` | aggie_fim.py:137-185 | a run of cycles keeps the baseline well-formed and yields one event list per poll |
| `Monitor.MonitorSession` | aggie_fim.py:123-128 | no baseline file means the session is refused; otherwise one event list per poll |
| `Monitor.StartMonitoring` | aggie_fim.py:116-189 | loading, then the cycles over the in-place table, compute `MonitorSession` |

## Left out

- SHA-256 and the chunked reading of `calculate_file_hash` (aggie_fim.py:23-42) are not modelled. Each hash attempt's outcome is an input: a digest, or `None` for the permission and not-found errors. Other I/O errors, which would propagate, are not modelled. Nor are failures to open the baseline file itself (aggie_fim.py:74 for writing, 106 for reading): creation always writes its text, and a baseline file that exists is always readable.
- `os.walk` is not modelled: the directory tree and its listing order are an abstract input. `os.path.join` is modelled as `dir + "/" + name`. The normalisation `abspath` applies to walked paths is not modelled; the walk starts from an absolute root given as a parameter.
- `os.path.isabs` is modelled for POSIX only (a leading `/`). `os.path.abspath` on a relative stored path is the parameter `absPath`.
- `os.path.exists` on a baseline path is the predicate `onDisk`. The existence test of the baseline file becomes an `Option` of its text.
- File encodings are not modelled: the file is a sequence of characters. Writing in text mode is modelled as on POSIX (no newline translation); `LoadSerializedCrLf` shows that a file written on Windows, with `\r\n` line ends, loads the same.
- `time.sleep`, `datetime.now`, `print`, `sys.stdout.flush` and `poll_count` are pacing and console output only. Events carry no timestamp.
- The infinite `while True` and its `KeyboardInterrupt` exit are modelled as a finite list of polls, after which the session stops. The in-memory baseline is discarded, as in the source.
- `ScanCurrentFiles` and `Poll` take the outcomes of any number of hash attempts per file, and so model `stabilize_hash` with any retry count. The source always uses `STABILIZATION_RETRIES`, which is 2 (aggie_fim.py:21, 156). `DefaultRetriesOutcome` states what two attempts give.
- The interactive `main` menu (aggie_fim.py:191-207) is not modelled.
- The `'__file__' in globals()` lookup is not modelled. The walk takes the name as the `scriptName` parameter, and `ScriptName` gives the value the source computes from an optional module file path (`None` when there is no `__file__`), falling back to `DefaultScriptName`.
