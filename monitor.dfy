/**
  The monitoring loop: one polling cycle classifies the current state of the
  tree against the in-memory baseline (NEW, MODIFIED, DELETED), and updates
  that baseline in place; a session loads the baseline and runs a finite
  number of cycles. The existence check on disk is an abstract predicate.
 */
module Monitor {
  import opened Wrappers
  import opened Dicts
  import opened Stabilizer
  import opened Traversal
  import opened BaselineStore

  /** The three alerts, without their timestamps. */
  datatype Event = NewFile(path: Path) | FileChanged(path: Path) | FileDeleted(path: Path)

  predicate PathsDistinct(evs: seq<Event>) {
    forall i, j :: 0 <= i < j < |evs| ==> evs[i].path != evs[j].path
  }

  /**
    The first loop of a cycle, over the current paths `ks` in order: a path
    the baseline lacks is NEW, one whose digest differs is MODIFIED, and both
    are written into the baseline, which the loop tests as it changes it.
   */
  function Updates(base: Dict, ks: seq<Path>, cur: map<Path, Digest>): (r: (Dict, seq<Event>))
    requires forall p :: p in ks ==> p in cur
    ensures |r.1| <= |ks|
    ensures forall e :: e in r.1 ==> e.path in ks && !e.FileDeleted?
  {
    if ks == [] then (base, [])
    else
      var init := ks[..|ks| - 1];
      assert forall p :: p in init ==> p in ks;
      var (d, evs) := Updates(base, init, cur);
      var p := ks[|ks| - 1];
      if p !in d.values then (d.Put(p, cur[p]), evs + [NewFile(p)])
      else if d.values[p] != cur[p] then (d.Put(p, cur[p]), evs + [FileChanged(p)])
      else (d, evs)
  }

  /**
    The second loop of a cycle, over a snapshot `ks` of the baseline's keys:
    a path missing from the current state that no longer exists on disk is
    DELETED and dropped from the baseline.
   */
  function Deletes(d: Dict, ks: seq<Path>, cur: map<Path, Digest>, onDisk: Path -> bool): (r: (Dict, seq<Event>))
    ensures forall e :: e in r.1 ==> e.path in ks && e.path !in cur && e.FileDeleted?
    ensures forall p :: p in r.0.values ==> p in d.values && r.0.values[p] == d.values[p]
    ensures forall p :: p in d.values && p in cur ==> p in r.0.values
  {
    if ks == [] then (d, [])
    else
      var (e, evs) := Deletes(d, ks[..|ks| - 1], cur, onDisk);
      var p := ks[|ks| - 1];
      if p !in cur && !onDisk(p) then (e.Remove(p), evs + [FileDeleted(p)])
      else (e, evs)
  }

  /** One cycle against the current state `cur`: the new baseline and the events, in the order they are printed. */
  function Cycle(base: Dict, cur: Dict, onDisk: Path -> bool): (r: (Dict, seq<Event>))
    requires cur.Valid()
    ensures forall p :: p in cur.values ==> p in r.0.values && r.0.values[p] == cur.values[p]
    ensures forall e :: e in r.1 ==> (e.path in cur.values <==> !e.FileDeleted?)
  {
    UpdatesDigests(base, cur.keys, cur.values);
    var (merged, changes) := Updates(base, cur.keys, cur.values);
    var (after, deletions) := Deletes(merged, merged.keys, cur.values, onDisk);
    (after, changes + deletions)
  }

  lemma {:induction false} UpdatesValid(base: Dict, ks: seq<Path>, cur: map<Path, Digest>)
    requires base.Valid() && forall p :: p in ks ==> p in cur
    ensures Updates(base, ks, cur).0.Valid()
    ensures forall p :: p in Updates(base, ks, cur).0.values <==> p in base.values || p in ks
  {
    if ks != [] {
      var init := ks[..|ks| - 1];
      assert ks == init + [ks[|ks| - 1]];
      assert forall q :: q in init ==> q in ks;
      UpdatesValid(base, init, cur);
    }
  }

  /**
    The baseline after the first loop: every current path maps to its
    current digest, the other entries are unchanged, nothing else is added.
   */
  lemma {:induction false} UpdatesBaseline(base: Dict, ks: seq<Path>, cur: map<Path, Digest>)
    requires base.Valid() && forall p :: p in ks ==> p in cur
    ensures Updates(base, ks, cur).0.Valid()
    ensures forall p :: p in Updates(base, ks, cur).0.values <==> p in base.values || p in ks
    ensures forall p :: p in ks ==> Updates(base, ks, cur).0.values[p] == cur[p]
    ensures forall p :: p in base.values && p !in ks ==> Updates(base, ks, cur).0.values[p] == base.values[p]
  {
    UpdatesValid(base, ks, cur);
    UpdatesDigests(base, ks, cur);
  }

  lemma {:induction false} UpdatesDigests(base: Dict, ks: seq<Path>, cur: map<Path, Digest>)
    requires forall p :: p in ks ==> p in cur
    ensures forall p :: p in ks ==> p in Updates(base, ks, cur).0.values && Updates(base, ks, cur).0.values[p] == cur[p]
    ensures forall p :: p in base.values && p !in ks ==> p in Updates(base, ks, cur).0.values && Updates(base, ks, cur).0.values[p] == base.values[p]
  {
    if ks != [] {
      var init := ks[..|ks| - 1];
      assert ks == init + [ks[|ks| - 1]];
      assert forall q :: q in init ==> q in ks;
      UpdatesDigests(base, init, cur);
    }
  }

  /** The state the first loop meets at path `ks[|ks| - 1]`, which it has not visited yet. */
  lemma UpdatesBefore(base: Dict, ks: seq<Path>, cur: map<Path, Digest>)
    requires ks != [] && Distinct(ks) && forall p :: p in ks ==> p in cur
    ensures forall q :: q in ks[..|ks| - 1] ==> q in cur
    ensures var p := ks[|ks| - 1];
      var d0 := Updates(base, ks[..|ks| - 1], cur).0;
      (p in d0.values <==> p in base.values) && (p in base.values ==> d0.values[p] == base.values[p])
  {
    var init := ks[..|ks| - 1];
    assert forall q :: q in init ==> q in ks;
    assert ks[|ks| - 1] !in init;
    UpdatesDigests(base, init, cur);
    UpdatesKeys(base, init, cur);
  }

  lemma {:induction false} UpdatesKeys(base: Dict, ks: seq<Path>, cur: map<Path, Digest>)
    requires forall p :: p in ks ==> p in cur
    ensures forall p :: p in Updates(base, ks, cur).0.values ==> p in base.values || p in ks
  {
    if ks != [] {
      var init := ks[..|ks| - 1];
      assert ks == init + [ks[|ks| - 1]];
      assert forall q :: q in init ==> q in ks;
      UpdatesKeys(base, init, cur);
    }
  }

  lemma {:induction false} UpdatesNew(base: Dict, ks: seq<Path>, cur: map<Path, Digest>)
    requires Distinct(ks) && forall p :: p in ks ==> p in cur
    ensures forall p :: NewFile(p) in Updates(base, ks, cur).1 <==> p in ks && p !in base.values
  {
    if ks != [] {
      var init := ks[..|ks| - 1];
      var p := ks[|ks| - 1];
      assert ks == init + [p];
      UpdatesBefore(base, ks, cur);
      UpdatesNew(base, init, cur);
    }
  }

  lemma {:induction false} UpdatesChanged(base: Dict, ks: seq<Path>, cur: map<Path, Digest>)
    requires Distinct(ks) && forall p :: p in ks ==> p in cur
    ensures forall p :: FileChanged(p) in Updates(base, ks, cur).1 <==> p in ks && p in base.values && base.values[p] != cur[p]
  {
    if ks != [] {
      var init := ks[..|ks| - 1];
      var p := ks[|ks| - 1];
      assert ks == init + [p];
      UpdatesBefore(base, ks, cur);
      UpdatesChanged(base, init, cur);
    }
  }

  lemma {:induction false} UpdatesDistinct(base: Dict, ks: seq<Path>, cur: map<Path, Digest>)
    requires Distinct(ks) && forall p :: p in ks ==> p in cur
    ensures PathsDistinct(Updates(base, ks, cur).1)
  {
    if ks != [] {
      var init := ks[..|ks| - 1];
      var p := ks[|ks| - 1];
      assert ks == init + [p];
      assert p !in init;
      assert forall q :: q in init ==> q in ks;
      UpdatesDistinct(base, init, cur);
      var (d0, e0) := Updates(base, init, cur);
      assert forall e :: e in e0 ==> e.path != p;
      AppendFreshPath(e0, NewFile(p));
      AppendFreshPath(e0, FileChanged(p));
    }
  }

  /** The second loop never drops a path it has not visited. */
  lemma {:induction false} DeletesKeeps(d: Dict, ks: seq<Path>, cur: map<Path, Digest>, onDisk: Path -> bool, p: Path)
    requires p in d.values && p !in ks
    ensures p in Deletes(d, ks, cur, onDisk).0.values
  {
    if ks != [] {
      assert ks[|ks| - 1] != p;
      assert p !in ks[..|ks| - 1];
      DeletesKeeps(d, ks[..|ks| - 1], cur, onDisk, p);
    }
  }

  /**
    The events of the first loop: NEW exactly for the current paths the
    baseline lacks, MODIFIED exactly for those whose digest differs, each
    path at most once, and no deletion.
   */
  lemma UpdatesEvents(base: Dict, ks: seq<Path>, cur: map<Path, Digest>)
    requires Distinct(ks) && forall p :: p in ks ==> p in cur
    ensures forall e :: e in Updates(base, ks, cur).1 ==> e.path in ks && !e.FileDeleted?
    ensures forall p :: NewFile(p) in Updates(base, ks, cur).1 <==> p in ks && p !in base.values
    ensures forall p :: FileChanged(p) in Updates(base, ks, cur).1 <==> p in ks && p in base.values && base.values[p] != cur[p]
    ensures PathsDistinct(Updates(base, ks, cur).1)
  {
    UpdatesNew(base, ks, cur);
    UpdatesChanged(base, ks, cur);
    UpdatesDistinct(base, ks, cur);
  }

  lemma {:induction false} AppendFreshPath(evs: seq<Event>, e: Event)
    requires PathsDistinct(evs) && forall x :: x in evs ==> x.path != e.path
    ensures PathsDistinct(evs + [e])
  {
    forall i, j | 0 <= i < j < |evs| + 1 ensures (evs + [e])[i].path != (evs + [e])[j].path {
      if j == |evs| {
        assert evs[i] in evs;
      }
    }
  }

  lemma {:induction false} DeletesBaseline(d: Dict, ks: seq<Path>, cur: map<Path, Digest>, onDisk: Path -> bool)
    requires d.Valid()
    ensures Deletes(d, ks, cur, onDisk).0.Valid()
    ensures forall p :: p in Deletes(d, ks, cur, onDisk).0.values <==> p in d.values && !(p in ks && p !in cur && !onDisk(p))
  {
    if ks != [] {
      var init := ks[..|ks| - 1];
      assert ks == init + [ks[|ks| - 1]];
      DeletesBaseline(d, init, cur, onDisk);
    }
  }

  lemma {:induction false} DeletesEvents(d: Dict, ks: seq<Path>, cur: map<Path, Digest>, onDisk: Path -> bool)
    requires Distinct(ks)
    ensures forall p :: FileDeleted(p) in Deletes(d, ks, cur, onDisk).1 <==> p in ks && p !in cur && !onDisk(p)
    ensures PathsDistinct(Deletes(d, ks, cur, onDisk).1)
  {
    if ks != [] {
      var init := ks[..|ks| - 1];
      var p := ks[|ks| - 1];
      assert ks == init + [p];
      assert p !in init;
      DeletesEvents(d, init, cur, onDisk);
      var e0 := Deletes(d, init, cur, onDisk).1;
      assert forall e :: e in e0 ==> e.path != p;
      AppendFreshPath(e0, FileDeleted(p));
    }
  }

  /**
    The second loop removes, and reports as DELETED, exactly the snapshot
    paths that are neither current nor on disk; the other entries keep their
    digests.
   */
  lemma {:induction false} DeletesEffect(d: Dict, ks: seq<Path>, cur: map<Path, Digest>, onDisk: Path -> bool)
    requires d.Valid() && Distinct(ks)
    ensures Deletes(d, ks, cur, onDisk).0.Valid()
    ensures forall p :: p in Deletes(d, ks, cur, onDisk).0.values <==> p in d.values && !(p in ks && p !in cur && !onDisk(p))
    ensures forall p :: p in Deletes(d, ks, cur, onDisk).0.values ==> Deletes(d, ks, cur, onDisk).0.values[p] == d.values[p]
    ensures forall e :: e in Deletes(d, ks, cur, onDisk).1 ==> e.path in ks && e.FileDeleted?
    ensures forall p :: FileDeleted(p) in Deletes(d, ks, cur, onDisk).1 <==> p in ks && p !in cur && !onDisk(p)
    ensures PathsDistinct(Deletes(d, ks, cur, onDisk).1)
  {
    DeletesBaseline(d, ks, cur, onDisk);
    DeletesEvents(d, ks, cur, onDisk);
  }

  /**
    Exactly these events: NEW for the current paths the baseline lacks,
    MODIFIED for the current paths whose digest differs from the baseline's,
    DELETED for the baseline paths that are neither in the current state nor
    on disk. A path with an unchanged digest gets no event.
   */
  lemma CycleEvents(base: Dict, cur: Dict, onDisk: Path -> bool)
    requires base.Valid() && cur.Valid()
    ensures var evs := Cycle(base, cur, onDisk).1;
      && (forall p :: NewFile(p) in evs <==> p in cur.values && p !in base.values)
      && (forall p :: FileChanged(p) in evs <==> p in cur.values && p in base.values && base.values[p] != cur.values[p])
      && (forall p :: FileDeleted(p) in evs <==> p in base.values && p !in cur.values && !onDisk(p))
  {
    UpdatesBaseline(base, cur.keys, cur.values);
    UpdatesEvents(base, cur.keys, cur.values);
    var (merged, changes) := Updates(base, cur.keys, cur.values);
    DeletesEffect(merged, merged.keys, cur.values, onDisk);
  }

  /**
    The baseline after a cycle: every current path maps to its current
    digest; a path missing from the current state but still on disk keeps its
    old digest; nothing else is in it.
   */
  lemma CycleBaseline(base: Dict, cur: Dict, onDisk: Path -> bool)
    requires base.Valid() && cur.Valid()
    ensures var after := Cycle(base, cur, onDisk).0;
      && after.Valid()
      && (forall p :: p in after.values <==> p in cur.values || (p in base.values && onDisk(p)))
      && (forall p :: p in cur.values ==> after.values[p] == cur.values[p])
      && (forall p :: p in base.values && p !in cur.values && onDisk(p) ==> after.values[p] == base.values[p])
  {
    UpdatesBaseline(base, cur.keys, cur.values);
    var (merged, changes) := Updates(base, cur.keys, cur.values);
    DeletesEffect(merged, merged.keys, cur.values, onDisk);
  }

  /**
    No path is reported twice in one cycle (so never both NEW or MODIFIED and
    DELETED), and every DELETED comes after every NEW and MODIFIED.
   */
  lemma CycleReportsOnce(base: Dict, cur: Dict, onDisk: Path -> bool)
    requires base.Valid() && cur.Valid()
    ensures var evs := Cycle(base, cur, onDisk).1;
      && PathsDistinct(evs)
      && forall i, j :: 0 <= i < j < |evs| && evs[i].FileDeleted? ==> evs[j].FileDeleted?
  {
    UpdatesBaseline(base, cur.keys, cur.values);
    UpdatesEvents(base, cur.keys, cur.values);
    var (merged, changes) := Updates(base, cur.keys, cur.values);
    DeletesEffect(merged, merged.keys, cur.values, onDisk);
    var deletions := Deletes(merged, merged.keys, cur.values, onDisk).1;
    ChangesThenDeletions(changes, deletions, cur.values);
  }

  lemma {:induction false} ChangesThenDeletions(changes: seq<Event>, deletions: seq<Event>, cur: map<Path, Digest>)
    requires PathsDistinct(changes) && forall e :: e in changes ==> !e.FileDeleted? && e.path in cur
    requires PathsDistinct(deletions) && forall e :: e in deletions ==> e.FileDeleted? && e.path !in cur
    ensures var evs := changes + deletions;
      && PathsDistinct(evs)
      && forall i, j :: 0 <= i < j < |evs| && evs[i].FileDeleted? ==> evs[j].FileDeleted?
  {
    var evs := changes + deletions;
    forall i, j | 0 <= i < j < |evs| ensures evs[i].path != evs[j].path {
      if i < |changes| && j >= |changes| {
        assert changes[i] in changes && deletions[j - |changes|] in deletions;
      }
    }
    assert forall i :: 0 <= i < |changes| ==> changes[i] in changes;
    assert forall i :: 0 <= i < |changes| ==> !evs[i].FileDeleted?;
    forall i, j | 0 <= i < j < |evs| && evs[i].FileDeleted? ensures evs[j].FileDeleted? {
      assert deletions[j - |changes|] in deletions;
    }
  }

  lemma {:induction false} UpdatesNoChange(base: Dict, ks: seq<Path>, cur: map<Path, Digest>)
    requires forall p :: p in ks ==> p in cur && p in base.values && base.values[p] == cur[p]
    ensures Updates(base, ks, cur) == (base, [])
  {
    if ks != [] {
      assert forall q :: q in ks[..|ks| - 1] ==> q in ks;
      UpdatesNoChange(base, ks[..|ks| - 1], cur);
    }
  }

  lemma {:induction false} DeletesNoChange(d: Dict, ks: seq<Path>, cur: map<Path, Digest>, onDisk: Path -> bool)
    requires forall p :: p in ks ==> p in cur || onDisk(p)
    ensures Deletes(d, ks, cur, onDisk) == (d, [])
  {
    if ks != [] {
      assert forall q :: q in ks[..|ks| - 1] ==> q in ks;
      DeletesNoChange(d, ks[..|ks| - 1], cur, onDisk);
    }
  }

  /** Alerts are not repeated: a second cycle over the same state reports nothing and leaves the baseline as it is. */
  lemma CycleIdempotent(base: Dict, cur: Dict, onDisk: Path -> bool)
    requires base.Valid() && cur.Valid()
    ensures Cycle(base, cur, onDisk).0.Valid()
    ensures Cycle(Cycle(base, cur, onDisk).0, cur, onDisk) == (Cycle(base, cur, onDisk).0, [])
  {
    CycleBaseline(base, cur, onDisk);
    var after := Cycle(base, cur, onDisk).0;
    UpdatesNoChange(after, cur.keys, cur.values);
    DeletesNoChange(after, after.keys, cur.values, onDisk);
    var none: seq<Event> := [];
    assert none + none == none;
  }

  /** A tree whose state is exactly the baseline's gives no events and leaves the baseline as it is. */
  lemma CycleOnUnchangedState(d: Dict, onDisk: Path -> bool)
    requires d.Valid()
    ensures Cycle(d, d, onDisk) == (d, [])
  {
    UpdatesNoChange(d, d.keys, d.values);
    DeletesNoChange(d, d.keys, d.values, onDisk);
    var none: seq<Event> := [];
    assert none + none == none;
  }

  lemma ScenarioCreated(a: Path, x: Digest, onDisk: Path -> bool)
    ensures Cycle(Empty, Dict([a], map[a := x]), onDisk) == (Dict([a], map[a := x]), [NewFile(a)])
  {
    var noEvents: seq<Event> := [];
    assert [a][..0] == [] && [] + [a] == [a];
    assert noEvents + [NewFile(a)] == [NewFile(a)] && [NewFile(a)] + noEvents == [NewFile(a)];
    assert Updates(Empty, [], map[a := x]) == (Empty, []);
    assert Empty.Put(a, x) == Dict([a], map[a := x]);
    assert Updates(Empty, [a], map[a := x]) == (Dict([a], map[a := x]), [NewFile(a)]);
    assert Deletes(Dict([a], map[a := x]), [a], map[a := x], onDisk) == (Dict([a], map[a := x]), []);
  }

  lemma ScenarioChanged(a: Path, x: Digest, y: Digest, onDisk: Path -> bool)
    requires x != y
    ensures Cycle(Dict([a], map[a := x]), Dict([a], map[a := y]), onDisk) == (Dict([a], map[a := y]), [FileChanged(a)])
  {
    var noEvents: seq<Event> := [];
    var before := Dict([a], map[a := x]);
    assert [a][..0] == [];
    assert noEvents + [FileChanged(a)] == [FileChanged(a)] && [FileChanged(a)] + noEvents == [FileChanged(a)];
    assert Updates(before, [], map[a := y]) == (before, []);
    assert before.Put(a, y) == Dict([a], map[a := y]);
    assert Updates(before, [a], map[a := y]) == (Dict([a], map[a := y]), [FileChanged(a)]);
    assert Deletes(Dict([a], map[a := y]), [a], map[a := y], onDisk) == (Dict([a], map[a := y]), []);
  }

  lemma ScenarioDeleted(a: Path, y: Digest, onDisk: Path -> bool)
    requires !onDisk(a)
    ensures Cycle(Dict([a], map[a := y]), Empty, onDisk).1 == [FileDeleted(a)]
    ensures a !in Cycle(Dict([a], map[a := y]), Empty, onDisk).0.values
  {
    var noEvents: seq<Event> := [];
    var before := Dict([a], map[a := y]);
    assert [a][..0] == [];
    assert noEvents + [FileDeleted(a)] == [FileDeleted(a)];
    assert Updates(before, [], map[]) == (before, []);
    assert Deletes(before, [], map[], onDisk) == (before, []);
    assert Deletes(before, [a], map[], onDisk) == (before.Remove(a), [FileDeleted(a)]);
  }

  /** A file created, then overwritten, then removed between three cycles: NEW, then MODIFIED, then DELETED, and it is gone from the baseline. */
  lemma NewChangedDeletedScenario(a: Path, x: Digest, y: Digest, onDisk: Path -> bool)
    requires x != y && !onDisk(a)
    ensures var c1 := Cycle(Empty, Dict([a], map[a := x]), onDisk);
      var c2 := Cycle(c1.0, Dict([a], map[a := y]), onDisk);
      var c3 := Cycle(c2.0, Empty, onDisk);
      c1.1 == [NewFile(a)] && c2.1 == [FileChanged(a)] && c3.1 == [FileDeleted(a)] && a !in c3.0.values
  {
    ScenarioCreated(a, x, onDisk);
    ScenarioChanged(a, x, y, onDisk);
    ScenarioDeleted(a, y, onDisk);
  }

  /** The in-memory baseline of a monitoring session, a dictionary updated in place. */
  class BaselineTable {
    var keys: seq<Path>
    var digests: map<Path, Digest>

    function Contents(): Dict
      reads this
    {
      Dict(keys, digests)
    }

    ghost predicate Valid()
      reads this
    {
      Contents().Valid()
    }

    constructor (loaded: Dict)
      requires loaded.Valid()
      ensures Valid() && Contents() == loaded
    {
      keys, digests := loaded.keys, loaded.values;
    }

    /** `baseline_hashes[p] = h`. */
    method Put(p: Path, h: Digest)
      requires Valid()
      modifies this
      ensures Valid() && Contents() == old(Contents()).Put(p, h)
    {
      if p !in digests {
        keys := keys + [p];
      }
      digests := digests[p := h];
    }

    /** `del baseline_hashes[p]`. */
    method Delete(p: Path)
      requires Valid() && p in digests
      modifies this
      ensures Valid() && Contents() == old(Contents()).Remove(p)
    {
      keys := RemoveKey(keys, p);
      digests := digests - {p};
    }

    /** The first loop of a cycle: record NEW and MODIFIED files into the baseline. */
    method ApplyChanges(current: Dict) returns (changes: seq<Event>)
      requires Valid() && current.Valid()
      modifies this
      ensures Valid()
      ensures (Contents(), changes) == Updates(old(Contents()), current.keys, current.values)
    {
      ghost var base := Contents();
      changes := [];
      for i := 0 to |current.keys|
        invariant Valid()
        invariant (Contents(), changes) == Updates(base, current.keys[..i], current.values)
      {
        var p := current.keys[i];
        var currentHash := current.values[p];
        assert current.keys[..i + 1][..i] == current.keys[..i];
        if p !in digests {
          Put(p, currentHash);
          changes := changes + [NewFile(p)];
        } else if digests[p] != currentHash {
          Put(p, currentHash);
          changes := changes + [FileChanged(p)];
        }
      }
      assert current.keys[..|current.keys|] == current.keys;
    }

    /** The second loop of a cycle: drop from the baseline, over a snapshot of its keys, the files confirmed gone. */
    method ApplyDeletions(current: Dict, onDisk: Path -> bool) returns (deletions: seq<Event>)
      requires Valid()
      modifies this
      ensures Valid()
      ensures (Contents(), deletions) == Deletes(old(Contents()), old(keys), current.values, onDisk)
    {
      ghost var merged := Contents();
      var snapshot := keys;
      deletions := [];
      for i := 0 to |snapshot|
        invariant Valid()
        invariant (Contents(), deletions) == Deletes(merged, snapshot[..i], current.values, onDisk)
      {
        var p := snapshot[i];
        assert snapshot[..i + 1][..i] == snapshot[..i];
        if p !in current.values && !onDisk(p) {
          assert p !in snapshot[..i];
          DeletesKeeps(merged, snapshot[..i], current.values, onDisk, p);
          Delete(p);
          deletions := deletions + [FileDeleted(p)];
        }
      }
      assert snapshot[..|snapshot|] == snapshot;
    }

    /** One cycle: compare `current` with the baseline, update it in place, return the events in order. */
    method RunCycle(current: Dict, onDisk: Path -> bool) returns (events: seq<Event>)
      requires Valid() && current.Valid()
      modifies this
      ensures Valid()
      ensures (Contents(), events) == Cycle(old(Contents()), current, onDisk)
    {
      var changes := ApplyChanges(current);
      var deletions := ApplyDeletions(current, onDisk);
      events := changes + deletions;
    }
  }

  /** The files met by the walk with their stabilized digests. */
  function StabilizedListings(ls: seq<Listing<seq<Option<Digest>>>>): seq<Listing<Option<Digest>>> {
    seq(|ls|, i requires 0 <= i < |ls| => Listing(ls[i].dir, ls[i].name, Stabilized(ls[i].payload)))
  }

  /** A listed file that enters the current state: not the tool's own, with a truthy stabilized digest. */
  predicate Scanned(l: Listing<seq<Option<Digest>>>, scriptName: string) {
    !IsOwnFile(l.name, scriptName) && Recorded(Stabilized(l.payload))
  }

  /** The current state built by a scan. */
  function CurrentState(ls: seq<Listing<seq<Option<Digest>>>>, scriptName: string): (d: Dict)
    ensures d.Valid()
  {
    ToDict(Records(StabilizedListings(ls), scriptName))
  }

  /**
    The current state holds exactly the paths of the files that are not the
    tool's own and whose stabilized digest is truthy, each mapped to the
    stabilized digest of such a file at that path.
   */
  lemma CurrentStateContents(ls: seq<Listing<seq<Option<Digest>>>>, scriptName: string)
    ensures forall p :: p in CurrentState(ls, scriptName).values <==>
                          exists i :: 0 <= i < |ls| && Scanned(ls[i], scriptName) && Join(ls[i].dir, ls[i].name) == p
    ensures forall p :: p in CurrentState(ls, scriptName).values ==>
                          exists i :: 0 <= i < |ls| && Scanned(ls[i], scriptName) && Join(ls[i].dir, ls[i].name) == p
                                      && Stabilized(ls[i].payload) == Some(CurrentState(ls, scriptName).values[p])
  {
    forall p | p in CurrentState(ls, scriptName).values {
      CurrentStateFrom(ls, scriptName, p);
    }
    forall i | 0 <= i < |ls| && Scanned(ls[i], scriptName) {
      CurrentStateHas(ls, scriptName, i);
    }
  }

  lemma CurrentStateFrom(ls: seq<Listing<seq<Option<Digest>>>>, scriptName: string, p: Path)
    requires p in CurrentState(ls, scriptName).values
    ensures exists i :: 0 <= i < |ls| && Scanned(ls[i], scriptName) && Join(ls[i].dir, ls[i].name) == p
                        && Stabilized(ls[i].payload) == Some(CurrentState(ls, scriptName).values[p])
  {
    var sl := StabilizedListings(ls);
    var rs := Records(sl, scriptName);
    var h := ToDict(rs).values[p];
    assert (p, h) in rs;
    RecordsContents(sl, scriptName);
    var i :| 0 <= i < |sl| && Kept(sl[i], scriptName) && (p, h) == RecordOf(sl[i]);
    var l := ls[i];
    assert sl[i] == Listing(l.dir, l.name, Stabilized(l.payload));
    assert Scanned(l, scriptName) && Join(l.dir, l.name) == p && Stabilized(l.payload) == Some(h);
  }

  lemma CurrentStateHas(ls: seq<Listing<seq<Option<Digest>>>>, scriptName: string, i: nat)
    requires i < |ls| && Scanned(ls[i], scriptName)
    ensures Join(ls[i].dir, ls[i].name) in CurrentState(ls, scriptName).values
  {
    var sl := StabilizedListings(ls);
    var rs := Records(sl, scriptName);
    assert sl[i] == Listing(ls[i].dir, ls[i].name, Stabilized(ls[i].payload));
    assert Kept(sl[i], scriptName);
    RecordsContents(sl, scriptName);
    assert RecordOf(sl[i]) in rs;
    var k :| 0 <= k < |rs| && rs[k] == RecordOf(sl[i]);
  }

  /** The scan of one cycle: walk the tree, skip the tool's own files, stabilize each digest, keep the truthy ones. */
  method ScanCurrentFiles(tree: Tree<seq<Option<Digest>>>, root: Path, scriptName: string) returns (current: Dict)
    ensures current == CurrentState(Walk(tree, root), scriptName)
  {
    var ls := Walk(tree, root);
    current := Empty;
    for i := 0 to |ls|
      invariant current == ToDict(Records(StabilizedListings(ls[..i]), scriptName))
    {
      var l := ls[i];
      var before := StabilizedListings(ls[..i]);
      var sl := StabilizedListings(ls[..i + 1]);
      assert sl[..i] == before;
      assert sl[i] == Listing(l.dir, l.name, Stabilized(l.payload));
      assert Records(sl, scriptName) == Records(before, scriptName) + (if Kept(sl[i], scriptName) then [RecordOf(sl[i])] else []);
      assert Records(before, scriptName) + [] == Records(before, scriptName);
      if !IsOwnFile(l.name, scriptName) {
        var currentHash, _ := StabilizeHash(l.payload);
        if Recorded(currentHash) {
          ToDictAppend(Records(before, scriptName), RecordOf(sl[i]));
          current := current.Put(Join(l.dir, l.name), currentHash.value);
        }
      }
    }
    assert ls[..|ls|] == ls;
  }

  /** What one poll observes: the tree, with the outcomes of the hash attempts per file, and which paths exist on disk. */
  datatype Poll = Poll(tree: Tree<seq<Option<Digest>>>, onDisk: Path -> bool)

  /** The outcome of a monitoring session: refused for want of a baseline, or the events of each cycle until interrupted. */
  datatype Session = BaselineNotFound | Stopped(alerts: seq<seq<Event>>)

  /** The cycles of a session: the baseline they leave and the events of each. */
  function RunPolls(base: Dict, polls: seq<Poll>, root: Path, scriptName: string): (r: (Dict, seq<seq<Event>>))
    requires base.Valid()
    ensures r.0.Valid() && |r.1| == |polls|
  {
    if polls == [] then (base, [])
    else
      var (b, alerts) := RunPolls(base, polls[..|polls| - 1], root, scriptName);
      var poll := polls[|polls| - 1];
      var current := CurrentState(Walk(poll.tree, root), scriptName);
      CycleBaseline(b, current, poll.onDisk);
      var (after, events) := Cycle(b, current, poll.onDisk);
      (after, alerts + [events])
  }

  lemma RunPollsStep(base: Dict, polls: seq<Poll>, i: nat, root: Path, scriptName: string)
    requires base.Valid() && i < |polls|
    ensures var (b, alerts) := RunPolls(base, polls[..i], root, scriptName);
      var current := CurrentState(Walk(polls[i].tree, root), scriptName);
      var (after, events) := Cycle(b, current, polls[i].onDisk);
      RunPolls(base, polls[..i + 1], root, scriptName) == (after, alerts + [events])
  {
    assert polls[..i + 1][..i] == polls[..i];
  }

  /** A session: no baseline file means no monitoring; otherwise one list of events per poll. */
  function MonitorSession(file: Option<string>, absPath: Path -> Path, root: Path, scriptName: string, polls: seq<Poll>): (s: Session)
    ensures s.BaselineNotFound? <==> file.None?
    ensures s.Stopped? ==> |s.alerts| == |polls|
  {
    match Load(file, absPath)
    case None => BaselineNotFound
    case Some(b) => Stopped(RunPolls(b, polls, root, scriptName).1)
  }

  /** `start_monitoring` over a finite number of polls. */
  method StartMonitoring(file: Option<string>, absPath: Path -> Path, root: Path, scriptName: string, polls: seq<Poll>)
    returns (s: Session)
    ensures s == MonitorSession(file, absPath, root, scriptName, polls)
  {
    var loaded := LoadBaseline(file, absPath);
    if loaded.None? {
      return BaselineNotFound;
    }
    var table := new BaselineTable(loaded.value);
    var alerts: seq<seq<Event>> := [];
    for i := 0 to |polls|
      invariant table.Valid()
      invariant (table.Contents(), alerts) == RunPolls(loaded.value, polls[..i], root, scriptName)
    {
      RunPollsStep(loaded.value, polls, i, root, scriptName);
      var current := ScanCurrentFiles(polls[i].tree, root, scriptName);
      var events := table.RunCycle(current, polls[i].onDisk);
      alerts := alerts + [events];
    }
    assert polls[..|polls|] == polls;
    s := Stopped(alerts);
  }
}
