/**
  The directory traversal shared by baseline creation and monitoring: which
  sub-directories are descended into, which files are skipped as the tool's
  own, and which files end up recorded. The directory tree and the hashing
  are abstract: each file carries a payload (a digest outcome, or the outcomes
  of several hash attempts).
 */
module Traversal {
  import opened Wrappers
  import opened Dicts
  import opened Seqs

  /** The file holding the persisted baseline. */
  const BaselineFile: string := "baseline.txt"

  /** The script's own file name when it cannot be looked up. */
  const DefaultScriptName: string := "aggie_fim.py"

  /** The pruning test of the `dirs[:]` comprehension: is sub-directory `d` walked into? */
  predicate Descend(d: string)
    ensures Descend(d) <==> !(|d| > 0 && d[0] == '.') && d != "__pycache__"
  {
    !(|d| > 0 && d[0] == '.') && d !in [".venv", "__pycache__"]
  }

  datatype FileNode<F> = FileNode(name: string, payload: F)

  /** A directory as `os.walk` lists it: its files and its sub-directories, in listing order. */
  datatype Tree<F> = Dir(name: string, files: seq<FileNode<F>>, subdirs: seq<Tree<F>>)

  /** One file met by the walk: the directory's path, the file's name, its payload. */
  datatype Listing<F> = Listing(dir: Path, name: string, payload: F)

  /** `os.path.join`; the normalisation `abspath` adds is not modelled. */
  function Join(dir: Path, name: string): Path {
    dir + "/" + name
  }

  function FileListings<F>(files: seq<FileNode<F>>, dir: Path): seq<Listing<F>> {
    seq(|files|, i requires 0 <= i < |files| => Listing(dir, files[i].name, files[i].payload))
  }

  /**
    The `dirs[:]` comprehension over the sub-directories `os.walk` lists
    (each given by its subtree, which carries its name): the ones walked
    into, in listing order.
   */
  function PruneDirs<F>(dirs: seq<Tree<F>>): (kept: seq<Tree<F>>)
    ensures |kept| <= |dirs|
    ensures forall i :: 0 <= i < |kept| ==> kept[i] in dirs && Descend(kept[i].name)
    ensures forall i :: 0 <= i < |dirs| && Descend(dirs[i].name) ==> dirs[i] in kept
  {
    if dirs == [] then []
    else (if Descend(dirs[0].name) then [dirs[0]] else []) + PruneDirs(dirs[1..])
  }

  /** The comprehension keeps the listing order: it filters each part of a listing on its own. */
  lemma {:induction false} PruneDirsAppend<F>(a: seq<Tree<F>>, b: seq<Tree<F>>)
    ensures PruneDirs(a + b) == PruneDirs(a) + PruneDirs(b)
  {
    if a != [] {
      assert (a + b)[1..] == a[1..] + b;
      PruneDirsAppend(a[1..], b);
    } else {
      assert a + b == b;
    }
  }

  /** A single listed sub-directory is kept iff the pruning test lets it through. */
  lemma PruneDirsSingle<F>(d: Tree<F>)
    ensures PruneDirs([d]) == if Descend(d.name) then [d] else []
  {
    assert [d][1..] == [];
  }

  /**
    The files met by a top-down walk from `t` at path `dir`: the directory's
    own files first, in listing order, then the walk of each sub-directory
    that survives pruning; every file met lies under `dir`.
   */
  function Walk<F>(t: Tree<F>, dir: Path): (ls: seq<Listing<F>>)
    ensures |t.files| <= |ls| && ls[..|t.files|] == FileListings(t.files, dir)
    ensures forall k :: 0 <= k < |ls| ==> dir <= ls[k].dir
    decreases t, 1
  {
    var own := FileListings(t.files, dir);
    var below := WalkDirs(t, PruneDirs(t.subdirs), dir);
    assert forall k :: 0 <= k < |own| ==> own[k].dir == dir;
    assert (own + below)[..|t.files|] == own;
    own + below
  }

  /** The files met under the sub-directories `subs` of `t`, one sub-directory after the other. */
  function WalkDirs<F>(t: Tree<F>, subs: seq<Tree<F>>, dir: Path): (ls: seq<Listing<F>>)
    requires forall k :: 0 <= k < |subs| ==> subs[k] in t.subdirs
    ensures forall k :: 0 <= k < |ls| ==> dir <= ls[k].dir
    decreases t, 0, |subs|
  {
    if subs == [] then []
    else
      var c := subs[0];
      assert c in t.subdirs;
      var first := Walk(c, Join(dir, c.name));
      var rest := WalkDirs(t, subs[1..], dir);
      UnderJoin(first, dir, c.name);
      UnderConcat(first, rest, dir);
      first + rest
  }

  /** Files met under `Join(dir, name)` lie under `dir`. */
  lemma UnderJoin<F>(ls: seq<Listing<F>>, dir: Path, name: string)
    requires forall k :: 0 <= k < |ls| ==> Join(dir, name) <= ls[k].dir
    ensures forall k :: 0 <= k < |ls| ==> dir <= ls[k].dir
  {
    var sub := Join(dir, name);
    assert dir <= sub;
    forall k | 0 <= k < |ls| ensures dir <= ls[k].dir {
      assert ls[k].dir[..|dir|] == sub[..|dir|];
    }
  }

  /** Two listings under `dir` concatenate to one under `dir`. */
  lemma UnderConcat<F>(a: seq<Listing<F>>, b: seq<Listing<F>>, dir: Path)
    requires forall k :: 0 <= k < |a| ==> dir <= a[k].dir
    requires forall k :: 0 <= k < |b| ==> dir <= b[k].dir
    ensures forall k :: 0 <= k < |a + b| ==> dir <= (a + b)[k].dir
  {
    assert forall k :: 0 <= k < |b| ==> (a + b)[|a| + k] == b[k];
  }

  /** The walk of a list of sub-directories does not depend on the parent it is taken from. */
  lemma {:induction false} WalkDirsAnyParent<F>(t: Tree<F>, u: Tree<F>, subs: seq<Tree<F>>, dir: Path)
    requires forall k :: 0 <= k < |subs| ==> subs[k] in t.subdirs && subs[k] in u.subdirs
    ensures WalkDirs(t, subs, dir) == WalkDirs(u, subs, dir)
    decreases |subs|
  {
    if subs != [] {
      WalkDirsAnyParent(t, u, subs[1..], dir);
    }
  }

  /** Sub-directories are walked one after the other, in the order given. */
  lemma {:induction false} WalkDirsAppend<F>(t: Tree<F>, a: seq<Tree<F>>, b: seq<Tree<F>>, dir: Path)
    requires forall k :: 0 <= k < |a| ==> a[k] in t.subdirs
    requires forall k :: 0 <= k < |b| ==> b[k] in t.subdirs
    ensures WalkDirs(t, a + b, dir) == WalkDirs(t, a, dir) + WalkDirs(t, b, dir)
    decreases |a|
  {
    if a == [] {
      assert a + b == b;
    } else {
      assert (a + b)[0] == a[0] && (a + b)[1..] == a[1..] + b;
      WalkDirsAppend(t, a[1..], b, dir);
      var w := Walk(a[0], Join(dir, a[0].name));
      ConcatAssoc(w, WalkDirs(t, a[1..], dir), WalkDirs(t, b, dir));
    }
  }

  /** Walking one more sub-directory `c` after `a` appends the walk of `c`, under its joined path. */
  lemma WalkDirsSnoc<F>(t: Tree<F>, a: seq<Tree<F>>, c: Tree<F>, dir: Path)
    requires forall k :: 0 <= k < |a| ==> a[k] in t.subdirs
    requires c in t.subdirs
    ensures WalkDirs(t, a + [c], dir) == WalkDirs(t, a, dir) + Walk(c, Join(dir, c.name))
  {
    WalkDirsAppend(t, a, [c], dir);
    var w := Walk(c, Join(dir, c.name));
    assert WalkDirs(t, [c], dir) == w by {
      assert [c][1..] == [];
      assert w + [] == w;
    }
  }

  /** A kept sub-directory listed last is walked into: its own walk, under its joined path, follows the rest. */
  lemma KeptSubdirWalked<F>(t: Tree<F>, c: Tree<F>, dir: Path)
    requires Descend(c.name)
    ensures Walk(t.(subdirs := t.subdirs + [c]), dir) == Walk(t, dir) + Walk(c, Join(dir, c.name))
  {
    var u := t.(subdirs := t.subdirs + [c]);
    var own := FileListings(t.files, dir);
    var kept := PruneDirs(t.subdirs);
    var w := Walk(c, Join(dir, c.name));
    var below := WalkDirs(t, kept, dir);
    PruneDirsAppend(t.subdirs, [c]);
    PruneDirsSingle(c);
    WalkDirsSnoc(u, kept, c, dir);
    WalkDirsAnyParent(u, t, kept, dir);
    ConcatAssoc(own, below, w);
  }

  /** A pruned sub-directory listed last is not walked into. */
  lemma PrunedSubdirSkipped<F>(t: Tree<F>, c: Tree<F>, dir: Path)
    requires !Descend(c.name)
    ensures Walk(t.(subdirs := t.subdirs + [c]), dir) == Walk(t, dir)
  {
    var u := t.(subdirs := t.subdirs + [c]);
    PruneDirsAppend(t.subdirs, [c]);
    PruneDirsSingle(c);
    assert PruneDirs(u.subdirs) == PruneDirs(t.subdirs);
    WalkDirsAnyParent(u, t, PruneDirs(t.subdirs), dir);
  }

  /** A directory without sub-directories lists its own files and nothing else. */
  lemma WalkLeaf<F>(t: Tree<F>, dir: Path)
    ensures Walk(t.(subdirs := []), dir) == FileListings(t.files, dir)
  {
    var u := t.(subdirs := []);
    assert PruneDirs(u.subdirs) == [];
    assert FileListings(t.files, dir) + [] == FileListings(t.files, dir);
  }

  /** Replacing a pruned sub-directory by another of the same name leaves the kept list as it was. */
  lemma PruneReplacePruned<F>(s: seq<Tree<F>>, i: nat, c: Tree<F>)
    requires i < |s| && !Descend(s[i].name) && c.name == s[i].name
    ensures PruneDirs(s[i := c]) == PruneDirs(s)
  {
    assert s == s[..i] + [s[i]] + s[i + 1..];
    assert s[i := c] == s[..i] + [c] + s[i + 1..];
    PruneDirsAppend(s[..i] + [s[i]], s[i + 1..]);
    PruneDirsAppend(s[..i], [s[i]]);
    PruneDirsAppend(s[..i] + [c], s[i + 1..]);
    PruneDirsAppend(s[..i], [c]);
    PruneDirsSingle(s[i]);
    PruneDirsSingle(c);
  }

  /** A pruned sub-directory (".git", "__pycache__", ...) is never scanned: whatever it holds, the walk is the same. */
  lemma PrunedSubtreeIgnored<F>(t: Tree<F>, i: nat, c: Tree<F>, dir: Path)
    requires i < |t.subdirs| && !Descend(t.subdirs[i].name) && c.name == t.subdirs[i].name
    ensures Walk(t.(subdirs := t.subdirs[i := c]), dir) == Walk(t, dir)
  {
    var u := t.(subdirs := t.subdirs[i := c]);
    PruneReplacePruned(t.subdirs, i, c);
    WalkDirsAnyParent(u, t, PruneDirs(t.subdirs), dir);
  }

  /** `os.path.basename` on POSIX: what follows the last '/'. */
  function Basename(p: Path): (b: string)
    ensures |b| <= |p| && b == p[|p| - |b|..]
    ensures '/' !in b
    ensures |b| < |p| ==> p[|p| - |b| - 1] == '/'
  {
    if p == [] || p[|p| - 1] == '/' then []
    else
      var q := p[..|p| - 1];
      var b := Basename(q);
      assert forall k :: 0 <= k < |b| ==> b[k] == p[|p| - 1 - |b| + k];
      b + [p[|p| - 1]]
  }

  /** The name the tool skips as its own script: the base name of its module file, or the fallback when it has none. */
  function ScriptName(moduleFile: Option<Path>): (name: string)
    ensures moduleFile.None? ==> name == DefaultScriptName
    ensures moduleFile.Some? ==> '/' !in name && |name| <= |moduleFile.value| && moduleFile.value[|moduleFile.value| - |name|..] == name
    ensures moduleFile.Some? && |name| < |moduleFile.value| ==> moduleFile.value[|moduleFile.value| - |name| - 1] == '/'
  {
    match moduleFile
    case None => DefaultScriptName
    case Some(f) => Basename(f)
  }

  /** The script itself and the baseline file are skipped, by file name, in every directory. */
  predicate IsOwnFile(name: string, scriptName: string) {
    name == scriptName || name == BaselineFile
  }

  /** `if file_hash:`: a missing digest and an empty one are both false in Python. */
  predicate Recorded(digest: Option<Digest>) {
    digest.Some? && digest.value != ""
  }

  predicate Kept(l: Listing<Option<Digest>>, scriptName: string) {
    !IsOwnFile(l.name, scriptName) && Recorded(l.payload)
  }

  function RecordOf(l: Listing<Option<Digest>>): (Path, Digest)
    requires l.payload.Some?
  {
    (Join(l.dir, l.name), l.payload.value)
  }

  /** The (path, digest) pairs recorded for the listed files, in walk order. */
  function Records(ls: seq<Listing<Option<Digest>>>, scriptName: string): (rs: seq<(Path, Digest)>)
    ensures |rs| <= |ls|
  {
    if ls == [] then []
    else
      var l := ls[|ls| - 1];
      Records(ls[..|ls| - 1], scriptName) + (if Kept(l, scriptName) then [RecordOf(l)] else [])
  }

  /** A record is written exactly for each listed file that is kept. */
  lemma {:induction false} RecordsContents(ls: seq<Listing<Option<Digest>>>, scriptName: string)
    ensures forall r :: r in Records(ls, scriptName) <==> exists i :: 0 <= i < |ls| && Kept(ls[i], scriptName) && r == RecordOf(ls[i])
  {
    if ls != [] {
      var init := ls[..|ls| - 1];
      RecordsContents(init, scriptName);
      assert forall i :: 0 <= i < |ls| - 1 ==> init[i] == ls[i];
    }
  }

  lemma {:induction false} RecordsAppend(a: seq<Listing<Option<Digest>>>, b: seq<Listing<Option<Digest>>>, scriptName: string)
    ensures Records(a + b, scriptName) == Records(a, scriptName) + Records(b, scriptName)
  {
    if b != [] {
      assert (a + b)[..|a + b| - 1] == a + b[..|b| - 1];
      RecordsAppend(a, b[..|b| - 1], scriptName);
    } else {
      assert a + b == a;
    }
  }

  /** A file named like the script or the baseline file contributes nothing: dropping it from the listing changes no record. */
  lemma OwnFileIgnored(ls: seq<Listing<Option<Digest>>>, i: nat, scriptName: string)
    requires i < |ls| && IsOwnFile(ls[i].name, scriptName)
    ensures Records(ls[..i] + ls[i + 1..], scriptName) == Records(ls, scriptName)
  {
    assert ls == ls[..i] + [ls[i]] + ls[i + 1..];
    RecordsAppend(ls[..i] + [ls[i]], ls[i + 1..], scriptName);
    RecordsAppend(ls[..i], [ls[i]], scriptName);
    RecordsAppend(ls[..i], ls[i + 1..], scriptName);
    assert Records([ls[i]], scriptName) == [] by {
      assert [ls[i]][..0] == [];
    }
  }
}
