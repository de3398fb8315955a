/**
  The Python dictionaries of the monitor: path -> digest, with CPython's
  insertion order, so that the order in which a loop over a dictionary visits
  its keys (and so the order of the events it prints) is part of the model.
 */
module Dicts {

  /** A file path; the monitor uses absolute paths as keys. */
  type Path = string

  /** A hex-encoded content digest of a file (the output of `hexdigest()`). */
  type Digest = string

  predicate Distinct(ks: seq<Path>) {
    forall i, j :: 0 <= i < j < |ks| ==> ks[i] != ks[j]
  }

  /** `ks` without `p`, the other keys in their order. */
  function RemoveKey(ks: seq<Path>, p: Path): (r: seq<Path>)
    ensures forall q :: q in r <==> q in ks && q != p
    ensures Distinct(ks) ==> Distinct(r)
    ensures p !in ks ==> r == ks
  {
    if ks == [] then []
    else
      var rest := RemoveKey(ks[1..], p);
      assert Distinct(ks) ==> Distinct(ks[1..]) && ks[0] !in ks[1..];
      assert p !in ks ==> p !in ks[1..] && ks == [ks[0]] + ks[1..];
      if ks[0] == p then rest else [ks[0]] + rest
  }

  /** Removing a key listed once, at position `i`, closes the gap and keeps the others in order. */
  lemma {:induction false} RemoveKeyAt(ks: seq<Path>, p: Path, i: nat)
    requires Distinct(ks) && i < |ks| && ks[i] == p
    ensures RemoveKey(ks, p) == ks[..i] + ks[i + 1..]
  {
    if i == 0 {
      assert p !in ks[1..];
    } else {
      var t := ks[1..];
      assert ks[0] != p by { assert ks[0] != ks[i]; }
      assert Distinct(t) by {
        forall a, b | 0 <= a < b < |t| ensures t[a] != t[b] {
          assert t[a] == ks[a + 1] && t[b] == ks[b + 1];
        }
      }
      assert t[i - 1] == p;
      RemoveKeyAt(t, p, i - 1);
      assert RemoveKey(ks, p) == [ks[0]] + RemoveKey(t, p);
      assert ks[..i] + ks[i + 1..] == [ks[0]] + (t[..i - 1] + t[i..]);
    }
  }

  /** A dictionary: its keys in insertion order and the mapping itself. */
  datatype Dict = Dict(keys: seq<Path>, values: map<Path, Digest>) {

    /** The keys are listed once each, and exactly the mapped paths are listed. */
    ghost predicate Valid() {
      Distinct(keys) && forall p :: p in values <==> p in keys
    }

    /** `d[p] = h`: a key already present keeps its place, a new key goes last. */
    function Put(p: Path, h: Digest): (r: Dict)
      ensures r.values == values[p := h]
      ensures Valid() ==> r.Valid()
      ensures p in keys ==> r.keys == keys
      ensures p !in keys ==> r.keys == keys + [p]
    {
      if p in keys then Dict(keys, values[p := h]) else Dict(keys + [p], values[p := h])
    }

    /** `del d[p]`: the other keys keep their order. */
    function Remove(p: Path): (r: Dict)
      ensures r.values == values - {p}
      ensures Valid() ==> r.Valid()
      ensures p !in keys ==> r.keys == keys
      ensures Valid() ==> forall i :: 0 <= i < |keys| && keys[i] == p ==> r.keys == keys[..i] + keys[i + 1..]
    {
      assert Valid() ==> forall i :: 0 <= i < |keys| && keys[i] == p ==> RemoveKey(keys, p) == keys[..i] + keys[i + 1..] by {
        if Valid() {
          forall i | 0 <= i < |keys| && keys[i] == p {
            RemoveKeyAt(keys, p, i);
          }
        }
      }
      Dict(RemoveKey(keys, p), values - {p})
    }
  }

  const Empty := Dict([], map[])

  /** The dictionary built by assigning each pair in order: a later pair for a path overwrites an earlier one. */
  function ToDict(rs: seq<(Path, Digest)>): (d: Dict)
    ensures d.Valid()
    ensures forall p :: p in d.values <==> exists i :: 0 <= i < |rs| && rs[i].0 == p
    ensures forall p :: p in d.values ==> (p, d.values[p]) in rs
  {
    if rs == [] then Empty
    else
      var init := ToDict(rs[..|rs| - 1]);
      assert forall i :: 0 <= i < |rs| - 1 ==> rs[..|rs| - 1][i] == rs[i];
      init.Put(rs[|rs| - 1].0, rs[|rs| - 1].1)
  }

  lemma {:induction false} ToDictAppend(rs: seq<(Path, Digest)>, r: (Path, Digest))
    ensures ToDict(rs + [r]) == ToDict(rs).Put(r.0, r.1)
  {
    assert (rs + [r])[..|rs|] == rs;
  }

  /** The value a path gets is that of its last pair. */
  lemma {:induction false} ToDictLastWins(rs: seq<(Path, Digest)>, i: nat)
    requires i < |rs|
    requires forall j :: i < j < |rs| ==> rs[j].0 != rs[i].0
    ensures rs[i].0 in ToDict(rs).values && ToDict(rs).values[rs[i].0] == rs[i].1
  {
    if i < |rs| - 1 {
      var init := rs[..|rs| - 1];
      assert forall j :: i < j < |init| ==> init[j] == rs[j];
      ToDictLastWins(init, i);
    }
  }
}
