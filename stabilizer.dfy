/**
  The stabilizer: hash a file up to `retries` times and stop as soon as two
  successful hashes in a row agree; otherwise keep the last successful hash.
  The hasher and the delay between attempts are abstract: the outcome of each
  attempt is given as an input, `None` for a failed attempt (the file vanished
  or could not be opened).
 */
module Stabilizer {
  import opened Wrappers
  import opened Dicts

  /** The number of hash attempts per file when none is given. */
  const DefaultRetries: nat := 2

  /** The most recent successful attempt of `s`: the value `last_hash` has after trying `s` without settling. */
  function LastSuccess(s: seq<Option<Digest>>): (r: Option<Digest>)
    ensures r.Some? ==> r in s
    ensures r.None? <==> forall i :: 0 <= i < |s| ==> s[i].None?
  {
    if s == [] then None
    else if s[|s| - 1].Some? then s[|s| - 1]
    else
      assert forall i :: 0 <= i < |s| - 1 ==> s[..|s| - 1][i] == s[i];
      LastSuccess(s[..|s| - 1])
  }

  /** It is the last one: some attempt returned it, and every later attempt failed. */
  lemma {:induction false} LastSuccessIsLast(s: seq<Option<Digest>>)
    requires LastSuccess(s).Some?
    ensures exists i :: 0 <= i < |s| && s[i] == LastSuccess(s) && forall j :: i < j < |s| ==> s[j].None?
  {
    if s[|s| - 1].None? {
      var init := s[..|s| - 1];
      LastSuccessIsLast(init);
      var i :| 0 <= i < |init| && init[i] == LastSuccess(init) && forall j :: i < j < |init| ==> init[j].None?;
      assert s[i] == LastSuccess(s) && forall j :: i < j < |s| ==> s[j].None?;
    }
  }

  /** Attempt `i` succeeds with the same digest as the previous successful attempt, failures in between notwithstanding. */
  predicate Settles(s: seq<Option<Digest>>, i: nat)
    requires i < |s|
  {
    s[i].Some? && LastSuccess(s[..i]) == s[i]
  }

  /** A successful attempt followed only by failures is the last success. */
  lemma {:induction false} LastSuccessOf(t: seq<Option<Digest>>, j: nat)
    requires j < |t| && t[j].Some? && forall k :: j < k < |t| ==> t[k].None?
    ensures LastSuccess(t) == t[j]
  {
    if j < |t| - 1 {
      var init := t[..|t| - 1];
      assert init[j] == t[j];
      assert forall k :: j < k < |init| ==> init[k] == t[k];
      LastSuccessOf(init, j);
    }
  }

  /**
    Attempt `i` settles iff it succeeds with the digest of the latest earlier
    successful attempt: the failures in between do not reset `last_hash`.
   */
  lemma SettlesIff(s: seq<Option<Digest>>, i: nat)
    requires i < |s|
    ensures Settles(s, i) <==>
      s[i].Some? && exists j :: 0 <= j < i && s[j] == s[i] && forall k :: j < k < i ==> s[k].None?
  {
    var p := s[..i];
    assert forall k :: 0 <= k < i ==> p[k] == s[k];
    if Settles(s, i) {
      LastSuccessIsLast(p);
      var j :| 0 <= j < |p| && p[j] == LastSuccess(p) && forall k :: j < k < |p| ==> p[k].None?;
      assert s[j] == s[i] && forall k :: j < k < i ==> s[k].None?;
    }
    if s[i].Some? && exists j :: 0 <= j < i && s[j] == s[i] && forall k :: j < k < i ==> s[k].None? {
      var j :| 0 <= j < i && s[j] == s[i] && forall k :: j < k < i ==> s[k].None?;
      LastSuccessOf(p, j);
    }
  }

  /** The first attempt at or after `from` that settles, if any. */
  function FirstSettle(s: seq<Option<Digest>>, from: nat): (r: Option<nat>)
    requires from <= |s|
    ensures r.Some? ==> from <= r.value < |s| && Settles(s, r.value)
    ensures r.Some? ==> forall j :: from <= j < r.value ==> !Settles(s, j)
    ensures r.None? ==> forall j :: from <= j < |s| ==> !Settles(s, j)
    decreases |s| - from
  {
    if from == |s| then None
    else if Settles(s, from) then Some(from)
    else FirstSettle(s, from + 1)
  }

  /** What the stabilizer returns for the attempt outcomes `s`. */
  function Stabilized(s: seq<Option<Digest>>): (r: Option<Digest>)
    ensures r.None? <==> forall i :: 0 <= i < |s| ==> s[i].None?
    ensures r.Some? ==> r in s
  {
    match FirstSettle(s, 0)
    case Some(i) => s[i]
    case None => LastSuccess(s)
  }

  /** How many times the stabilizer calls the hasher for the attempt outcomes `s`. */
  function Calls(s: seq<Option<Digest>>): (n: nat)
    ensures n <= |s|
    ensures (exists j :: 0 <= j < |s| && Settles(s, j)) <==> 0 < n && Settles(s, n - 1)
    ensures forall j :: 0 <= j < n - 1 ==> !Settles(s, j)
    ensures n < |s| ==> 0 < n && Settles(s, n - 1)
  {
    match FirstSettle(s, 0)
    case Some(i) => i + 1
    case None => |s|
  }

  /**
    The retry loop: `attempts[i]` is what the hasher returns on the i-th call,
    so `|attempts|` is the retry count. Returns the digest and the number of
    hasher calls made.
   */
  method StabilizeHash(attempts: seq<Option<Digest>>) returns (h: Option<Digest>, calls: nat)
    ensures h == Stabilized(attempts)
    ensures calls == Calls(attempts)
  {
    var lastHash: Option<Digest> := None;
    calls := 0;
    for i := 0 to |attempts|
      invariant calls == i
      invariant lastHash == LastSuccess(attempts[..i])
      invariant forall j :: 0 <= j < i ==> !Settles(attempts, j)
    {
      var attempt := attempts[i];
      calls := calls + 1;
      assert attempts[..i + 1][..i] == attempts[..i];
      if attempt.Some? {
        if lastHash.None? {
          lastHash := attempt;
        } else {
          if attempt == lastHash {
            assert Settles(attempts, i);
            h := attempt;
            return;
          }
          lastHash := attempt;
        }
      }
    }
    assert attempts[..|attempts|] == attempts;
    h := lastHash;
  }

  /** The result is the last successful hash among the attempts actually made. */
  lemma StabilizedIsLastSuccessMade(s: seq<Option<Digest>>)
    ensures Calls(s) <= |s| && Stabilized(s) == LastSuccess(s[..Calls(s)])
  {
    match FirstSettle(s, 0)
    case Some(i) =>
      assert s[..i + 1][..i] == s[..i];
    case None =>
      assert s[..|s|] == s;
  }

  lemma {:induction false} FailuresKeepLastSuccess(p: seq<Option<Digest>>, k: nat)
    ensures LastSuccess(p + seq(k, _ => None)) == LastSuccess(p)
  {
    if k == 0 {
      assert p + seq(k, _ => None) == p;
    } else {
      var s := p + seq(k, _ => None);
      assert s[..|s| - 1] == p + seq(k - 1, _ => None);
      FailuresKeepLastSuccess(p, k - 1);
    }
  }

  /** Failed attempts between two equal hashes do not reset `last_hash`: the second hash settles. */
  lemma {:induction false} FailuresDoNotReset(d: Digest, k: nat)
    ensures var s := [Some(d)] + seq(k, _ => None) + [Some(d)];
      Stabilized(s) == Some(d) && Calls(s) == k + 2
  {
    var s := [Some(d)] + seq(k, _ => None) + [Some(d)];
    FailuresKeepLastSuccess([Some(d)], k);
    assert s[..k + 1] == [Some(d)] + seq(k, _ => None);
    assert Settles(s, k + 1);
    forall j | 0 <= j < k + 1 ensures !Settles(s, j) {
      if j == 0 {
        assert s[..0] == [];
      } else {
        assert s[j] == None;
      }
    }
  }

  /** A file whose every read succeeds with a digest different from the one before never settles: all attempts are made and the last digest is returned. */
  lemma {:induction false} NeverSettlingReturnsLast(s: seq<Option<Digest>>)
    requires |s| > 0
    requires forall i :: 0 <= i < |s| ==> s[i].Some?
    requires forall i :: 0 < i < |s| ==> s[i] != s[i - 1]
    ensures Stabilized(s) == s[|s| - 1] && Calls(s) == |s|
  {
    forall i | 0 <= i < |s| ensures !Settles(s, i) {
      if i > 0 {
        assert s[..i][i - 1] == s[i - 1];
      }
    }
  }

  /** With the default two retries the hasher is always called twice, and the second hash wins unless it failed. */
  lemma DefaultRetriesOutcome(s: seq<Option<Digest>>)
    requires |s| == DefaultRetries
    ensures Stabilized(s) == (if s[1].Some? then s[1] else s[0])
    ensures Calls(s) == DefaultRetries
  {
    assert s[..0] == [] && s[..1] == [s[0]];
    assert !Settles(s, 0);
    assert FirstSettle(s, 2) == None;
  }
}
