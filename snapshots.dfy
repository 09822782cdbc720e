/**
 * Snapshot retention: the volume's snapshots sorted newest first, the
 * `MAX_AGE` newest kept and the rest selected for deletion, and the loop that
 * deletes the selection and counts how many deletions went through.
 */
module Snapshots {
  import opened Wrappers

  /** The retention count used when `MAX_AGE` is not set in the environment. */
  const DEFAULT_MAX_AGE := 14

  /** One described snapshot: its id and its start time (seconds). */
  datatype Snapshot = Snapshot(id: string, startTime: int)

  /** Newest first: no snapshot starts later than one before it. */
  predicate SortedDesc(s: seq<Snapshot>)
  {
    forall i, j :: 0 <= i < j < |s| ==> s[j].startTime <= s[i].startTime
  }

  /** Put `x` after every leading snapshot newer than it, so it precedes any tie. */
  function Insert(x: Snapshot, s: seq<Snapshot>): (r: seq<Snapshot>)
    ensures |r| == |s| + 1
  {
    if s == [] then [x]
    else if s[0].startTime > x.startTime then [s[0]] + Insert(x, s[1..])
    else [x] + s
  }

  /** Inserting adds `x` and loses nothing. */
  lemma {:induction false} InsertPermutes(x: Snapshot, s: seq<Snapshot>)
    ensures multiset(Insert(x, s)) == multiset(s) + multiset{x}
  {
    if s != [] && s[0].startTime > x.startTime {
      InsertPermutes(x, s[1..]);
      assert s == [s[0]] + s[1..];
    }
  }

  /** A bound on `x` and on every snapshot of `s` bounds every snapshot of the insertion. */
  lemma {:induction false} InsertBounded(x: Snapshot, s: seq<Snapshot>, b: int)
    requires x.startTime <= b
    requires forall i :: 0 <= i < |s| ==> s[i].startTime <= b
    ensures forall i :: 0 <= i < |s| + 1 ==> Insert(x, s)[i].startTime <= b
  {
    if s != [] && s[0].startTime > x.startTime {
      InsertBounded(x, s[1..], b);
    }
  }

  /** Inserting into a newest-first sequence keeps it newest first. */
  lemma {:induction false} InsertSorted(x: Snapshot, s: seq<Snapshot>)
    requires SortedDesc(s)
    ensures SortedDesc(Insert(x, s))
  {
    if s != [] && s[0].startTime > x.startTime {
      InsertSorted(x, s[1..]);
      InsertBounded(x, s[1..], s[0].startTime);
    }
  }

  /**
   * `sorted(snapshots, key=StartTime, reverse=True)`: an insertion sort,
   * newest first, that keeps snapshots with equal start times in their order.
   */
  function SortDesc(s: seq<Snapshot>): (r: seq<Snapshot>)
    ensures |r| == |s|
  {
    if s == [] then [] else Insert(s[0], SortDesc(s[1..]))
  }

  /** The sort is a permutation of the described snapshots. */
  lemma {:induction false} SortDescPermutes(s: seq<Snapshot>)
    ensures multiset(SortDesc(s)) == multiset(s)
  {
    if s != [] {
      SortDescPermutes(s[1..]);
      InsertPermutes(s[0], SortDesc(s[1..]));
      assert s == [s[0]] + s[1..];
    }
  }

  /** The sort puts the snapshots newest first. */
  lemma {:induction false} SortDescSorted(s: seq<Snapshot>)
    ensures SortedDesc(SortDesc(s))
  {
    if s != [] {
      SortDescSorted(s[1..]);
      InsertSorted(s[0], SortDesc(s[1..]));
    }
  }

  /** The snapshots of `s` that started at time `t`, in their order in `s`. */
  function StartedAt(s: seq<Snapshot>, t: int): seq<Snapshot>
  {
    if s == [] then [] else Own(s[0], t) + StartedAt(s[1..], t)
  }

  /** `[y]` when `y` started at time `t`, else nothing. */
  function Own(y: Snapshot, t: int): seq<Snapshot>
  {
    if y.startTime == t then [y] else []
  }

  lemma StartedAtCons(y: Snapshot, rest: seq<Snapshot>, t: int)
    ensures StartedAt([y] + rest, t) == Own(y, t) + StartedAt(rest, t)
  {
    assert ([y] + rest)[1..] == rest;
  }

  /** Two pieces of which one is empty can be swapped. */
  lemma SwapDisjoint(a: seq<Snapshot>, b: seq<Snapshot>, c: seq<Snapshot>)
    requires a == [] || b == []
    ensures a + (b + c) == b + (a + c)
  {
    if a == [] {
      assert a + (b + c) == b + c == b + (a + c);
    } else {
      assert a + (b + c) == a + c == b + (a + c);
    }
  }

  /** Inserting `x` puts it ahead of every snapshot with the same start time. */
  lemma {:induction false} StartedAtInsert(x: Snapshot, s: seq<Snapshot>, t: int)
    ensures StartedAt(Insert(x, s), t) == Own(x, t) + StartedAt(s, t)
  {
    if s == [] {
      StartedAtCons(x, [], t);
      assert [x] + [] == [x];
    } else if s[0].startTime > x.startTime {
      var rest := Insert(x, s[1..]);
      StartedAtCons(s[0], rest, t);
      StartedAtInsert(x, s[1..], t);
      assert Insert(x, s) == [s[0]] + rest;
      assert StartedAt(s, t) == Own(s[0], t) + StartedAt(s[1..], t);
      SwapDisjoint(Own(s[0], t), Own(x, t), StartedAt(s[1..], t));
    } else {
      StartedAtCons(x, s, t);
    }
  }

  /** The sort is stable: snapshots with equal start times keep their described order. */
  lemma {:induction false} SortDescStable(s: seq<Snapshot>, t: int)
    ensures StartedAt(SortDesc(s), t) == StartedAt(s, t)
  {
    if s != [] {
      SortDescStable(s[1..], t);
      StartedAtInsert(s[0], SortDesc(s[1..]), t);
    }
  }

  /** `s[k:]` with Python's slice rules: a negative `k` keeps the last `-k` items. */
  function DropPy(s: seq<Snapshot>, k: int): (r: seq<Snapshot>)
    ensures |r| <= |s| && r == s[|s| - |r|..]
    ensures 0 <= k ==> |r| == if k <= |s| then |s| - k else 0
    ensures k < 0 ==> |r| == if -k <= |s| then -k else |s|
  {
    if k >= 0 then s[if k <= |s| then k else |s|..]
    else s[if |s| + k >= 0 then |s| + k else 0..]
  }

  /** What a suffix of `t` leaves out is the prefix before it. */
  lemma SuffixRemainder(t: seq<Snapshot>, r: seq<Snapshot>)
    requires |r| <= |t| && r == t[|t| - |r|..]
    ensures multiset(r) <= multiset(t)
    ensures multiset(t) - multiset(r) == multiset(t[..|t| - |r|])
  {
    assert t == t[..|t| - |r|] + r;
  }

  /** A suffix of a newest-first sequence is newest first. */
  lemma SuffixSorted(t: seq<Snapshot>, r: seq<Snapshot>)
    requires SortedDesc(t)
    requires |r| <= |t| && r == t[|t| - |r|..]
    ensures SortedDesc(r)
  {
    var m := |t| - |r|;
    forall i, j | 0 <= i < j < |r|
      ensures r[j].startTime <= r[i].startTime
    {
      assert r[i] == t[m + i] && r[j] == t[m + j];
    }
  }

  /** Nothing in a suffix of a newest-first sequence is newer than what precedes it. */
  lemma SuffixNoNewer(t: seq<Snapshot>, r: seq<Snapshot>)
    requires SortedDesc(t)
    requires |r| <= |t| && r == t[|t| - |r|..]
    ensures forall x, y :: x in multiset(t[..|t| - |r|]) && y in r ==> y.startTime <= x.startTime
  {
    var m := |t| - |r|;
    forall x, y | x in multiset(t[..m]) && y in r
      ensures y.startTime <= x.startTime
    {
      var i :| 0 <= i < m && t[..m][i] == x;
      var j :| 0 <= j < |r| && r[j] == y;
      assert t[i] == x && t[m + j] == y;
    }
  }

  /** The described snapshots; a response without a snapshot list describes none. */
  function Described(described: Option<seq<Snapshot>>): seq<Snapshot>
  {
    if described.Some? then described.value else []
  }

  /**
   * `get_snapshots`: the described snapshots newest first with the first
   * `maxAge` skipped; a response without a snapshot list selects nothing.
   */
  function GetSnapshots(described: Option<seq<Snapshot>>, maxAge: int): (r: seq<Snapshot>)
    ensures described.None? ==> r == []
    ensures 0 <= maxAge ==> |r| == if maxAge <= |Described(described)| then |Described(described)| - maxAge else 0
    ensures maxAge < 0 ==> |r| == if -maxAge <= |Described(described)| then -maxAge else |Described(described)|
  {
    DropPy(SortDesc(Described(described)), maxAge)
  }

  /**
   * The selection is part of what was described, newest first, and no
   * selected snapshot is newer than any of the ones kept.
   */
  lemma Selection(described: Option<seq<Snapshot>>, maxAge: int)
    ensures var r := GetSnapshots(described, maxAge);
      && multiset(r) <= multiset(Described(described))
      && SortedDesc(r)
      && forall x, y :: x in multiset(Described(described)) - multiset(r) && y in r ==> y.startTime <= x.startTime
  {
    var all := Described(described);
    var t, r := SortDesc(all), GetSnapshots(described, maxAge);
    SortDescSorted(all);
    SortDescPermutes(all);
    SuffixRemainder(t, r);
    SuffixSorted(t, r);
    SuffixNoNewer(t, r);
  }

  /** How many of the first `n` delete calls went through. */
  function Succeeded(ok: nat -> bool, n: nat): (c: nat)
    ensures c <= n
  {
    if n == 0 then 0 else Succeeded(ok, n - 1) + (if ok(n - 1) then 1 else 0)
  }

  /** Every attempt counts as deleted exactly when every delete call returned, and none when none did. */
  lemma {:induction false} SucceededBounds(ok: nat -> bool, n: nat)
    ensures Succeeded(ok, n) == n <==> forall i :: 0 <= i < n ==> ok(i)
    ensures Succeeded(ok, n) == 0 <==> forall i :: 0 <= i < n ==> !ok(i)
  {
    if n > 0 {
      SucceededBounds(ok, n - 1);
    }
  }

  /** The ids of the first `n` snapshots of `s`, in order. */
  function IdsTo(s: seq<Snapshot>, n: nat): (r: seq<string>)
    requires n <= |s|
    ensures |r| == n && forall i :: 0 <= i < n ==> r[i] == s[i].id
  {
    if n == 0 then [] else IdsTo(s, n - 1) + [s[n - 1].id]
  }

  /** The EC2 client, as the sequence of snapshot ids it was asked to delete. */
  class Ec2 {
    var requested: seq<string>

    constructor ()
      ensures requested == []
    {
      requested := [];
    }

    /** `delete_snapshot`: ask for one deletion; 1 when the call returned, 0 when it raised. */
    method DeleteSnapshot(snapshot: Snapshot, ok: bool) returns (r: nat)
      modifies this
      ensures requested == old(requested) + [snapshot.id]
      ensures r <= 1 && (r == 1 <==> ok)
    {
      requested := requested + [snapshot.id];
      r := if ok then 1 else 0;
    }
  }

  /**
   * `main`: delete every selected snapshot, counting the attempts in `total`
   * and the deletions that went through in `deleted`; `ok(i)` is whether the
   * `i`-th delete call returned.
   */
  method DeleteOldSnapshots(client: Ec2, described: Option<seq<Snapshot>>, maxAge: int, ok: nat -> bool)
    returns (deleted: nat, total: nat)
    modifies client
    ensures var selected := GetSnapshots(described, maxAge);
      && total == |selected|
      && deleted == Succeeded(ok, total)
      && client.requested == old(client.requested) + IdsTo(selected, |selected|)
    ensures deleted <= total
  {
    var snapshots := GetSnapshots(described, maxAge);
    ghost var before := client.requested;
    deleted, total := 0, 0;
    for i := 0 to |snapshots|
      invariant total == i && deleted == Succeeded(ok, i)
      invariant client.requested == before + IdsTo(snapshots, i)
    {
      total := total + 1;
      var d := client.DeleteSnapshot(snapshots[i], ok(i));
      deleted := deleted + d;
    }
  }

  /**
   * With `MAX_AGE` unset the 14 newest snapshots are kept: all but 14 are
   * selected, and exactly 14 (or all, when there are fewer) stay behind.
   */
  lemma DefaultRetention(described: Option<seq<Snapshot>>)
    ensures var all := Described(described);
      var r := GetSnapshots(described, DEFAULT_MAX_AGE);
      && |r| == (if |all| <= DEFAULT_MAX_AGE then 0 else |all| - DEFAULT_MAX_AGE)
      && multiset(r) <= multiset(all)
      && |multiset(all) - multiset(r)| == (if |all| <= DEFAULT_MAX_AGE then |all| else DEFAULT_MAX_AGE)
  {
    var all := Described(described);
    var t, r := SortDesc(all), GetSnapshots(described, DEFAULT_MAX_AGE);
    var m := |t| - |r|;
    assert m == (if |all| <= DEFAULT_MAX_AGE then |all| else DEFAULT_MAX_AGE);
    SortDescPermutes(all);
    SuffixRemainder(t, r);
    assert multiset(all) - multiset(r) == multiset(t[..m]);
    assert |multiset(t[..m])| == |t[..m]| == m;
  }

  /** With no more snapshots than `maxAge`, nothing is selected, so nothing is deleted. */
  lemma FewSnapshotsSelectNothing(described: Option<seq<Snapshot>>, maxAge: int, ok: nat -> bool)
    requires 0 <= maxAge
    requires described.Some? ==> |described.value| <= maxAge
    ensures GetSnapshots(described, maxAge) == []
    ensures Succeeded(ok, |GetSnapshots(described, maxAge)|) == 0
  {
  }

  /**
   * Keeping the newest one of three snapshots selects the other two, newest
   * first; of two snapshots started at the same time the one described first
   * stays first.
   */
  lemma RetentionExample()
    ensures GetSnapshots(Some([Snapshot("a", 3), Snapshot("b", 1), Snapshot("c", 2)]), 1)
      == [Snapshot("c", 2), Snapshot("b", 1)]
    ensures GetSnapshots(Some([Snapshot("a", 1), Snapshot("b", 2), Snapshot("c", 1)]), 1)
      == [Snapshot("a", 1), Snapshot("c", 1)]
  {
    var a, b, c := Snapshot("a", 3), Snapshot("b", 1), Snapshot("c", 2);
    assert [a, b, c][1..] == [b, c] && [b, c][1..] == [c] && [c][1..] == [];
    assert SortDesc([c]) == [c];
    assert SortDesc([b, c]) == Insert(b, [c]) == [c] + [b];
    assert SortDesc([a, b, c]) == [a, c, b];
    var d, e, f := Snapshot("a", 1), Snapshot("b", 2), Snapshot("c", 1);
    assert [d, e, f][1..] == [e, f] && [e, f][1..] == [f] && [f][1..] == [];
    assert SortDesc([f]) == [f];
    assert SortDesc([e, f]) == Insert(e, [f]) == [e, f];
    assert Insert(d, [f]) == [d, f];
    assert Insert(d, [e, f]) == [e] + [d, f];
    assert SortDesc([d, e, f]) == [e, d, f];
  }
}
