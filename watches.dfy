/** The two-watched-literal structures: `watchers` (per clause index, the
    list of watched literals) and `watchList` (per literal, the set of clause
    indices watching it), with the operations that change them. */
module Watches {
  import opened Cnf

  type WatchTable = map<nat, seq<int>>
  type WatchIndex = map<int, set<nat>>

  /** Clause `idx` is filed under literal `l` in the index. */
  predicate Filed(watchList: WatchIndex, l: int, idx: nat)
  {
    l in watchList && idx in watchList[l]
  }

  /** `watch_list.get(l, [])` */
  function Pending(watchList: WatchIndex, l: int): set<nat>
  {
    if l in watchList then watchList[l] else {}
  }

  /** The table has one entry per clause index, and the index files only clause indices. */
  ghost predicate WellShaped(watchers: WatchTable, watchList: WatchIndex, n: nat)
  {
    && (forall idx: nat :: idx in watchers <==> idx < n)
    && (forall l, idx: nat :: Filed(watchList, l, idx) ==> idx < n)
  }

  /** One direction of the index: a clause is filed under a literal only if it watches it. */
  ghost predicate IndexSound(watchers: WatchTable, watchList: WatchIndex)
  {
    forall l, idx: nat :: Filed(watchList, l, idx) ==> idx in watchers && l in watchers[idx]
  }

  /** Both directions: clause `idx` is filed under `l` exactly when `l` is in `watchers[idx]`. */
  ghost predicate IndexConsistent(watchers: WatchTable, watchList: WatchIndex)
  {
    && IndexSound(watchers, watchList)
    && forall idx, l :: idx in watchers && l in watchers[idx] ==> Filed(watchList, l, idx)
  }

  /** Every watched literal belongs to its own clause. */
  ghost predicate WatchesOwnLiterals(clauses: Formula, watchers: WatchTable)
  {
    forall idx, l :: idx in watchers && l in watchers[idx] ==> idx < |clauses| && l in clauses[idx]
  }

  /** `list.remove(x)`: drops the first occurrence of `x`. */
  function RemoveFirst(s: seq<int>, x: int): (r: seq<int>)
    requires x in s
    ensures |r| == |s| - 1
    ensures multiset(r) == multiset(s) - multiset{x}
  {
    if s[0] == x then
      assert s == [s[0]] + s[1..];
      s[1..]
    else
      assert s == [s[0]] + s[1..];
      [s[0]] + RemoveFirst(s[1..], x)
  }

  /** `watch_list.setdefault(l, set()).add(idx)` */
  function AddWatch(watchList: WatchIndex, l: int, idx: nat): (r: WatchIndex)
    ensures r.Keys == watchList.Keys + {l}
    ensures Filed(r, l, idx)
    ensures forall l', idx': nat :: (l' != l || idx' != idx) ==> (Filed(r, l', idx') <==> Filed(watchList, l', idx'))
  {
    watchList[l := Pending(watchList, l) + {idx}]
  }

  /** The new watch list of clause `idx` after moving a watch from `from` to `to`. */
  function MovedWatchers(watchers: WatchTable, idx: nat, from: int, to: int): (r: WatchTable)
    requires idx in watchers && from in watchers[idx]
    ensures r.Keys == watchers.Keys
    ensures to in r[idx]
    ensures multiset(r[idx]) == multiset(watchers[idx]) - multiset{from} + multiset{to}
    ensures forall j :: j in watchers && j != idx ==> r[j] == watchers[j]
  {
    watchers[idx := RemoveFirst(watchers[idx], from) + [to]]
  }

  /** The new index after moving the watch of clause `idx` from `from` to `to`
      (add under `to` first, then remove from `from`, as the source does). */
  function MovedIndex(watchList: WatchIndex, idx: nat, from: int, to: int): (r: WatchIndex)
    requires Filed(watchList, from, idx) && from != to
    ensures Filed(r, to, idx) && !Filed(r, from, idx)
    ensures forall l, j: nat :: j != idx || (l != from && l != to) ==> (Filed(r, l, j) <==> Filed(watchList, l, j))
  {
    var added := AddWatch(watchList, to, idx);
    added[from := added[from] - {idx}]
  }

  /** A watch move keeps the sound direction of the index, the shape, and own-literal watching. */
  lemma MovePreservesSound(clauses: Formula, watchers: WatchTable, watchList: WatchIndex, idx: nat, from: int, to: int)
    requires WellShaped(watchers, watchList, |clauses|) && IndexSound(watchers, watchList)
    requires WatchesOwnLiterals(clauses, watchers)
    requires Filed(watchList, from, idx) && from != to && idx < |clauses| && to in clauses[idx]
    ensures from in watchers[idx]
    ensures WellShaped(MovedWatchers(watchers, idx, from, to), MovedIndex(watchList, idx, from, to), |clauses|)
    ensures IndexSound(MovedWatchers(watchers, idx, from, to), MovedIndex(watchList, idx, from, to))
    ensures WatchesOwnLiterals(clauses, MovedWatchers(watchers, idx, from, to))
  {
    var w := MovedWatchers(watchers, idx, from, to);
    var wl := MovedIndex(watchList, idx, from, to);
    forall l, j: nat | Filed(wl, l, j) ensures j in w && l in w[j] {
      if j == idx && l != to {
        assert l in watchers[idx] && l != from;
        assert multiset(watchers[idx])[l] > 0;
        assert multiset(w[idx])[l] > 0;
      }
    }
    forall j, l | j in w && l in w[j] ensures j < |clauses| && l in clauses[j] {
      if j == idx && l != to {
        assert multiset(w[idx])[l] > 0;
        assert multiset(watchers[idx])[l] > 0;
      }
    }
  }

  /** Full consistency survives a move whenever `from` is watched only once by
      clause `idx`; the source's duplicate watches (see DuplicateWatchBreaksConsistency)
      are the only way to lose it. */
  lemma MovePreservesConsistent(watchers: WatchTable, watchList: WatchIndex, idx: nat, from: int, to: int)
    requires IndexConsistent(watchers, watchList)
    requires Filed(watchList, from, idx) && from != to
    requires multiset(watchers[idx])[from] == 1
    ensures IndexConsistent(MovedWatchers(watchers, idx, from, to), MovedIndex(watchList, idx, from, to))
  {
    var w := MovedWatchers(watchers, idx, from, to);
    var wl := MovedIndex(watchList, idx, from, to);
    forall l, j: nat | Filed(wl, l, j) ensures j in w && l in w[j] {
      if j == idx && l != to {
        assert multiset(watchers[idx])[l] > 0;
        assert multiset(w[idx])[l] > 0;
      }
    }
    forall j, l | j in w && l in w[j] ensures Filed(wl, l, j) {
      if j == idx && l != to {
        assert multiset(w[idx])[l] > 0;
        assert l != from;
        assert l in watchers[idx];
      }
    }
  }

  /** Moving a watch of clause 0 from literal 1 to its other watched literal 2
      leaves the duplicate watch list [2, 2] (main.py:36-41 does not skip it). */
  lemma MoveCanDuplicateWatch()
    ensures MovedWatchers(map[0 := [1, 2]], 0, 1, 2)[0] == [2, 2]
  {
    assert RemoveFirst([1, 2], 1) == [2];
  }

  /** Once clause 0 watches [2, 2], moving the watch away from 2 keeps one copy
      of 2 in its list but unfiles clause 0 from literal 2: the bidirectional
      index is no longer consistent. */
  lemma DuplicateWatchBreaksConsistency()
    ensures IndexConsistent(map[0 := [2, 2]], map[2 := {0}])
    ensures !IndexConsistent(MovedWatchers(map[0 := [2, 2]], 0, 2, 3), MovedIndex(map[2 := {0}], 0, 2, 3))
  {
    var w := MovedWatchers(map[0 := [2, 2]], 0, 2, 3);
    var wl := MovedIndex(map[2 := {0}], 0, 2, 3);
    assert RemoveFirst([2, 2], 2) == [2];
    assert w[0] == [2, 3];
    assert 2 in w[0] && !Filed(wl, 2, 0);
  }

  /** The initial watches of a clause: its first two literals, or its only one. */
  function InitialWatch(c: Clause): (r: seq<int>)
    ensures |r| == if |c| >= 2 then 2 else |c|
    ensures r == c[..|r|]
  {
    if |c| >= 2 then [c[0], c[1]] else c
  }

  /** Every clause watches exactly its initial watches. */
  ghost predicate InitiallyWatched(clauses: Formula, watchers: WatchTable)
  {
    forall idx: nat :: idx < |clauses| ==> idx in watchers && watchers[idx] == InitialWatch(clauses[idx])
  }

  /** `watchers = {i: [] for i in range(n)}` */
  method EmptyWatchers(n: nat) returns (watchers: WatchTable)
    ensures forall j: nat :: j in watchers <==> j < n
    ensures forall j :: j in watchers ==> watchers[j] == []
  {
    watchers := map[];
    for i := 0 to n
      invariant forall j: nat :: j in watchers <==> j < i
      invariant forall j :: j in watchers ==> watchers[j] == []
    {
      watchers := watchers[i := []];
    }
  }

  /** One step of the set-up loop at main.py:183-191: clause `idx` with
      literals `lits` watches its first two literals (or its only one), and is
      filed under each of them. */
  method WatchInitial(lits: Clause, idx: nat, watchList: WatchIndex) returns (watched: seq<int>, r: WatchIndex)
    ensures watched == InitialWatch(lits)
    ensures forall l, i: nat :: Filed(r, l, i) <==> Filed(watchList, l, i) || (i == idx && l in watched)
  {
    r := watchList;
    if |lits| >= 2 {
      watched := [lits[0], lits[1]];
      r := AddWatch(r, lits[0], idx);
      r := AddWatch(r, lits[1], idx);
    } else if |lits| == 1 {
      watched := [lits[0]];
      r := AddWatch(r, lits[0], idx);
    } else {
      watched := [];
    }
  }

  /** The set-up at main.py:180-191: every clause watches its first one or two
      literals, and the index files each clause under exactly those. */
  method InitWatches(clauses: Formula) returns (watchers: WatchTable, watchList: WatchIndex)
    ensures forall idx: nat :: idx in watchers <==> idx < |clauses|
    ensures InitiallyWatched(clauses, watchers)
    ensures IndexConsistent(watchers, watchList)
    ensures WellShaped(watchers, watchList, |clauses|)
    ensures WatchesOwnLiterals(clauses, watchers)
  {
    watchers := EmptyWatchers(|clauses|);
    watchList := map[];
    var idx := 0;
    while idx < |clauses|
      invariant 0 <= idx <= |clauses|
      invariant forall i: nat :: i in watchers <==> i < |clauses|
      invariant forall i: nat :: i < idx ==> watchers[i] == InitialWatch(clauses[i])
      invariant forall i: nat :: idx <= i < |clauses| ==> watchers[i] == []
      invariant forall l, i: nat :: Filed(watchList, l, i) <==> i < idx && l in watchers[i]
    {
      var watched, wl := WatchInitial(clauses[idx], idx, watchList);
      watchers := watchers[idx := watched];
      watchList := wl;
      idx := idx + 1;
    }
    forall i, l | i in watchers && l in watchers[i] ensures i < |clauses| && l in clauses[i] {
      var k :| 0 <= k < |watchers[i]| && watchers[i][k] == l;
      assert clauses[i][k] == l;
    }
  }
}
