/** DPLL search with two watched literals (main.py:26-98 and the set-up at
    main.py:178-194). The three pieces of shared mutable state — the partial
    assignment, the per-clause watch lists and the per-literal watch index —
    are the fields of one `Solver` object. */
module Dpll {
  import opened Cnf
  import opened Watches

  /** Some clause among `pending` has every literal falsified. */
  ghost predicate HasConflict(a: seq<Value>, clauses: Formula, pending: set<nat>)
  {
    exists idx :: idx in pending && idx < |clauses| && ClauseFalsified(a, clauses[idx])
  }

  /** Clause `idx` watches some literal that is not falsified. */
  ghost predicate WatchesLive(a: seq<Value>, watchers: WatchTable, idx: nat)
  {
    idx in watchers && exists l :: l in watchers[idx] && NotFalsified(a, l)
  }

  /** Every clause of `pending` is no longer filed under `l` and watches a
      literal that is not falsified. */
  ghost predicate MovedOff(a: seq<Value>, watchers: WatchTable, watchList: WatchIndex, l: int, pending: set<nat>)
  {
    forall idx :: idx in pending ==> !Filed(watchList, l, idx) && WatchesLive(a, watchers, idx)
  }

  /** Every clause filed under `l` watches `l` at most once. */
  ghost predicate SingleWatch(watchers: WatchTable, watchList: WatchIndex, l: int)
  {
    forall idx :: idx in Pending(watchList, l) && idx in watchers ==> multiset(watchers[idx])[l] <= 1
  }

  /** The position of the first literal of `c` that is not falsified, or
      |c| when every literal is (the scan at main.py:36-39). */
  function FirstLive(a: seq<Value>, c: Clause): (j: nat)
    ensures j <= |c|
    ensures forall k :: 0 <= k < j ==> !NotFalsified(a, c[k])
    ensures j < |c| ==> NotFalsified(a, c[j])
  {
    if |c| == 0 then 0
    else if NotFalsified(a, c[0]) then 0
    else 1 + FirstLive(a, c[1..])
  }

  /** The literal clause `i` moves its watch to: its first literal that is
      not falsified (0 when there is none). */
  function NewWatch(a: seq<Value>, clauses: Formula, i: nat): int
  {
    if i < |clauses| && FirstLive(a, clauses[i]) < |clauses[i]| then clauses[i][FirstLive(a, clauses[i])] else 0
  }

  /** Clauses outside `visited` keep their watch lists and their index entries. */
  ghost predicate OthersKept(oldW: WatchTable, oldWL: WatchIndex, w: WatchTable, wl: WatchIndex, visited: set<nat>)
  {
    && w.Keys == oldW.Keys
    && (forall i :: i in oldW && i !in visited ==> w[i] == oldW[i])
    && (forall l, i: nat :: i !in visited ==> (Filed(wl, l, i) <==> Filed(oldWL, l, i)))
  }

  /** Every clause of `visited` has moved its watch from `l` to its new watch
      (main.py:40-43): one copy of `l` left its watch list and the new watch
      was appended; it is filed under the new watch and no longer under `l`;
      every other clause is untouched. */
  ghost predicate MovedAll(a: seq<Value>, clauses: Formula, oldW: WatchTable, oldWL: WatchIndex,
                           w: WatchTable, wl: WatchIndex, l: int, visited: set<nat>)
  {
    && OthersKept(oldW, oldWL, w, wl, visited)
    && (forall i :: i in visited ==> i in oldW && l in oldW[i] && w[i] == RemoveFirst(oldW[i], l) + [NewWatch(a, clauses, i)])
    && (forall l', i: nat :: i in visited ==> (Filed(wl, l', i) <==> l' == NewWatch(a, clauses, i) || (l' != l && Filed(oldWL, l', i))))
  }

  /** Moving the watch of one more clause extends `MovedAll` by that clause. */
  lemma MovedAllStep(a: seq<Value>, clauses: Formula, oldW: WatchTable, oldWL: WatchIndex,
                     w: WatchTable, wl: WatchIndex, l: int, visited: set<nat>, idx: nat)
    requires MovedAll(a, clauses, oldW, oldWL, w, wl, l, visited)
    requires idx !in visited && idx in w && l in w[idx] && Filed(wl, l, idx) && NewWatch(a, clauses, idx) != l
    ensures MovedAll(a, clauses, oldW, oldWL, MovedWatchers(w, idx, l, NewWatch(a, clauses, idx)),
                     MovedIndex(wl, idx, l, NewWatch(a, clauses, idx)), l, visited + {idx})
  {
    var to := NewWatch(a, clauses, idx);
    var w' := MovedWatchers(w, idx, l, to);
    var wl' := MovedIndex(wl, idx, l, to);
    assert w[idx] == oldW[idx];
    assert w'[idx] == RemoveFirst(oldW[idx], l) + [to];
    forall l', i: nat | i !in visited + {idx} ensures Filed(wl', l', i) <==> Filed(oldWL, l', i) {
      assert Filed(wl', l', i) <==> Filed(wl, l', i);
    }
    forall l', i: nat | i in visited + {idx}
      ensures Filed(wl', l', i) <==> l' == NewWatch(a, clauses, i) || (l' != l && Filed(oldWL, l', i))
    {
      if i == idx {
        assert Filed(wl, l', i) <==> Filed(oldWL, l', i);
      } else {
        assert Filed(wl', l', i) <==> Filed(wl, l', i);
      }
    }
  }

  /** A state kept outside a smaller set is kept outside a larger one. */
  lemma OthersKeptGrow(oldW: WatchTable, oldWL: WatchIndex, w: WatchTable, wl: WatchIndex, visited: set<nat>, more: set<nat>)
    requires OthersKept(oldW, oldWL, w, wl, visited) && visited <= more
    ensures OthersKept(oldW, oldWL, w, wl, more)
  {
  }

  /** The clauses of `done` have moved their watch off the falsified
      literal `l` (main.py:36-45) and are not falsified; the index stays
      consistent when it was and `l` was watched at most once. */
  ghost predicate Visited(a: seq<Value>, clauses: Formula, oldW: WatchTable, oldWL: WatchIndex,
                          w: WatchTable, wl: WatchIndex, l: int, done: set<nat>)
  {
    && MovedAll(a, clauses, oldW, oldWL, w, wl, l, done)
    && (forall idx :: idx in done ==> WatchesLive(a, w, idx))
    && (forall idx :: idx in done ==> idx < |clauses| && !ClauseFalsified(a, clauses[idx]))
    && (IndexConsistent(oldW, oldWL) && SingleWatch(oldW, oldWL, l) ==> IndexConsistent(w, wl))
  }

  /** A clause not yet visited still watches `l` as often as it did. */
  lemma VisitedSingle(a: seq<Value>, clauses: Formula, oldW: WatchTable, oldWL: WatchIndex,
                      w: WatchTable, wl: WatchIndex, l: int, done: set<nat>, idx: nat)
    requires Visited(a, clauses, oldW, oldWL, w, wl, l, done)
    requires Filed(wl, l, idx) && idx !in done && idx in oldW
    ensures idx in w && w[idx] == oldW[idx] && idx in Pending(oldWL, l)
    ensures IndexConsistent(oldW, oldWL) && SingleWatch(oldW, oldWL, l) ==> IndexConsistent(w, wl) && multiset(w[idx])[l] <= 1
  {
    assert Filed(oldWL, l, idx);
  }

  /** Visiting one more clause, whose watch moves to a literal that is not
      falsified, extends `Visited` by that clause. */
  lemma VisitedStep(a: seq<Value>, clauses: Formula, oldW: WatchTable, oldWL: WatchIndex,
                    w: WatchTable, wl: WatchIndex, w': WatchTable, wl': WatchIndex, l: int, done: set<nat>, idx: nat)
    requires Visited(a, clauses, oldW, oldWL, w, wl, l, done)
    requires idx !in done && idx in w && l in w[idx] && Filed(wl, l, idx) && NewWatch(a, clauses, idx) != l
    requires w' == MovedWatchers(w, idx, l, NewWatch(a, clauses, idx))
    requires wl' == MovedIndex(wl, idx, l, NewWatch(a, clauses, idx))
    requires idx < |clauses| && !ClauseFalsified(a, clauses[idx]) && WatchesLive(a, w', idx)
    requires IndexConsistent(w, wl) && multiset(w[idx])[l] <= 1 ==> IndexConsistent(w', wl')
    requires IndexConsistent(oldW, oldWL) && SingleWatch(oldW, oldWL, l) ==> multiset(w[idx])[l] <= 1
    ensures Visited(a, clauses, oldW, oldWL, w', wl', l, done + {idx})
  {
    MovedAllStep(a, clauses, oldW, oldWL, w, wl, l, done, idx);
    forall i | i in done + {idx} ensures WatchesLive(a, w', i) {
      if i != idx {
        assert w'[i] == w[i];
      }
    }
  }

  class Solver {
    const clauses: Formula
    var assignment: seq<Value>
    var watchers: WatchTable
    var watchList: WatchIndex

    /** The invariant every operation keeps. */
    ghost predicate Valid()
      reads this
    {
      && InRange(clauses, |assignment|)
      && WellShaped(watchers, watchList, |clauses|)
      && IndexSound(watchers, watchList)
      && WatchesOwnLiterals(clauses, watchers)
    }

    /** The variables the search may still branch on. */
    ghost function Open(): set<nat>
      reads this
    {
      UnassignedVars(assignment, clauses)
    }

    /** main.py:178-191: an all-UNASSIGNED assignment indexed 0..num_vars and the
        initial watches. `max` fails on a formula without literals, hence the
        first precondition. */
    constructor (formula: Formula)
      requires HasLiteral(formula)
      requires forall c, l :: c in formula && l in c ==> l != 0
      ensures Valid() && clauses == formula
      ensures assignment == AllUnassigned(MaxVar(formula) + 1)
      ensures InitiallyWatched(formula, watchers)
      ensures IndexConsistent(watchers, watchList)
    {
      var w, wl := InitWatches(formula);
      var a := AllUnassigned(MaxVar(formula) + 1);
      NumVarsInRange(formula);
      clauses, assignment, watchers, watchList := formula, a, w, wl;
    }

    /** main.py:40-43: clause `idx` stops watching `from` and watches `to`. */
    method MoveWatch(idx: nat, from: int, to: int)
      requires Valid()
      requires Filed(watchList, from, idx) && from != to && idx < |clauses| && to in clauses[idx]
      modifies this
      ensures Valid() && assignment == old(assignment)
      ensures from in old(watchers)[idx]
      ensures watchers == MovedWatchers(old(watchers), idx, from, to)
      ensures watchList == MovedIndex(old(watchList), idx, from, to)
      ensures old(IndexConsistent(watchers, watchList)) && multiset(old(watchers)[idx])[from] == 1 ==> IndexConsistent(watchers, watchList)
    {
      MovePreservesSound(clauses, watchers, watchList, idx, from, to);
      if IndexConsistent(watchers, watchList) && multiset(watchers[idx])[from] == 1 {
        MovePreservesConsistent(watchers, watchList, idx, from, to);
      }
      watchers := MovedWatchers(watchers, idx, from, to);
      watchList := MovedIndex(watchList, idx, from, to);
    }

    /** One clause of the loop at main.py:33-56: clause `idx`, filed under the
        falsified literal `l` (the `-lit` of the source), moves that watch to
        its first literal that is not falsified (which may be its other
        watch), or reports a conflict when every literal is falsified. */
    method VisitClause(idx: nat, l: int) returns (ok: bool)
      requires Valid()
      requires !NotFalsified(assignment, l) && Filed(watchList, l, idx)
      modifies this
      ensures Valid() && assignment == old(assignment)
      ensures ok <==> !ClauseFalsified(assignment, clauses[idx])
      ensures ok ==> !Filed(watchList, l, idx) && WatchesLive(assignment, watchers, idx)
      ensures watchers.Keys == old(watchers).Keys
      ensures forall i :: i in old(watchers) && i != idx ==> watchers[i] == old(watchers)[i]
      ensures ok ==> Pending(watchList, l) == old(Pending(watchList, l)) - {idx}
      ensures l in old(watchers)[idx] && NewWatch(assignment, clauses, idx) != l
      ensures ok ==> watchers == MovedWatchers(old(watchers), idx, l, NewWatch(assignment, clauses, idx))
      ensures ok ==> watchList == MovedIndex(old(watchList), idx, l, NewWatch(assignment, clauses, idx))
      ensures !ok ==> watchers == old(watchers) && watchList == old(watchList)
      ensures old(IndexConsistent(watchers, watchList)) && multiset(old(watchers)[idx])[l] <= 1 ==> IndexConsistent(watchers, watchList)
    {
      var clause := clauses[idx];
      var j := FindNewWatch(assignment, clause);
      if j < |clause| {
        MoveWatch(idx, l, clause[j]);
        assert clause[j] in watchers[idx];
        return true;
      }
      var satisfied := IsClauseSatisfied(assignment, clause);
      assert !satisfied;
      if !satisfied {
        return false;
      }
    }

    /** One iteration of the loop at main.py:32-56: clause `idx`, still filed
        under the falsified literal `l`, is visited. */
    method VisitNext(l: int, idx: nat, ghost oldW: WatchTable, ghost oldWL: WatchIndex, ghost done: set<nat>) returns (ok: bool)
      requires Valid() && !NotFalsified(assignment, l)
      requires Filed(watchList, l, idx) && idx !in done
      requires Visited(assignment, clauses, oldW, oldWL, watchers, watchList, l, done)
      modifies this
      ensures Valid() && assignment == old(assignment) && idx < |clauses|
      ensures ok <==> !ClauseFalsified(assignment, clauses[idx])
      ensures ok ==> Visited(assignment, clauses, oldW, oldWL, watchers, watchList, l, done + {idx})
      ensures ok ==> Pending(watchList, l) == old(Pending(watchList, l)) - {idx}
      ensures !ok ==> watchers == old(watchers) && watchList == old(watchList)
    {
      ghost var w0, wl0 := watchers, watchList;
      VisitedSingle(assignment, clauses, oldW, oldWL, w0, wl0, l, done, idx);
      ok := VisitClause(idx, l);
      if ok {
        VisitedStep(assignment, clauses, oldW, oldWL, w0, wl0, watchers, watchList, l, done, idx);
      }
    }

    /** The `for clause_idx in list(watch_list.get(-lit, []))` loop of
        main.py:32-56 for the falsified literal `l` (the source's `-lit`),
        visiting the clauses in an arbitrary order: each one moves its watch
        off `l` to its first literal that is not falsified, or the visit
        stops at a conflict. Clauses not filed under `l` keep their watches
        and index entries. */
    method VisitWatching(l: int) returns (ok: bool)
      requires Valid()
      requires !NotFalsified(assignment, l)
      modifies this
      ensures Valid()
      ensures assignment == old(assignment)
      ensures ok <==> !HasConflict(assignment, clauses, old(Pending(watchList, l)))
      ensures ok ==> MovedOff(assignment, watchers, watchList, l, old(Pending(watchList, l)))
      ensures ok ==> MovedAll(assignment, clauses, old(watchers), old(watchList), watchers, watchList, l, old(Pending(watchList, l)))
      ensures OthersKept(old(watchers), old(watchList), watchers, watchList, old(Pending(watchList, l)))
      ensures old(IndexConsistent(watchers, watchList)) && SingleWatch(old(watchers), old(watchList), l) ==> IndexConsistent(watchers, watchList)
    {
      var pending := Pending(watchList, l);
      ghost var oldW, oldWL := watchers, watchList;
      var remaining := pending;
      ghost var done: set<nat> := {};
      while remaining != {}
        invariant done + remaining == pending && done !! remaining
        invariant Valid() && assignment == old(assignment)
        invariant Pending(watchList, l) == remaining
        invariant Visited(assignment, clauses, oldW, oldWL, watchers, watchList, l, done)
        decreases remaining
      {
        var idx :| idx in remaining;
        remaining := remaining - {idx};
        var moved := VisitNext(l, idx, oldW, oldWL, done);
        if !moved {
          OthersKeptGrow(oldW, oldWL, watchers, watchList, done, pending);
          return false;
        }
        done := done + {idx};
      }
      assert MovedOff(assignment, watchers, watchList, l, pending);
      return true;
    }

    /** propagate: every clause watching the newly falsified literal `-lit`
        moves that watch to its first literal that is not falsified, or, when
        it has none, the call reports a conflict; clauses not watching `-lit`
        are untouched. No value is ever derived, so the work list
        `to_propagate` never grows and its loop runs once. */
    method Propagate(lit: int) returns (ok: bool)
      requires Valid()
      requires IsTrue(assignment, lit)
      modifies this
      ensures Valid()
      ensures assignment == old(assignment)
      ensures ok <==> !HasConflict(assignment, clauses, old(Pending(watchList, -lit)))
      ensures ok ==> MovedOff(assignment, watchers, watchList, -lit, old(Pending(watchList, -lit)))
      ensures ok ==> MovedAll(assignment, clauses, old(watchers), old(watchList), watchers, watchList, -lit, old(Pending(watchList, -lit)))
      ensures OthersKept(old(watchers), old(watchList), watchers, watchList, old(Pending(watchList, -lit)))
      ensures old(IndexConsistent(watchers, watchList)) && SingleWatch(old(watchers), old(watchList), -lit) ==> IndexConsistent(watchers, watchList)
    {
      var toPropagate := [lit];
      while toPropagate != []
        invariant toPropagate == [] || toPropagate == [lit]
        invariant Valid() && assignment == old(assignment)
        invariant toPropagate == [lit] ==> watchers == old(watchers) && watchList == old(watchList)
        invariant toPropagate == [] ==> !HasConflict(assignment, clauses, old(Pending(watchList, -lit)))
        invariant toPropagate == [] ==> MovedOff(assignment, watchers, watchList, -lit, old(Pending(watchList, -lit)))
        invariant toPropagate == [] ==> MovedAll(assignment, clauses, old(watchers), old(watchList), watchers, watchList, -lit, old(Pending(watchList, -lit)))
        invariant OthersKept(old(watchers), old(watchList), watchers, watchList, old(Pending(watchList, -lit)))
        invariant old(IndexConsistent(watchers, watchList)) && SingleWatch(old(watchers), old(watchList), -lit) ==> IndexConsistent(watchers, watchList)
        decreases |toPropagate|
      {
        var cur := toPropagate[|toPropagate| - 1];
        toPropagate := toPropagate[..|toPropagate| - 1];
        assert cur == lit;
        var consistent := VisitWatching(-cur);
        if !consistent {
          return false;
        }
        // the work list is now empty: the loop ends after this pass
      }
      return true;
    }

    /** dpll: branch on the first unassigned variable, TRUE before FALSE,
        recurse after a consistent propagation, and restore the snapshot of all
        three structures after a failed branch. */
    method Dpll(steps: nat) returns (sat: bool, stepsOut: nat)
      requires Valid()
      modifies this
      decreases Open()
      ensures Valid()
      ensures stepsOut >= steps
      ensures sat ==> Satisfies(assignment, clauses) && Extends(assignment, old(assignment))
      ensures sat <==> !NoSatisfyingExtension(clauses, old(assignment))
      ensures sat ==> TrueFirst(clauses, old(assignment), assignment)
      ensures !sat ==> assignment == old(assignment) && watchers == old(watchers) && watchList == old(watchList)
    {
      var choice := SimpleVarStrategy(assignment, clauses);
      if choice.None? {
        var allSatisfied := AllSatisfied(assignment, clauses);
        if !allSatisfied {
          ghost var c :| c in clauses && !ClauseSatisfied(assignment, c);
          UnsatisfiedAssignedBlocks(clauses, assignment, c);
          return false, steps;
        }
        SatisfyingAssignmentExtends(clauses, assignment, assignment);
        return true, steps;
      }
      var x := choice.value;
      ghost var entry := assignment;
      stepsOut := steps;
      for k := 0 to 2
        invariant Valid()
        invariant assignment == entry && watchers == old(watchers) && watchList == old(watchList)
        invariant stepsOut >= steps
        invariant k >= 1 ==> NoSatisfyingExtension(clauses, entry[x := True])
        invariant k >= 2 ==> NoSatisfyingExtension(clauses, entry[x := False])
        invariant choice == SimpleVarStrategy(entry, clauses)
      {
        var value := if k == 0 then True else False;
        var savedAssignment, savedWatchers, savedWatchList := assignment, watchers, watchList;
        assignment := assignment[x := value];
        var lit: int := if value == True then x as int else -(x as int);
        assert x !in Open() && Open() <= UnassignedVars(entry, clauses);
        var consistent := Propagate(lit);
        if consistent {
          var result, count := Dpll(stepsOut + 1);
          stepsOut := count;
          if result {
            SatisfyingAssignmentExtends(clauses, entry, assignment);
            FirstSuccessfulBranch(clauses, entry, x, value, assignment);
            return true, stepsOut;
          }
          stepsOut := stepsOut + 1;
        } else {
          ghost var idx :| idx in Pending(savedWatchList, -lit) && idx < |clauses| && ClauseFalsified(assignment, clauses[idx]);
          FalsifiedClauseBlocks(clauses, assignment, clauses[idx]);
        }
        assignment, watchers, watchList := savedAssignment, savedWatchers, savedWatchList;
      }
      BothValuesBlock(clauses, entry, x);
      return false, stepsOut;
    }
  }

  /** The `for l in clause` scan of main.py:36-39: the position of the first
      literal that is not falsified, or |clause| when every literal is. */
  method FindNewWatch(a: seq<Value>, clause: Clause) returns (j: nat)
    ensures j <= |clause|
    ensures forall k :: 0 <= k < j ==> !NotFalsified(a, clause[k])
    ensures j < |clause| ==> NotFalsified(a, clause[j])
    ensures j == |clause| <==> ClauseFalsified(a, clause)
    ensures j == FirstLive(a, clause)
  {
    j := 0;
    while j < |clause| && !NotFalsified(a, clause[j])
      invariant j <= |clause|
      invariant forall k :: 0 <= k < j ==> !NotFalsified(a, clause[k])
    {
      j := j + 1;
    }
  }

  /** The satisfaction scans of main.py:48-54 and main.py:65-72: some literal
      of the clause is true under an explicit value. */
  method IsClauseSatisfied(a: seq<Value>, clause: Clause) returns (satisfied: bool)
    ensures satisfied <==> ClauseSatisfied(a, clause)
  {
    satisfied := false;
    var k := 0;
    while k < |clause| && !satisfied
      invariant k <= |clause|
      invariant satisfied <==> exists i :: 0 <= i < k && IsTrue(a, clause[i])
    {
      if IsTrue(a, clause[k]) {
        satisfied := true;
      }
      k := k + 1;
    }
  }

  /** The final check of main.py:64-75: every clause has a literal that is
      true under an explicit value, checked without the watch structures. */
  method AllSatisfied(a: seq<Value>, clauses: Formula) returns (b: bool)
    ensures b <==> Satisfies(a, clauses)
  {
    var i := 0;
    while i < |clauses|
      invariant i <= |clauses|
      invariant forall k :: 0 <= k < i ==> ClauseSatisfied(a, clauses[k])
    {
      var isSatisfied := IsClauseSatisfied(a, clauses[i]);
      if !isSatisfied {
        return false;
      }
      i := i + 1;
    }
    return true;
  }

  /** main.py:178-194: build the solver state and run the search from step 0.
      The verdict is exactly the satisfiability of the formula over the
      variables 1..max. */
  method Decide(formula: Formula) returns (sat: bool, steps: nat)
    requires HasLiteral(formula)
    requires forall c, l :: c in formula && l in c ==> l != 0
    ensures sat <==> Satisfiable(formula, MaxVar(formula) + 1)
  {
    var solver := new Solver(formula);
    ghost var start := solver.assignment;
    sat, steps := solver.Dpll(0);
    VerdictFromStart(formula, start, sat);
  }

  lemma VerdictFromStart(formula: Formula, start: seq<Value>, sat: bool)
    requires start == AllUnassigned(MaxVar(formula) + 1)
    requires sat <==> !NoSatisfyingExtension(formula, start)
    ensures sat <==> Satisfiable(formula, MaxVar(formula) + 1)
  {
  }
}
