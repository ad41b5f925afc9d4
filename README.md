# SAT solvers of main.py, modelled in Dafny

`main.py` decides the satisfiability of a CNF formula read from a DIMACS-like
file in three ways:

- a DPLL search with two watched literals;
- a saturation loop by resolution (`rezolutie`);
- a simplified Davis-Putnam procedure (`dp`).

This project models the DPLL search. It also models the two baselines and the
resolvent function `rezolva` they share. It proves what each part computes.

- `cnf.dfy` (module `Cnf`) holds the DPLL view of a formula and the
  variable strategy `simple_var_strategy`.
  - A clause is a `seq<int>`: the fixed iteration order of its literal set.
  - An assignment is a `seq<Value>` indexed by variable. Values are
    UNASSIGNED, FALSE and TRUE.
  - The strategy is a function, shown to return the first unassigned
    variable in clause-then-literal order.
- `watches.dfy` (module `Watches`) holds the two watch structures and the
  initial set-up.
  - `watchers` maps each clause index to the list of literals it watches.
  - `watch_list` maps each literal to the set of clause indices watching it.
  - A watch move is modelled as the function pair `MovedWatchers`/`MovedIndex`,
    with lemmas on which index invariants a move keeps.
  - The set-up loop at main.py:180-191 is the method `InitWatches`.
- `dpll.dfy` (module `Dpll`) holds the class `Solver`. Its fields are the
  formula and the three mutable structures.
  - `Propagate` and `Dpll` are methods that update the fields in place.
  - `Dpll` restores the snapshot of all three structures after a failed
    branch.
  - `Dpll` answers "satisfiable" exactly when the assignment it starts from
    extends to a model. On success the assignment it leaves extends the one
    it started from and satisfies every clause. It is not always total: a
    variable in 1..max that occurs in no clause is never selected
    (main.py:19-23) and stays UNASSIGNED.
  - TRUE is tried before FALSE, and the first value that leads to a model
    is kept: on success the branch variable is TRUE exactly when setting it
    TRUE extends to a model (`TrueFirst`).
  - `Decide` builds the solver as the main block does. Its answer is exactly
    the satisfiability of the formula.
- `clausesets.dfy` (module `ClauseSets`) holds what the baselines share.
  - Clauses are sets of literals; valuations are total.
  - It defines `Models`, `SatisfiableSet` and `Implied`, and the list-to-set
    helpers.
- `resolution.dfy` (module `Resolution`) models `rezolva` and `rezolutie`.
  - "Unsatisfiable" is sound.
  - "Satisfiable" comes with a clause set that contains the input and only
    clauses the input implies, and that is closed under resolution.
- `dp.dfy` (module `DavisPutnam`) models `dp`. Each round is shown to keep
  satisfiability in both directions and to remove one variable, so the
  answer is exactly the satisfiability of the input.

Inputs as produced by `citeste_formula` (main.py:7-15) never contain the
literal 0. The operations require this (`NonZero`, `InRange`).

Behaviour of the code that the model follows as written:

- `max(...)` at main.py:178 raises on a formula without literals, including
  one whose clauses are all empty. `Solver` and `Decide` therefore require a
  formula with at least one literal (`HasLiteral`).
- DPLL reports an empty clause only in its final check (main.py:64-74),
  after every variable occurring in a clause is assigned. `Decide`'s verdict is still exact.
- The watch set and watch index can fall out of step. The code can give a
  clause the duplicate watch list `[a, a]`, because the scan at main.py:36-39
  may pick the other watched literal as the new watch. At the next move of
  that watch, `remove` drops one copy and unfiles the clause from `a`
  (DuplicateWatchBreaksConsistency).
  - What always holds is the sound direction: a clause filed under a literal
    watches it. That is what keeps `remove` at main.py:40 from raising.
  - Full consistency is proved only while the falsified literal is watched
    at most once.
- `propagate` keeps a work list `to_propagate` (main.py:27-30), but nothing
  is ever pushed onto it, so its loop runs exactly once.
- When no new watch is found, the satisfaction re-check at main.py:48-54 is
  always false: the scan has just seen every literal falsified. The model
  keeps the check and asserts its outcome.
- In `dp` the test `if not toate_literalurile` (main.py:145-146) runs every
  round, but its True branch (main.py:147) is never taken. A non-empty list
  without empty clauses always has a literal (SomeLiteral), so the model
  leaves that branch out.

## Model

| member | source | states |
|---|---|---|
| Cnf.FirstUnassigned | main.py:19-23 | None exactly when every literal of the clause is assigned; otherwise an unassigned variable of the clause |
| Cnf.SimpleVarStrategy | main.py:17-24 | None exactly when every variable occurring in the formula is assigned; otherwise a nonzero, unassigned variable that occurs in the formula |
| Cnf.FirstUnassignedIsFirst | main.py:20-23 | the variable returned is the one at the first unassigned literal position of the clause |
| Cnf.StrategyPicksFirst | main.py:17-24 | the strategy returns the variable of the first unassigned literal in clause-then-literal order |
| Cnf.FalsifiedClauseBlocks | main.py:55-56 | a clause with every literal falsified rules out every total extension of the assignment |
| Cnf.UnsatisfiedAssignedBlocks | main.py:63-74 | with every variable assigned, an unsatisfied clause rules out every extension (the final check answers False correctly) |
| Cnf.BothValuesBlock | main.py:76-98 | if neither TRUE nor FALSE for the branch variable extends to a model, the assignment does not either |
| Cnf.SatisfyingAssignmentExtends | main.py:75 | an assignment satisfying every clause yields a total model extending the starting assignment |
| Cnf.AllUnassigned | main.py:179 | `[UNASSIGNED] * n` has length n and every entry UNASSIGNED |
| Cnf.MaxVar | main.py:178 | bounds every variable of the formula, and is itself a variable of the formula when one exists |
| Cnf.MaxVarIn | main.py:178 | bounds every variable of a clause, and is one of them when the clause is non-empty |
| Cnf.NumVarsInRange | main.py:178-179 | every variable indexes the assignment of length max + 1 |
| Watches.RemoveFirst | main.py:40 | `list.remove` drops exactly one occurrence: the multiset loses one copy and the length drops by one |
| Watches.AddWatch | main.py:42 | `setdefault(l, set()).add(idx)` files idx under l and changes nothing else |
| Watches.MovedWatchers | main.py:40-41 | the watch list of idx loses one copy of `from` and gains `to`; other clauses keep theirs |
| Watches.MovedIndex | main.py:42-43 | idx is filed under `to` and no longer under `from`; every other entry of the index is unchanged |
| Watches.MovePreservesSound | main.py:40-43 | a move keeps the shape of both structures, the sound direction of the index and own-literal watching |
| Watches.MovePreservesConsistent | main.py:40-43 | full two-way consistency survives a move when `from` is watched once by the clause |
| Watches.MoveCanDuplicateWatch | main.py:36-41 | moving a watch to the other watched literal leaves the duplicate watch list [2, 2] |
| Watches.DuplicateWatchBreaksConsistency | main.py:40-43 | from a consistent state with the duplicate watch [2, 2], a move leaves the index inconsistent |
| Watches.InitialWatch | main.py:185-190 | a clause watches its first two literals, or all of them when it has fewer |
| Watches.EmptyWatchers | main.py:180 | one empty watch list for each clause index, and no other key |
| Watches.WatchInitial | main.py:183-191 | one set-up step: the clause watches its initial watches and is filed under exactly those literals |
| Watches.InitWatches | main.py:180-191 | every clause watches its initial watches; the index files each clause under exactly its watched literals; every watch is one of the clause's own literals |
| Dpll.Solver.constructor | main.py:178-191 | an all-UNASSIGNED assignment of length max + 1, the initial watches, and a consistent index |
| Dpll.Solver.MoveWatch | main.py:40-43 | the new watch table and index are the moved ones; the invariant is kept |
| Dpll.Solver.VisitClause | main.py:33-56 | success exactly when the clause is not falsified; the new watch is the clause's first literal that is not falsified; on success the watch table and index are exactly the old ones with one copy of the falsified literal replaced by it; on a conflict nothing changes |
| Dpll.Solver.VisitWatching | main.py:32-56 | success exactly when no clause filed under the falsified literal is falsified; then each of them has moved that watch to its first literal that is not falsified and is filed under it instead; clauses not filed under it keep their watches and index entries in every case |
| Dpll.Solver.Propagate | main.py:26-58 | the same for `-lit`, the single literal on the work list: conflict exactly when a clause watching `-lit` is falsified, otherwise every such clause moved to its first live literal, all other clauses untouched; the assignment is unchanged |
| Dpll.FirstLive | main.py:36-39 | the position of the first literal that is not falsified: every earlier literal is falsified, and the position is the length when all are |
| Dpll.MovedAllStep | main.py:40-43 | moving one more clause's watch from the falsified literal to its first live literal extends the record of moved clauses by that clause and leaves the rest as it was |
| Dpll.OthersKeptGrow | main.py:32-56 | clauses untouched outside a set of visited clauses are untouched outside any larger set |
| Dpll.VisitedSingle | main.py:32-40 | a clause not yet visited still has its original watch list, and watches the falsified literal at most once when the index was consistent |
| Dpll.VisitedStep | main.py:33-45 | a successful visit of one more clause extends the visited record: moved watches, live watches, no falsified clause, consistency kept |
| Dpll.Solver.VisitNext | main.py:32-56 | one loop iteration: success exactly when the clause is not falsified, and then the visited record grows by that clause and the clause leaves the pending set; on a conflict nothing changes |
| Cnf.FirstSuccessfulBranch | main.py:76-88 | a result reached from the value kept, FALSE only after TRUE has no model, has the branch variable TRUE exactly when TRUE extends to a model |
| Dpll.Solver.Dpll | main.py:61-98 | "satisfiable" exactly when the starting assignment extends to a model; then the result extends it and satisfies every clause, and the branch variable is TRUE exactly when TRUE extends to a model (TRUE tried first, first success kept); on failure all three structures are as on entry |
| Dpll.FindNewWatch | main.py:36-39 | the first literal that is not falsified (`FirstLive`), or the clause length exactly when every literal is falsified |
| Dpll.IsClauseSatisfied | main.py:48-54 | true exactly when some literal is true under an explicit value |
| Dpll.AllSatisfied | main.py:64-75 | true exactly when every clause is satisfied |
| Dpll.Decide | main.py:178-194 | the DPLL verdict is exactly the satisfiability of the formula over variables 1..max |
| Dpll.VerdictFromStart | main.py:194 | a verdict about extensions of the all-UNASSIGNED start is a verdict about satisfiability |
| ClauseSets.ClauseSetAppend | main.py:129 | appending lists unites their clause sets |
| ClauseSets.TautologyHolds | main.py:157 | a clause holding a literal and its negation holds under every valuation |
| ClauseSets.Enumerate | main.py:129 | `list(s)` lists each element of the set exactly once |
| Resolution.Rezolva | main.py:101-108 | every resolvent draws its literals from the two clauses (standard resolvent) |
| Resolution.RezolvaAsWritten | main.py:101-108 | the same bound for the resolvent as written at main.py:106 |
| Resolution.ResolventSound | main.py:106 | a resolvent holds under every valuation satisfying both parents |
| Resolution.RezolvaImplied | main.py:101-108 | resolvents of clauses implied by a formula are implied by it |
| Resolution.EmptyResolvent | main.py:122-123 | the empty resolvent arises exactly from a unit clause and the unit clause of its negation |
| Resolution.RezolvaSymmetric | main.py:101-108 | the resolvents do not depend on the order of the pair |
| Resolution.SelfResolvents | main.py:101-108 | a clause resolved with itself yields at most itself |
| Resolution.AsWrittenAgreesOffTautologies | main.py:106 | on non-tautological clauses the resolvent as written is the standard one |
| Resolution.AsWrittenResolventUnsound | main.py:106 | the resolvent as written of {1, 2} and {2, -2} is {1}, which the two clauses do not imply |
| Resolution.CrossSatisfiable | main.py:106 | the formula {1, 2}, {-1, -2} on which the as-written procedures fail is satisfiable |
| Resolution.AsWrittenRefutesSatisfiable | main.py:106 | from the satisfiable {1, 2}, {-1, -2} the resolvents as written reach the empty clause |
| Resolution.PairCount | main.py:118-119 | the number of pairs i < j below n is n(n-1)/2 |
| Resolution.ResolveRow | main.py:120-124 | for one first index: the empty resolvent is detected exactly when some pair has it; otherwise every pair's resolvents are collected, and only resolvents of pairs |
| Resolution.ResolvePairs | main.py:117-124 | the empty resolvent is reported exactly when some pair i < j has it; otherwise the set holds the resolvents of all pairs and nothing else |
| Resolution.ClosedUnderPairs | main.py:126-127 | closure over pairs i < j of the list gives closure over all pairs of its clauses |
| Resolution.PairResolventsImplied | main.py:117-124 | the collected resolvents are implied, over the input's literals, and non-empty |
| Resolution.EmptyPairResolvent | main.py:122-123 | an empty resolvent of two implied clauses makes the input unsatisfiable |
| Resolution.InputDerived | main.py:112-113 | the input clauses are implied by the input and range over its literals |
| Resolution.GrowthWithin | main.py:129-130 | a strictly larger clause set over the same literals leaves fewer unused sets of them (termination) |
| Resolution.Extend | main.py:129-130 | the list and `cunoscut` grow by exactly the new resolvents and stay in step |
| Resolution.Rezolutie | main.py:110-130 | False only for unsatisfiable input; True with a saturated closure (contains the input, implied by it, closed under resolution) that lacks the empty clause when the input does |
| DavisPutnam.RoundAsWritten | main.py:150-161 | as written, no clause of the next round mentions the chosen literal or its negation |
| DavisPutnam.Eliminate | main.py:150-161 | with tautologies on the literal left out of the pairing, no clause of the next round mentions the literal or its negation |
| DavisPutnam.RoundAsWrittenAgrees | main.py:150-161 | without clauses holding both the literal and its negation, the round as written is the elimination |
| DavisPutnam.CutIsResolvent | main.py:157 | on a pair that is not tautological on the literal, the clause built is the standard resolvent |
| DavisPutnam.EliminateSound | main.py:150-161 | every model of the formula is a model of the next round |
| DavisPutnam.RepairWithFalse | main.py:150-161 | if every clause holding the literal is satisfied without it, making the literal false turns a model of the next round into a model of the formula |
| DavisPutnam.RepairWithTrue | main.py:150-161 | otherwise making the literal true does, through the resolvents with the unsatisfied clause |
| DavisPutnam.EliminateComplete | main.py:150-161 | every model of the next round can be changed at the variable of the literal alone into a model of the formula |
| DavisPutnam.EliminateEquisatisfiable | main.py:150-161 | the next round is satisfiable exactly when the formula is |
| DavisPutnam.EliminateShrinks | main.py:150-161 | the next round's variables are a strict subset of the formula's (termination) |
| DavisPutnam.RoundAsWrittenRefutesTautology | main.py:157 | as written, the satisfiable [{v, -v}] yields the empty clause for either literal |
| DavisPutnam.RoundAsWrittenRefutesSatisfiable | main.py:157 | as written, the satisfiable {1, 2}, {-1, -2} yields a single tautology for every choice of literal |
| DavisPutnam.EliminateKeepsTautology | main.py:157 | corrected, the round on [{2, -2}] yields no clause |
| DavisPutnam.Filter | main.py:150-151 | a list comprehension keeps exactly the clauses passing its test |
| DavisPutnam.ResolveRow | main.py:155-158 | the inner loop adds the clauses built from one clause and every clause of the other list, one step each |
| DavisPutnam.ResolveOn | main.py:154-158 | the nested loops collect the clause of every pair, one step per pair |
| DavisPutnam.Round | main.py:150-161 | the next clause list holds exactly the eliminated set |
| DavisPutnam.NoZeroAfter | main.py:157 | the literal 0 never appears in a later round |
| DavisPutnam.SomeLiteral | main.py:144-148 | a non-empty list without the empty clause has a literal to pick |
| DavisPutnam.Dp | main.py:133-161 | "satisfiable" exactly when the input is |

## Left out

- `citeste_formula` (main.py:7-15) reads a file. The model takes its result
  as input. The file guarantees it gives, no literal 0 and no empty clause,
  become the `NonZero`/`InRange` preconditions. The empty-clause guarantee is
  not assumed.
- The main block's timing, printing and `copy.deepcopy` are not modelled.
  They are I/O, or copies of values that are immutable in the model.
- Python's iteration order of sets is not modelled; any order is allowed.
  - The order of a clause's literals is a fixed but arbitrary `seq`.
  - The order of `watch_list[-lit]`, of `new - cunoscut`, and `next(iter(...))`
    in `dp` are nondeterministic choices (`:|`).
- `dpll`'s `level` argument is never read, and `var_strategy` is always
  `simple_var_strategy`. Neither is a parameter of `Dpll`.
- Dpll.Solver.Dpll: the step counter is only shown never to decrease. Its
  exact value is not stated: one per recursive call, that is per consistent
  propagation, plus one per recursive call that fails (main.py:83-91).
- Resolution.Rezolutie: a "satisfiable" answer is shown to come with a
  saturated clause set that lacks the empty clause. That this means the
  input is satisfiable (refutational completeness of resolution) is not
  proved. The step count is not stated either.
- DavisPutnam.Dp: the step count is not stated. It is the number of pairs
  of the corrected pairing, one per pair, as at main.py:158.
- Resolution.Rezolutie, DavisPutnam.Dp: with the resolvent as written the
  procedures answer wrongly (see Findings). The methods model the corrected
  procedures; the as-written behaviour is stated through
  `RezolvaAsWritten` and `RoundAsWritten`.
- The model does not prove that the three procedures agree with one another.
  Each verdict is stated against satisfiability, the DPLL one over total
  assignments and the baselines' over total valuations; the two notions are
  not connected.

## Findings

| source | as written | input that shows it | evidently intended | confidence | as-written member | corrected member |
|---|---|---|---|---|---|---|
| main.py:106 | `rez = (c1 \| c2) - {lit, -lit}` also deletes `lit` from `c2` and `-lit` from `c1`, so a tautological parent yields an unsound resolvent | `rezolva({1, 2}, {2, -2})` contains {1}; on the satisfiable {1, 2}, {-1, -2}, `rezolutie` derives {2, -2}, then {1} and {-1}, then the empty clause, and answers False | the standard resolvent `(c1 - {lit}) \| (c2 - {-lit})` | not executed | Resolution.RezolvaAsWritten | Resolution.Rezolva |
| main.py:150-157 | clauses holding both `lit` and `-lit` are paired with themselves and with the others, and the resolvent drops both literals, so `dp` can produce the empty clause from a satisfiable formula | [{2, -2}] becomes [{}] and `dp` answers False; on {1, 2}, {-1, -2} every choice of literal leads to a tautology and then to the empty clause | tautologies on `lit` are dropped without being resolved (Davis and Putnam's elimination) | not executed | DavisPutnam.RoundAsWritten | DavisPutnam.Dp |

The first row's discrepancy is shown by AsWrittenResolventUnsound and
AsWrittenRefutesSatisfiable. The correction is proved sound by ResolventSound,
RezolvaImplied and Rezolutie. For the second row, RoundAsWrittenRefutesTautology
and RoundAsWrittenRefutesSatisfiable show the discrepancy. The correction is
proved by EliminateEquisatisfiable, EliminateShrinks and Dp.
RoundAsWrittenAgrees shows the two rounds coincide once no clause holds both
literals.
