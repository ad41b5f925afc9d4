/** The Davis-Putnam baseline (main.py:133-161): eliminate one variable per
    round by resolving every clause holding a literal with every clause
    holding its negation. */
module DavisPutnam {
  import opened ClauseSets
  import opened Resolution
  import Cnf

  /** The clause built at main.py:157: both clauses united, with the literal
      and its negation removed. */
  function Cut(p: SetClause, n: SetClause, lit: int): SetClause
  {
    (p + n) - {lit, -lit}
  }

  /** The variables occurring in a clause set. */
  function Vars(f: set<SetClause>): set<nat>
  {
    set c, l | c in f && l in c :: Cnf.Var(l)
  }

  /** The clauses holding `l` (main.py:150-151). */
  function Holding(f: set<SetClause>, l: int): set<SetClause>
  {
    set c | c in f && l in c
  }

  /** The clauses holding `lit` but not `-lit`. */
  function Positive(f: set<SetClause>, lit: int): set<SetClause>
  {
    set c | c in f && lit in c && -lit !in c
  }

  /** The clauses holding `-lit` but not `lit`. */
  function Negative(f: set<SetClause>, lit: int): set<SetClause>
  {
    set c | c in f && -lit in c && lit !in c
  }

  /** The clauses mentioning neither `lit` nor `-lit` (main.py:161). */
  function Untouched(f: set<SetClause>, lit: int): set<SetClause>
  {
    set c | c in f && lit !in c && -lit !in c
  }

  /** The clauses `p` of `ps` paired with every clause of `ns`. */
  function PairCuts(ps: set<SetClause>, ns: set<SetClause>, lit: int): set<SetClause>
  {
    set p, n | p in ps && n in ns :: Cut(p, n, lit)
  }

  /** One round as written at main.py:150-161: every clause holding `lit` is
      paired with every clause holding `-lit`, including the clauses that hold
      both. No clause of the result mentions `lit` or `-lit`. */
  function RoundAsWritten(f: set<SetClause>, lit: int): (r: set<SetClause>)
    ensures forall c :: c in r ==> lit !in c && -lit !in c
  {
    Untouched(f, lit) + PairCuts(Holding(f, lit), Holding(f, -lit), lit)
  }

  /** One round with the clauses holding both `lit` and `-lit` left out of
      the pairing (they hold under every valuation). No clause of the
      result mentions `lit` or `-lit`. */
  function Eliminate(f: set<SetClause>, lit: int): (r: set<SetClause>)
    ensures forall c :: c in r ==> lit !in c && -lit !in c
  {
    Untouched(f, lit) + PairCuts(Positive(f, lit), Negative(f, lit), lit)
  }

  /** When no clause holds both `lit` and `-lit`, the round as written is
      the elimination. */
  lemma RoundAsWrittenAgrees(f: set<SetClause>, lit: int)
    requires forall c :: c in f ==> lit !in c || -lit !in c
    ensures RoundAsWritten(f, lit) == Eliminate(f, lit)
  {
    assert Holding(f, lit) == Positive(f, lit);
    assert Holding(f, -lit) == Negative(f, lit);
  }

  /** On a pair of clauses that are not tautologies on `lit`, the clause of
      main.py:157 is the standard resolvent. */
  lemma CutIsResolvent(p: SetClause, n: SetClause, lit: int)
    requires -lit !in p && lit !in n
    ensures Cut(p, n, lit) == Resolvent(p, n, lit)
  {
  }

  /** Changing a valuation at one variable leaves every literal of another
      variable unchanged. */
  lemma HoldsElsewhere(m: Valuation, x: nat, b: bool, l: int)
    requires Cnf.Var(l) != x
    ensures Holds((v: nat) => if v == x then b else m(v), l) == Holds(m, l)
  {
  }

  /** The valuation `m` changed at the variable of `lit` so that `lit` has the value `b`. */
  function Flip(m: Valuation, lit: int, b: bool): Valuation
  {
    (v: nat) => if v == Cnf.Var(lit) then (if lit < 0 then !b else b) else m(v)
  }

  lemma FlipHolds(m: Valuation, lit: int, b: bool)
    requires lit != 0
    ensures Holds(Flip(m, lit, b), lit) == b
    ensures Holds(Flip(m, lit, b), -lit) == !b
    ensures forall l :: l != lit && l != -lit ==> Holds(Flip(m, lit, b), l) == Holds(m, l)
  {
    assert Flip(m, lit, b)(Cnf.Var(lit)) == (if lit < 0 then !b else b);
    forall l | l != lit && l != -lit ensures Holds(Flip(m, lit, b), l) == Holds(m, l) {
      HoldsElsewhere(m, Cnf.Var(lit), if lit < 0 then !b else b, l);
    }
  }

  /** A clause satisfied by `m` through a literal other than `lit` and `-lit`
      stays satisfied when the variable of `lit` changes. */
  lemma SatisfiedElsewhere(m: Valuation, c: SetClause, lit: int, b: bool)
    requires lit != 0
    requires exists l :: l in c && l != lit && l != -lit && Holds(m, l)
    ensures SatClause(Flip(m, lit, b), c)
  {
    var l :| l in c && l != lit && l != -lit && Holds(m, l);
    FlipHolds(m, lit, b);
    assert Holds(Flip(m, lit, b), l);
  }

  /** Every model of `f` is a model of the eliminated set. */
  lemma EliminateSound(m: Valuation, f: set<SetClause>, lit: int)
    requires lit != 0
    requires Models(m, f)
    ensures Models(m, Eliminate(f, lit))
  {
    forall c | c in PairCuts(Positive(f, lit), Negative(f, lit), lit) ensures SatClause(m, c) {
      var p, n :| p in Positive(f, lit) && n in Negative(f, lit) && c == Cut(p, n, lit);
      CutIsResolvent(p, n, lit);
      ResolventSound(m, p, n, lit);
    }
  }

  /** When every clause holding `lit` is satisfied without it, making `lit`
      false turns a model of the eliminated set into a model of `f`. */
  lemma RepairWithFalse(m: Valuation, f: set<SetClause>, lit: int)
    requires lit != 0
    requires Models(m, Eliminate(f, lit))
    requires forall p :: p in Positive(f, lit) ==> SatClause(m, p - {lit})
    ensures Models(Flip(m, lit, false), f)
  {
    var m' := Flip(m, lit, false);
    FlipHolds(m, lit, false);
    forall c | c in f ensures SatClause(m', c) {
      if -lit in c {
        assert Holds(m', -lit);
      } else if lit in c {
        assert c in Positive(f, lit);
        var l :| l in c - {lit} && Holds(m, l);
        SatisfiedElsewhere(m, c, lit, false);
      } else {
        assert c in Untouched(f, lit);
        var l :| l in c && Holds(m, l);
        SatisfiedElsewhere(m, c, lit, false);
      }
    }
  }

  /** When the clause `p0` holding `lit` is not satisfied without it, making
      `lit` true turns a model of the eliminated set into a model of `f`: each
      clause holding `-lit` is satisfied through its resolvent with `p0`. */
  lemma RepairWithTrue(m: Valuation, f: set<SetClause>, lit: int, p0: SetClause)
    requires lit != 0
    requires Models(m, Eliminate(f, lit))
    requires p0 in Positive(f, lit) && !SatClause(m, p0 - {lit})
    ensures Models(Flip(m, lit, true), f)
  {
    var m' := Flip(m, lit, true);
    FlipHolds(m, lit, true);
    forall c | c in f ensures SatClause(m', c) {
      if lit in c {
        assert Holds(m', lit);
      } else if -lit in c {
        assert c in Negative(f, lit);
        assert Cut(p0, c, lit) in Eliminate(f, lit);
        var l :| l in Cut(p0, c, lit) && Holds(m, l);
        assert l !in p0 - {lit};
        SatisfiedElsewhere(m, c, lit, true);
      } else {
        assert c in Untouched(f, lit);
        var l :| l in c && Holds(m, l);
        SatisfiedElsewhere(m, c, lit, true);
      }
    }
  }

  /** Every model of the eliminated set, changed at the variable of `lit`,
      is a model of `f` (Davis and Putnam's elimination rule). */
  lemma EliminateComplete(m: Valuation, f: set<SetClause>, lit: int) returns (m': Valuation)
    requires lit != 0
    requires Models(m, Eliminate(f, lit))
    ensures Models(m', f)
    ensures forall v :: v != Cnf.Var(lit) ==> m'(v) == m(v)
  {
    if forall p :: p in Positive(f, lit) ==> SatClause(m, p - {lit}) {
      RepairWithFalse(m, f, lit);
      m' := Flip(m, lit, false);
    } else {
      var p0 :| p0 in Positive(f, lit) && !SatClause(m, p0 - {lit});
      RepairWithTrue(m, f, lit, p0);
      m' := Flip(m, lit, true);
    }
  }

  /** Elimination keeps satisfiability, in both directions. */
  lemma EliminateEquisatisfiable(f: set<SetClause>, lit: int)
    requires lit != 0
    ensures SatisfiableSet(Eliminate(f, lit)) <==> SatisfiableSet(f)
  {
    if SatisfiableSet(f) {
      var m :| Models(m, f);
      EliminateSound(m, f, lit);
    }
    if SatisfiableSet(Eliminate(f, lit)) {
      var m :| Models(m, Eliminate(f, lit));
      var m' := EliminateComplete(m, f, lit);
    }
  }

  /** A literal of an eliminated clause is a literal of `f` other than `lit` and `-lit`. */
  lemma EliminatedLiteral(f: set<SetClause>, lit: int, c: SetClause, l: int)
    requires c in Eliminate(f, lit) && l in c
    ensures l != lit && l != -lit
    ensures exists c' :: c' in f && l in c'
  {
    if c !in Untouched(f, lit) {
      var p, n :| p in Positive(f, lit) && n in Negative(f, lit) && c == Cut(p, n, lit);
      assert l in p || l in n;
    }
  }

  /** Elimination removes the variable of `lit` and adds no variable. */
  lemma EliminateShrinks(f: set<SetClause>, lit: int)
    requires exists c :: c in f && lit in c
    ensures Vars(Eliminate(f, lit)) < Vars(f)
  {
    var e := Eliminate(f, lit);
    forall c, l | c in e && l in c ensures Cnf.Var(l) in Vars(f) && Cnf.Var(l) != Cnf.Var(lit) {
      EliminatedLiteral(f, lit, c, l);
      var c' :| c' in f && l in c';
    }
    var c :| c in f && lit in c;
    assert Cnf.Var(lit) in Vars(f);
  }

  /** As written, a round on the satisfiable formula [{v, -v}] yields the
      empty clause for either choice of literal, so dp answers
      "unsatisfiable" in the next round. */
  lemma RoundAsWrittenRefutesTautology(v: int)
    requires v != 0
    ensures SatisfiableSet({{v, -v}})
    ensures RoundAsWritten({{v, -v}}, v) == {{}}
    ensures RoundAsWritten({{v, -v}}, -v) == {{}}
  {
    var m: Valuation := x => true;
    TautologyHolds(m, {v, -v});
    assert Models(m, {{v, -v}});
    assert Cut({v, -v}, {v, -v}, v) == {};
    assert Cut({v, -v}, {v, -v}, -v) == {};
    assert Untouched({{v, -v}}, v) == {};
    assert Untouched({{v, -v}}, -v) == {};
    assert Holding({{v, -v}}, v) == {{v, -v}};
    assert Holding({{v, -v}}, -v) == {{v, -v}};
    assert Holding({{v, -v}}, - -v) == {{v, -v}};
  }

  /** As written, the satisfiable {1, 2}, {-1, -2} reduces on the literal `v`,
      either variable and either sign, to the single tautology on the other
      variable; by RoundAsWrittenRefutesTautology the round after that yields
      the empty clause, so dp as written answers "unsatisfiable" whatever
      literals it picks. */
  lemma RoundAsWrittenRefutesSatisfiable(v: int)
    requires v in {1, -1, 2, -2}
    ensures SatisfiableSet({{1, 2}, {-1, -2}})
    ensures RoundAsWritten({{1, 2}, {-1, -2}}, v) == if Cnf.Var(v) == 1 then {{2, -2}} else {{1, -1}}
  {
    CrossSatisfiable();
    var f: set<SetClause> := {{1, 2}, {-1, -2}};
    var p, n := if v > 0 then {1, 2} else {-1, -2}, if v > 0 then {-1, -2} else {1, 2};
    assert Untouched(f, v) == {};
    assert Holding(f, v) == {p};
    assert Holding(f, -v) == {n};
    assert Cut(p, n, v) == if Cnf.Var(v) == 1 then {2, -2} else {1, -1};
  }

  /** With the tautology {2, -2} left out of the pairing, the round yields no
      clause, and dp answers "satisfiable" next. */
  lemma EliminateKeepsTautology()
    ensures Eliminate({{2, -2}}, 2) == {}
  {
    assert Positive({{2, -2}}, 2) == {};
  }

  /** `[c for c in formula if keep(c)]` */
  function Filter(formula: seq<SetClause>, keep: SetClause -> bool): (r: seq<SetClause>)
    ensures forall c :: c in r <==> c in formula && keep(c)
    ensures |r| <= |formula|
  {
    if formula == [] then []
    else (if keep(formula[0]) then [formula[0]] else []) + Filter(formula[1..], keep)
  }

  /** The clauses `p` paired with every `n` of `ns`, for one `p`. */
  function RowCuts(p: SetClause, ns: set<SetClause>, lit: int): set<SetClause>
  {
    set n | n in ns :: Cut(p, n, lit)
  }

  lemma PairCutsAddRow(ps: set<SetClause>, p: SetClause, ns: set<SetClause>, lit: int)
    ensures PairCuts(ps + {p}, ns, lit) == PairCuts(ps, ns, lit) + RowCuts(p, ns, lit)
  {
  }

  lemma RowCutsAdd(p: SetClause, ns: set<SetClause>, n: SetClause, lit: int)
    ensures RowCuts(p, ns + {n}, lit) == RowCuts(p, ns, lit) + {Cut(p, n, lit)}
  {
  }

  lemma ClauseSetPrefix(s: seq<SetClause>, i: nat)
    requires i < |s|
    ensures ClauseSet(s[..i + 1]) == ClauseSet(s[..i]) + {s[i]}
  {
    assert s[..i + 1] == s[..i] + [s[i]];
    ClauseSetAppend(s[..i], [s[i]]);
    assert ClauseSet([s[i]]) == {s[i]};
  }

  /** The inner loop at main.py:155-158 for one clause `p`. */
  method ResolveRow(p: SetClause, withNeg: seq<SetClause>, lit: int, acc: set<SetClause>, count0: nat)
    returns (resolvents: set<SetClause>, count: nat)
    ensures resolvents == acc + RowCuts(p, ClauseSet(withNeg), lit)
    ensures count == count0 + |withNeg|
  {
    resolvents, count := acc, count0;
    for j := 0 to |withNeg|
      invariant resolvents == acc + RowCuts(p, ClauseSet(withNeg[..j]), lit)
      invariant count == count0 + j
    {
      ClauseSetPrefix(withNeg, j);
      RowCutsAdd(p, ClauseSet(withNeg[..j]), withNeg[j], lit);
      resolvents := resolvents + {Cut(p, withNeg[j], lit)};
      count := count + 1;
    }
    assert withNeg[..|withNeg|] == withNeg;
  }

  /** The nested loops at main.py:154-158: every clause of `withLit` paired
      with every clause of `withNeg`, one step per pair. */
  method ResolveOn(withLit: seq<SetClause>, withNeg: seq<SetClause>, lit: int)
    returns (resolvents: set<SetClause>, count: nat)
    ensures resolvents == PairCuts(ClauseSet(withLit), ClauseSet(withNeg), lit)
    ensures count == |withLit| * |withNeg|
  {
    resolvents, count := {}, 0;
    for i := 0 to |withLit|
      invariant resolvents == PairCuts(ClauseSet(withLit[..i]), ClauseSet(withNeg), lit)
      invariant count == i * |withNeg|
    {
      ClauseSetPrefix(withLit, i);
      PairCutsAddRow(ClauseSet(withLit[..i]), withLit[i], ClauseSet(withNeg), lit);
      resolvents, count := ResolveRow(withLit[i], withNeg, lit, resolvents, count);
    }
    assert withLit[..|withLit|] == withLit;
  }

  /** One round on the clause list: the next list and the steps it took. */
  method Round(formula: seq<SetClause>, lit: int) returns (next: seq<SetClause>, count: nat)
    ensures ClauseSet(next) == Eliminate(ClauseSet(formula), lit)
  {
    var withLit := Filter(formula, c => lit in c && -lit !in c);
    var withNeg := Filter(formula, c => -lit in c && lit !in c);
    var resolvents;
    resolvents, count := ResolveOn(withLit, withNeg, lit);
    var kept := Filter(formula, c => lit !in c && -lit !in c);
    var added := Enumerate(resolvents);
    next := kept + added;
    ClauseSetAppend(kept, added);
    assert ClauseSet(withLit) == Positive(ClauseSet(formula), lit);
    assert ClauseSet(withNeg) == Negative(ClauseSet(formula), lit);
    assert ClauseSet(kept) == Untouched(ClauseSet(formula), lit);
  }

  /** No clause of the list holds the literal 0. */
  lemma NoZeroAfter(f: set<SetClause>, lit: int)
    requires forall c :: c in f ==> 0 !in c
    ensures forall c :: c in Eliminate(f, lit) ==> 0 !in c
  {
    forall c | c in Eliminate(f, lit) ensures 0 !in c {
      if c !in Untouched(f, lit) {
        var p, n :| p in Positive(f, lit) && n in Negative(f, lit) && c == Cut(p, n, lit);
      }
    }
  }

  /** A non-empty list without the empty clause has a literal. */
  lemma SomeLiteral(formula: seq<SetClause>) returns (lit: int)
    requires |formula| > 0 && {} !in formula
    ensures lit in Literals(formula)
  {
    var c := formula[0];
    assert c != {};
    if !exists l :: l in c {
      assert false;
    }
    lit :| lit in c;
  }

  /** dp with the clauses holding both `lit` and `-lit` left out of the
      pairing: it answers "satisfiable" exactly when the input is. */
  method Dp(input: seq<SetClause>) returns (sat: bool, steps: nat)
    requires NonZero(input)
    ensures sat <==> SatisfiableSet(ClauseSet(input))
  {
    var formula := input;
    steps := 0;
    while true
      invariant forall c :: c in ClauseSet(formula) ==> 0 !in c
      invariant SatisfiableSet(ClauseSet(formula)) <==> SatisfiableSet(ClauseSet(input))
      decreases Vars(ClauseSet(formula))
    {
      if |formula| == 0 {
        var m: Valuation := v => true;
        assert Models(m, ClauseSet(formula));
        return true, steps;
      }
      if {} in formula {
        assert forall m :: !Models(m, ClauseSet(formula)) by {
          forall m ensures !Models(m, ClauseSet(formula)) {
            assert !SatClause(m, {});
          }
        }
        return false, steps;
      }
      ghost var some := SomeLiteral(formula);
      var lit :| lit in Literals(formula);
      ghost var c :| c in formula && lit in c;
      assert lit != 0;
      EliminateEquisatisfiable(ClauseSet(formula), lit);
      EliminateShrinks(ClauseSet(formula), lit);
      NoZeroAfter(ClauseSet(formula), lit);
      var count;
      formula, count := Round(formula, lit);
      steps := steps + count;
    }
  }
}
