/** The resolution baseline (main.py:100-131): the resolvents of two
    clauses, and saturation of a clause list under resolution. */
module Resolution {
  import opened ClauseSets

  /** The resolvent of `c1` and `c2` on `lit`, where `lit` is in `c1` and
      `-lit` in `c2`: every other literal of either clause. */
  function Resolvent(c1: SetClause, c2: SetClause, lit: int): SetClause
  {
    (c1 - {lit}) + (c2 - {-lit})
  }

  /** rezolva, with the standard resolvent: one resolvent per literal of
      `c1` whose negation is in `c2`. */
  function Rezolva(c1: SetClause, c2: SetClause): (r: set<SetClause>)
    ensures forall c :: c in r ==> c <= c1 + c2
  {
    set lit | lit in c1 && -lit in c2 :: Resolvent(c1, c2, lit)
  }

  /** rezolva as written at main.py:106: the literal and its negation are
      removed from the union of both clauses. */
  function RezolvaAsWritten(c1: SetClause, c2: SetClause): (r: set<SetClause>)
    ensures forall c :: c in r ==> c <= c1 + c2
  {
    set lit | lit in c1 && -lit in c2 :: (c1 + c2) - {lit, -lit}
  }

  /** Every resolvent holds wherever both of its parents hold. */
  lemma ResolventSound(m: Valuation, c1: SetClause, c2: SetClause, lit: int)
    requires lit != 0 && lit in c1 && -lit in c2
    requires SatClause(m, c1) && SatClause(m, c2)
    ensures SatClause(m, Resolvent(c1, c2, lit))
  {
    var l1 :| l1 in c1 && Holds(m, l1);
    var l2 :| l2 in c2 && Holds(m, l2);
    if l1 != lit {
      assert l1 in Resolvent(c1, c2, lit);
    } else {
      assert l2 != -lit;
      assert l2 in Resolvent(c1, c2, lit);
    }
  }

  /** Resolvents of clauses implied by `f` are implied by `f`. */
  lemma RezolvaImplied(f: set<SetClause>, c1: SetClause, c2: SetClause)
    requires 0 !in c1
    requires Implied(f, c1) && Implied(f, c2)
    ensures forall r :: r in Rezolva(c1, c2) ==> Implied(f, r)
  {
    forall r, m | r in Rezolva(c1, c2) && Models(m, f) ensures SatClause(m, r) {
      var lit :| lit in c1 && -lit in c2 && r == Resolvent(c1, c2, lit);
      ResolventSound(m, c1, c2, lit);
    }
  }

  /** Two clauses have the empty resolvent exactly when they are the unit
      clauses of a literal and of its negation. */
  lemma EmptyResolvent(c1: SetClause, c2: SetClause)
    ensures {} in Rezolva(c1, c2) <==> exists lit :: lit in c1 && c1 == {lit} && c2 == {-lit}
  {
    if {} in Rezolva(c1, c2) {
      var lit :| lit in c1 && -lit in c2 && Resolvent(c1, c2, lit) == {};
      assert c1 - {lit} == {} && c2 - {-lit} == {};
      assert c1 == {lit} && c2 == {-lit};
    }
    if exists lit :: lit in c1 && c1 == {lit} && c2 == {-lit} {
      var lit :| lit in c1 && c1 == {lit} && c2 == {-lit};
      assert Resolvent(c1, c2, lit) == {};
    }
  }

  /** The resolvents of a pair do not depend on the order of the pair. */
  lemma RezolvaSymmetric(c1: SetClause, c2: SetClause)
    ensures Rezolva(c1, c2) == Rezolva(c2, c1)
  {
    forall r | r in Rezolva(c1, c2) ensures r in Rezolva(c2, c1) {
      var lit :| lit in c1 && -lit in c2 && r == Resolvent(c1, c2, lit);
      assert - -lit == lit;
      assert r == Resolvent(c2, c1, -lit);
    }
    forall r | r in Rezolva(c2, c1) ensures r in Rezolva(c1, c2) {
      var lit :| lit in c2 && -lit in c1 && r == Resolvent(c2, c1, lit);
      assert - -lit == lit;
      assert r == Resolvent(c1, c2, -lit);
    }
  }

  /** Resolving a clause with itself yields only the clause itself. */
  lemma SelfResolvents(c: SetClause)
    requires 0 !in c
    ensures Rezolva(c, c) <= {c}
  {
    forall r | r in Rezolva(c, c) ensures r == c {
      var lit :| lit in c && -lit in c && r == Resolvent(c, c, lit);
      assert lit != -lit;
    }
  }

  /** On clauses that are not tautologies, the resolvent as written is
      the standard one. */
  lemma AsWrittenAgreesOffTautologies(c1: SetClause, c2: SetClause)
    requires !Tautology(c1) && !Tautology(c2)
    ensures RezolvaAsWritten(c1, c2) == Rezolva(c1, c2)
  {
    forall lit | lit in c1 && -lit in c2 ensures (c1 + c2) - {lit, -lit} == Resolvent(c1, c2, lit) {
      assert -lit !in c1;
      assert - -lit == lit;
      assert lit !in c2;
    }
  }

  /** The resolvent as written of {1, 2} and the tautology {2, -2} is {1},
      although the valuation x1 = false, x2 = true satisfies both parents. */
  lemma AsWrittenResolventUnsound()
    ensures {1} in RezolvaAsWritten({1, 2}, {2, -2})
    ensures !Implied({{1, 2}, {2, -2}}, {1})
  {
    assert ({1, 2} + {2, -2}) - {2, -2} == {1};
    var m: Valuation := v => v == 2;
    assert Holds(m, 2) && !Holds(m, 1);
    assert SatClause(m, {1, 2}) && SatClause(m, {2, -2}) by {
      assert 2 in {1, 2} && 2 in {2, -2};
    }
    assert Models(m, {{1, 2}, {2, -2}});
    assert !SatClause(m, {1});
  }

  /** The satisfiable formula {1, 2}, {-1, -2} of the examples below and in DavisPutnam. */
  lemma CrossSatisfiable()
    ensures SatisfiableSet({{1, 2}, {-1, -2}})
  {
    var m: Valuation := v => v == 2;
    assert Holds(m, 2) && Holds(m, -1);
    assert SatClause(m, {1, 2}) by { assert 2 in {1, 2}; }
    assert SatClause(m, {-1, -2}) by { assert -1 in {-1, -2}; }
    assert Models(m, {{1, 2}, {-1, -2}});
  }

  /** From the satisfiable {1, 2}, {-1, -2} the resolvents as written derive
      {2, -2}, then {1} and {-1}, then the empty clause, so rezolutie as
      written answers "unsatisfiable". */
  lemma AsWrittenRefutesSatisfiable()
    ensures SatisfiableSet({{1, 2}, {-1, -2}})
    ensures {2, -2} in RezolvaAsWritten({1, 2}, {-1, -2})
    ensures {1} in RezolvaAsWritten({1, 2}, {2, -2})
    ensures {-1} in RezolvaAsWritten({-1, -2}, {2, -2})
    ensures {} in RezolvaAsWritten({1}, {-1}) && {} in RezolvaAsWritten({-1}, {1})
  {
    CrossSatisfiable();
    assert ({1, 2} + {-1, -2}) - {1, -1} == {2, -2};
    assert ({1, 2} + {2, -2}) - {2, -2} == {1};
    assert ({-1, -2} + {2, -2}) - {-2, 2} == {-1};
    assert ({1} + {-1}) - {1, -1} == {};
    assert ({-1} + {1}) - {-1, 1} == {};
  }

  /** `len(pairs)`: the number of index pairs i < j below n. */
  function PairCount(n: nat): (r: nat)
    ensures 2 * r == n * (n - 1)
  {
    if n == 0 then 0 else PairCount(n - 1) + (n - 1)
  }

  /** Every clause of `resolvents` is a resolvent of some pair i < j of the list. */
  ghost predicate FromPairs(formula: seq<SetClause>, resolvents: set<SetClause>)
  {
    forall c :: c in resolvents ==> exists a, b :: 0 <= a < b < |formula| && c in Rezolva(formula[a], formula[b])
  }

  /** The pairs (i, j), i < j, for one `i` of the loop at main.py:120-124. */
  method ResolveRow(formula: seq<SetClause>, i: nat, resolvents0: set<SetClause>) returns (empty: bool, resolvents: set<SetClause>)
    requires i < |formula|
    requires FromPairs(formula, resolvents0)
    ensures empty <==> exists b :: i < b < |formula| && {} in Rezolva(formula[i], formula[b])
    ensures resolvents0 <= resolvents
    ensures !empty ==> forall b :: i < b < |formula| ==> Rezolva(formula[i], formula[b]) <= resolvents
    ensures FromPairs(formula, resolvents)
  {
    resolvents := resolvents0;
    for j := i + 1 to |formula|
      invariant resolvents0 <= resolvents
      invariant forall b :: i < b < j ==> {} !in Rezolva(formula[i], formula[b])
      invariant forall b :: i < b < j ==> Rezolva(formula[i], formula[b]) <= resolvents
      invariant FromPairs(formula, resolvents)
    {
      var rezolvante := Rezolva(formula[i], formula[j]);
      if {} in rezolvante {
        return true, resolvents;
      }
      resolvents := resolvents + rezolvante;
    }
    return false, resolvents;
  }

  /** The resolvents of every pair (i, j), i < j, of the clause list
      (main.py:116-124): either some pair has the empty resolvent, or `resolvents`
      holds exactly the resolvents of all pairs. */
  method ResolvePairs(formula: seq<SetClause>) returns (empty: bool, resolvents: set<SetClause>)
    ensures empty <==> exists i, j :: 0 <= i < j < |formula| && {} in Rezolva(formula[i], formula[j])
    ensures !empty ==> forall i, j :: 0 <= i < j < |formula| ==> Rezolva(formula[i], formula[j]) <= resolvents
    ensures !empty ==> FromPairs(formula, resolvents)
  {
    resolvents := {};
    for i := 0 to |formula|
      invariant forall a, b :: 0 <= a < i && a < b < |formula| ==> {} !in Rezolva(formula[a], formula[b])
      invariant forall a, b :: 0 <= a < i && a < b < |formula| ==> Rezolva(formula[a], formula[b]) <= resolvents
      invariant FromPairs(formula, resolvents)
    {
      var rowEmpty;
      rowEmpty, resolvents := ResolveRow(formula, i, resolvents);
      if rowEmpty {
        return true, resolvents;
      }
    }
    return false, resolvents;
  }

  /** The clause set `known` is saturated for `f`: it holds the clauses of
      `f`, only clauses `f` implies, and every resolvent of two of its
      clauses. */
  ghost predicate Saturated(f: set<SetClause>, known: set<SetClause>)
  {
    && f <= known
    && (forall c :: c in known ==> Implied(f, c))
    && (forall c1, c2 :: c1 in known && c2 in known ==> Rezolva(c1, c2) <= known)
  }

  /** When every pair i < j of the list has its resolvents among the list's
      clauses, every pair of its clauses in either order does. */
  lemma ClosedUnderPairs(formula: seq<SetClause>, known: set<SetClause>)
    requires ClauseSet(formula) == known
    requires forall c :: c in known ==> 0 !in c
    requires forall i, j :: 0 <= i < j < |formula| ==> Rezolva(formula[i], formula[j]) <= known
    ensures forall c1, c2 :: c1 in known && c2 in known ==> Rezolva(c1, c2) <= known
  {
    forall c1, c2 | c1 in known && c2 in known ensures Rezolva(c1, c2) <= known {
      var i :| 0 <= i < |formula| && formula[i] == c1;
      var j :| 0 <= j < |formula| && formula[j] == c2;
      if i > j {
        RezolvaSymmetric(c1, c2);
      } else if i == j {
        SelfResolvents(c1);
      }
    }
  }

  /** Every clause of `known` is over the literals `lits`, lacks the
      literal 0 and is implied by `f`. */
  ghost predicate Derived(f: set<SetClause>, lits: set<int>, known: set<SetClause>)
  {
    forall c :: c in known ==> c <= lits && 0 !in c && Implied(f, c)
  }

  /** The resolvents of pairs of a list of implied clauses over `lits` are
      implied clauses over `lits`, and none is empty when no pair has the
      empty resolvent. */
  lemma PairResolventsImplied(f: set<SetClause>, lits: set<int>, formula: seq<SetClause>, known: set<SetClause>, generated: set<SetClause>)
    requires 0 !in lits
    requires ClauseSet(formula) == known && Derived(f, lits, known)
    requires forall i, j :: 0 <= i < j < |formula| ==> {} !in Rezolva(formula[i], formula[j])
    requires FromPairs(formula, generated)
    ensures Derived(f, lits, known + generated)
    ensures {} !in generated
  {
    forall c | c in generated ensures c <= lits && Implied(f, c) && c != {} {
      var i, j :| 0 <= i < j < |formula| && c in Rezolva(formula[i], formula[j]);
      assert formula[i] in known && formula[j] in known;
      RezolvaImplied(f, formula[i], formula[j]);
    }
  }

  /** An empty resolvent of two implied clauses makes `f` unsatisfiable. */
  lemma EmptyPairResolvent(f: set<SetClause>, lits: set<int>, formula: seq<SetClause>)
    requires Derived(f, lits, ClauseSet(formula))
    requires exists i, j :: 0 <= i < j < |formula| && {} in Rezolva(formula[i], formula[j])
    ensures !SatisfiableSet(f)
  {
    var i, j :| 0 <= i < j < |formula| && {} in Rezolva(formula[i], formula[j]);
    assert formula[i] in ClauseSet(formula) && formula[j] in ClauseSet(formula);
    RezolvaImplied(f, formula[i], formula[j]);
  }

  /** The clauses of the input are over its literals and implied by it. */
  lemma InputDerived(input: seq<SetClause>)
    requires NonZero(input)
    ensures Derived(ClauseSet(input), Literals(input), ClauseSet(input))
    ensures 0 !in Literals(input)
  {
    forall c | c in ClauseSet(input) ensures c <= Literals(input) {
      assert forall l :: l in c ==> l in Literals(input);
    }
  }

  lemma DerivedHasNoZero(f: set<SetClause>, lits: set<int>, known: set<SetClause>)
    requires Derived(f, lits, known)
    ensures forall c :: c in known ==> 0 !in c
  {
  }

  lemma DerivedOverLits(f: set<SetClause>, lits: set<int>, known: set<SetClause>)
    requires Derived(f, lits, known)
    ensures forall c :: c in known ==> c <= lits
  {
  }

  /** A strictly larger clause set over the same literals leaves fewer
      unused sets of those literals. */
  lemma GrowthWithin(lits: set<int>, known: set<SetClause>, grown: set<SetClause>)
    requires known < grown
    requires forall c :: c in grown ==> c <= lits
    ensures PowerSet(lits) - grown < PowerSet(lits) - known
  {
    var c :| c in grown && c !in known;
    assert c in PowerSet(lits) - known;
  }

  /** One round's update at main.py:129-130: append the new resolvents to the
      clause list and to `cunoscut`; the set of unused clauses over `lits` shrinks. */
  method Extend(ghost f: set<SetClause>, ghost lits: set<int>, formula: seq<SetClause>, known: set<SetClause>, generated: set<SetClause>)
    returns (formula': seq<SetClause>, known': set<SetClause>)
    requires ClauseSet(formula) == known
    requires Derived(f, lits, known + generated)
    requires !(generated <= known)
    ensures known' == known + generated
    ensures ClauseSet(formula') == known'
    ensures Derived(f, lits, known')
    ensures PowerSet(lits) - known' < PowerSet(lits) - known
  {
    DerivedOverLits(f, lits, known + generated);
    var added := Enumerate(generated - known);
    ClauseSetAppend(formula, added);
    formula' := formula + added;
    GrowthWithin(lits, known, known + generated);
    known' := known + generated;
  }

  /** rezolutie with the standard resolvent: saturate the clause list by
      resolution, adding the new resolvents each round; the empty resolvent
      means unsatisfiable, a round with nothing new means saturated.
      `closure` is the final value of `cunoscut`. */
  method Rezolutie(input: seq<SetClause>) returns (sat: bool, steps: nat, ghost closure: set<SetClause>)
    requires NonZero(input)
    ensures !sat ==> !SatisfiableSet(ClauseSet(input))
    ensures sat ==> Saturated(ClauseSet(input), closure)
    ensures sat && {} !in input ==> {} !in closure
  {
    ghost var f := ClauseSet(input);
    ghost var lits := Literals(input);
    var formula := input;
    var known := ClauseSet(input);
    steps := 0;
    InputDerived(input);
    while true
      invariant ClauseSet(formula) == known
      invariant f <= known
      invariant Derived(f, lits, known)
      invariant {} in known ==> {} in input
      decreases PowerSet(lits) - known
    {
      steps := steps + PairCount(|formula|);
      var empty, generated := ResolvePairs(formula);
      if empty {
        EmptyPairResolvent(f, lits, formula);
        return false, steps, known;
      }
      if generated <= known {
        DerivedHasNoZero(f, lits, known);
        ClosedUnderPairs(formula, known);
        return true, steps, known;
      }
      PairResolventsImplied(f, lits, formula, known, generated);
      formula, known := Extend(f, lits, formula, known, generated);
    }
  }
}
