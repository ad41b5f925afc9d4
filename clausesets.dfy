/** Clauses as sets of literals (the frozensets of the two baseline
    solvers), and their meaning under a total valuation of the variables. */
module ClauseSets {

  /** A clause is its set of literals: `v` for the variable `v`, `-v` for
      its negation. */
  type SetClause = set<int>

  /** A total valuation: the truth value of every variable. */
  type Valuation = nat -> bool

  /** Literal `l` is true under `m`. */
  predicate Holds(m: Valuation, l: int)
  {
    if l < 0 then !m(-l) else m(l)
  }

  ghost predicate SatClause(m: Valuation, c: SetClause)
  {
    exists l :: l in c && Holds(m, l)
  }

  /** `m` satisfies every clause of `f`. */
  ghost predicate Models(m: Valuation, f: set<SetClause>)
  {
    forall c :: c in f ==> SatClause(m, c)
  }

  ghost predicate SatisfiableSet(f: set<SetClause>)
  {
    exists m :: Models(m, f)
  }

  /** Every valuation satisfying `f` satisfies `c`. */
  ghost predicate Implied(f: set<SetClause>, c: SetClause)
  {
    forall m :: Models(m, f) ==> SatClause(m, c)
  }

  /** The clauses of a clause list. */
  function ClauseSet(f: seq<SetClause>): set<SetClause>
  {
    set c | c in f
  }

  /** The literals occurring in a clause list. */
  function Literals(f: seq<SetClause>): set<int>
  {
    set l, c | c in f && l in c :: l
  }

  /** No clause contains the literal 0 (the DIMACS reader drops it). */
  predicate NonZero(f: seq<SetClause>)
  {
    forall c, l :: c in f && l in c ==> l != 0
  }

  /** A clause holding a literal and its negation. */
  predicate Tautology(c: SetClause)
  {
    exists l :: l in c && -l in c
  }

  /** All sets of literals drawn from `s`. */
  ghost function PowerSet(s: set<int>): set<SetClause>
  {
    set t: set<int> | t <= s
  }

  /** Appending lists unites their clause sets. */
  lemma ClauseSetAppend(a: seq<SetClause>, b: seq<SetClause>)
    ensures ClauseSet(a + b) == ClauseSet(a) + ClauseSet(b)
  {
    forall c | c in ClauseSet(a + b) ensures c in ClauseSet(a) + ClauseSet(b) {
      var k :| 0 <= k < |a + b| && (a + b)[k] == c;
      if k < |a| {
        assert a[k] == c;
      } else {
        assert b[k - |a|] == c;
      }
    }
  }

  /** A tautology holds under every valuation. */
  lemma TautologyHolds(m: Valuation, c: SetClause)
    requires Tautology(c) && 0 !in c
    ensures SatClause(m, c)
  {
    var l :| l in c && -l in c;
    if Holds(m, l) {
      assert l in c && Holds(m, l);
    } else {
      assert -l in c && Holds(m, -l);
    }
  }

  /** `list(s)`: the elements of a set in an arbitrary order, each once. */
  method Enumerate(s: set<SetClause>) returns (r: seq<SetClause>)
    ensures ClauseSet(r) == s
    ensures |r| == |s|
  {
    r := [];
    var rest := s;
    while rest != {}
      invariant ClauseSet(r) + rest == s
      invariant ClauseSet(r) !! rest
      invariant |r| + |rest| == |s|
      decreases rest
    {
      var c :| c in rest;
      ClauseSetAppend(r, [c]);
      assert ClauseSet([c]) == {c};
      rest := rest - {c};
      r := r + [c];
    }
  }
}
