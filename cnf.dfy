/** Formulas in conjunctive normal form, partial assignments, and the
    variable-selection strategy used by the DPLL search. */
module Cnf {

  /** The status of a variable: UNASSIGNED (-1), FALSE (0) or TRUE (1). */
  datatype Value = Unassigned | False | True

  datatype Option<T> = None | Some(value: T)

  /** A clause is the (fixed, otherwise arbitrary) iteration order of its
      literal set; a formula is the list of clauses in file order. */
  type Clause = seq<int>
  type Formula = seq<Clause>

  /** `abs(lit)` */
  function Var(l: int): nat
  {
    if l < 0 then -l else l
  }

  /** Every literal is nonzero and its variable indexes an assignment of length `n`. */
  predicate InRange(clauses: Formula, n: nat)
  {
    forall c, l :: c in clauses && l in c ==> l != 0 && Var(l) < n
  }

  predicate IsUnassigned(a: seq<Value>, v: nat)
  {
    v < |a| && a[v] == Unassigned
  }

  predicate Assigned(a: seq<Value>, v: nat)
  {
    v < |a| && a[v] != Unassigned
  }

  /** A literal is true only under an explicit TRUE/FALSE value of its variable. */
  predicate IsTrue(a: seq<Value>, l: int)
  {
    Var(l) < |a| && ((l > 0 && a[Var(l)] == True) || (l < 0 && a[Var(l)] == False))
  }

  /** A literal is not falsified when it is true or its variable is unassigned. */
  predicate NotFalsified(a: seq<Value>, l: int)
  {
    Var(l) < |a| && ((l > 0 && a[Var(l)] != False) || (l < 0 && a[Var(l)] != True))
  }

  predicate ClauseSatisfied(a: seq<Value>, c: Clause)
  {
    exists l :: l in c && IsTrue(a, l)
  }

  /** Every literal of the clause is falsified: a conflict. */
  predicate ClauseFalsified(a: seq<Value>, c: Clause)
  {
    forall l :: l in c ==> !NotFalsified(a, l)
  }

  predicate Satisfies(a: seq<Value>, clauses: Formula)
  {
    forall c :: c in clauses ==> ClauseSatisfied(a, c)
  }

  /** Every variable occurring in some clause has a value. */
  predicate AllAssigned(a: seq<Value>, clauses: Formula)
  {
    forall c, l :: c in clauses && l in c ==> Assigned(a, Var(l))
  }

  predicate Occurs(clauses: Formula, v: nat)
  {
    exists c, l :: c in clauses && l in c && Var(l) == v
  }

  /** The variables still open for the search: they occur and are unassigned. */
  ghost function UnassignedVars(a: seq<Value>, clauses: Formula): set<nat>
  {
    set v: nat | v < |a| && a[v] == Unassigned && Occurs(clauses, v)
  }

  /** `b` keeps every value that `a` has fixed. */
  predicate Extends(b: seq<Value>, a: seq<Value>)
  {
    |b| == |a| && forall v :: 0 <= v < |a| && a[v] != Unassigned ==> b[v] == a[v]
  }

  /** `m` extends `a` and gives a value to every variable 1..|a|-1. */
  predicate IsTotalExtension(m: seq<Value>, a: seq<Value>)
  {
    Extends(m, a) && forall v :: 1 <= v < |m| ==> m[v] != Unassigned
  }

  ghost predicate NoSatisfyingExtension(clauses: Formula, a: seq<Value>)
  {
    forall m :: IsTotalExtension(m, a) ==> !Satisfies(m, clauses)
  }

  /** The variable of the first literal of `c`, in clause order, that is unassigned. */
  function FirstUnassigned(a: seq<Value>, c: Clause): (r: Option<nat>)
    requires forall l :: l in c ==> Var(l) < |a|
    ensures r.None? <==> forall l :: l in c ==> Assigned(a, Var(l))
    ensures r.Some? ==> IsUnassigned(a, r.value) && exists l :: l in c && Var(l) == r.value
  {
    if |c| == 0 then None
    else if a[Var(c[0])] == Unassigned then Some(Var(c[0]))
    else
      assert c == [c[0]] + c[1..];
      FirstUnassigned(a, c[1..])
  }

  /** simple_var_strategy: the first unassigned variable, scanning clauses in
      formula order and literals in clause order; None when every variable
      occurring in some clause is assigned. */
  function SimpleVarStrategy(a: seq<Value>, clauses: Formula): (r: Option<nat>)
    requires InRange(clauses, |a|)
    ensures r.None? <==> AllAssigned(a, clauses)
    ensures r.Some? ==> 0 < r.value && IsUnassigned(a, r.value) && Occurs(clauses, r.value)
  {
    if |clauses| == 0 then None
    else
      assert clauses == [clauses[0]] + clauses[1..];
      match FirstUnassigned(a, clauses[0])
      case Some(v) => Some(v)
      case None => SimpleVarStrategy(a, clauses[1..])
  }

  /** Position (i, j) holds the first unassigned literal in clause-then-literal order. */
  predicate FirstUnassignedAt(a: seq<Value>, clauses: Formula, i: int, j: int)
  {
    && 0 <= i < |clauses| && 0 <= j < |clauses[i]|
    && IsUnassigned(a, Var(clauses[i][j]))
    && (forall i', j' :: 0 <= i' < i && 0 <= j' < |clauses[i']| ==> Assigned(a, Var(clauses[i'][j'])))
    && (forall j' :: 0 <= j' < j ==> Assigned(a, Var(clauses[i][j'])))
  }

  lemma {:induction false} FirstUnassignedIsFirst(a: seq<Value>, c: Clause)
    requires forall l :: l in c ==> Var(l) < |a|
    ensures FirstUnassigned(a, c).Some? ==>
      exists j :: 0 <= j < |c| && FirstUnassigned(a, c).value == Var(c[j])
        && (forall k :: 0 <= k < j ==> Assigned(a, Var(c[k])))
  {
    if |c| > 0 && a[Var(c[0])] != Unassigned {
      FirstUnassignedIsFirst(a, c[1..]);
      if FirstUnassigned(a, c[1..]).Some? {
        var j :| 0 <= j < |c[1..]| && FirstUnassigned(a, c[1..]).value == Var(c[1..][j])
          && (forall k :: 0 <= k < j ==> Assigned(a, Var(c[1..][k])));
        assert forall k :: 0 <= k < j + 1 ==> Assigned(a, Var(c[k])) by {
          forall k | 0 <= k < j + 1 ensures Assigned(a, Var(c[k])) {
            if k > 0 { assert c[k] == c[1..][k - 1]; }
          }
        }
      }
    } else if |c| > 0 {
      assert FirstUnassigned(a, c).value == Var(c[0]);
    }
  }

  /** The strategy returns exactly the variable at the first unassigned position. */
  lemma {:induction false} StrategyPicksFirst(a: seq<Value>, clauses: Formula)
    requires InRange(clauses, |a|)
    ensures SimpleVarStrategy(a, clauses).Some? ==>
      exists i, j :: FirstUnassignedAt(a, clauses, i, j) && SimpleVarStrategy(a, clauses).value == Var(clauses[i][j])
  {
    if |clauses| > 0 {
      assert clauses == [clauses[0]] + clauses[1..];
      var c := clauses[0];
      FirstUnassignedIsFirst(a, c);
      match FirstUnassigned(a, c)
      case Some(v) =>
        var j :| 0 <= j < |c| && v == Var(c[j]) && (forall k :: 0 <= k < j ==> Assigned(a, Var(c[k])));
        assert FirstUnassignedAt(a, clauses, 0, j);
      case None =>
        StrategyPicksFirst(a, clauses[1..]);
        if SimpleVarStrategy(a, clauses[1..]).Some? {
          var rest := clauses[1..];
          var i, j :| FirstUnassignedAt(a, rest, i, j) && SimpleVarStrategy(a, rest).value == Var(rest[i][j]);
          assert rest[i] == clauses[i + 1];
          forall i', j' | 0 <= i' < i + 1 && 0 <= j' < |clauses[i']|
            ensures Assigned(a, Var(clauses[i'][j']))
          {
            if i' == 0 {
              assert clauses[0][j'] in c;
            } else {
              assert clauses[i'] == rest[i' - 1];
            }
          }
          assert FirstUnassignedAt(a, clauses, i + 1, j);
        }
    }
  }

  /** A conflict clause rules out every total extension. */
  lemma FalsifiedClauseBlocks(clauses: Formula, a: seq<Value>, c: Clause)
    requires c in clauses && ClauseFalsified(a, c)
    ensures NoSatisfyingExtension(clauses, a)
  {
    forall m | IsTotalExtension(m, a) ensures !Satisfies(m, clauses) {
      forall l | l in c ensures !IsTrue(m, l) {
        assert !NotFalsified(a, l);
      }
    }
  }

  /** With every variable assigned, an unsatisfied clause is a conflict. */
  lemma UnsatisfiedAssignedBlocks(clauses: Formula, a: seq<Value>, c: Clause)
    requires InRange(clauses, |a|) && AllAssigned(a, clauses)
    requires c in clauses && !ClauseSatisfied(a, c)
    ensures NoSatisfyingExtension(clauses, a)
  {
    forall l | l in c ensures !NotFalsified(a, l) {
      assert !IsTrue(a, l);
    }
    FalsifiedClauseBlocks(clauses, a, c);
  }

  /** If neither value of an unassigned variable can be extended to a model, nothing can. */
  /** The branch order of main.py:76 and main.py:87-88: TRUE is tried first
      and the first value that leads to a model is kept, so the branch
      variable of `a` ends TRUE in `b` exactly when setting it TRUE extends
      to a model. */
  ghost predicate TrueFirst(clauses: Formula, a: seq<Value>, b: seq<Value>)
    requires InRange(clauses, |a|)
  {
    var choice := SimpleVarStrategy(a, clauses);
    choice.Some? && |b| == |a| ==> (b[choice.value] == True <==> !NoSatisfyingExtension(clauses, a[choice.value := True]))
  }

  /** The search keeps the first value, in the order TRUE, FALSE, that
      extends to a model: a result extending `a[x := value]` ends with `x`
      TRUE exactly when TRUE extends to a model. */
  lemma FirstSuccessfulBranch(clauses: Formula, a: seq<Value>, x: nat, value: Value, b: seq<Value>)
    requires x < |a| && value != Unassigned && Extends(b, a[x := value])
    requires !NoSatisfyingExtension(clauses, a[x := value])
    requires value == False ==> NoSatisfyingExtension(clauses, a[x := True])
    ensures b[x] == True <==> !NoSatisfyingExtension(clauses, a[x := True])
  {
    assert a[x := value][x] == value;
  }

  lemma BothValuesBlock(clauses: Formula, a: seq<Value>, x: nat)
    requires 1 <= x < |a| && a[x] == Unassigned
    requires NoSatisfyingExtension(clauses, a[x := True])
    requires NoSatisfyingExtension(clauses, a[x := False])
    ensures NoSatisfyingExtension(clauses, a)
  {
    forall m | IsTotalExtension(m, a) ensures !Satisfies(m, clauses) {
      assert IsTotalExtension(m, a[x := m[x]]);
    }
  }

  /** An assignment that satisfies every clause and extends `a` (it may leave
      variables unassigned) yields a total extension of `a` that does too. */
  lemma SatisfyingAssignmentExtends(clauses: Formula, a: seq<Value>, b: seq<Value>)
    requires Extends(b, a) && Satisfies(b, clauses)
    ensures !NoSatisfyingExtension(clauses, a)
  {
    var m := seq(|b|, v requires 0 <= v < |b| => if v >= 1 && b[v] == Unassigned then True else b[v]);
    assert IsTotalExtension(m, a);
    forall c | c in clauses ensures ClauseSatisfied(m, c) {
      var l :| l in c && IsTrue(b, l);
      assert IsTrue(m, l);
    }
  }

  /** `[UNASSIGNED] * n` */
  function AllUnassigned(n: nat): (a: seq<Value>)
    ensures |a| == n && forall v :: 0 <= v < n ==> a[v] == Unassigned
  {
    if n == 0 then [] else AllUnassigned(n - 1) + [Unassigned]
  }

  /** Some total assignment of variables 1..n-1 satisfies every clause. */
  ghost predicate Satisfiable(clauses: Formula, n: nat)
  {
    !NoSatisfyingExtension(clauses, AllUnassigned(n))
  }

  /** At least one literal occurs in the formula. */
  predicate HasLiteral(clauses: Formula)
  {
    exists c, l :: c in clauses && l in c
  }

  /** `max(abs(lit) for clause in formula for lit in clause)`, or 0 when there is no literal. */
  function MaxVar(clauses: Formula): (r: nat)
    ensures forall c, l :: c in clauses && l in c ==> Var(l) <= r
    ensures HasLiteral(clauses) ==> Occurs(clauses, r)
    ensures !HasLiteral(clauses) ==> r == 0
  {
    if |clauses| == 0 then 0
    else
      assert clauses == [clauses[0]] + clauses[1..];
      var here := MaxVarIn(clauses[0]);
      var rest := MaxVar(clauses[1..]);
      assert HasLiteral(clauses) && |clauses[0]| == 0 ==> HasLiteral(clauses[1..]) by {
        if HasLiteral(clauses) && |clauses[0]| == 0 {
          var c, l :| c in clauses && l in c;
          assert c in clauses[1..];
        }
      }
      assert |clauses[0]| > 0 ==> Occurs(clauses, here) by {
        if |clauses[0]| > 0 {
          var l :| l in clauses[0] && Var(l) == here;
          assert clauses[0] in clauses;
        }
      }
      assert HasLiteral(clauses[1..]) ==> Occurs(clauses, rest) by {
        if HasLiteral(clauses[1..]) {
          var c, l :| c in clauses[1..] && l in c && Var(l) == rest;
          assert c in clauses;
        }
      }
      if here >= rest then here else rest
  }

  /** Variables 1..max index an assignment of length max + 1. */
  lemma NumVarsInRange(clauses: Formula)
    requires forall c, l :: c in clauses && l in c ==> l != 0
    ensures InRange(clauses, MaxVar(clauses) + 1)
  {
  }

  function MaxVarIn(c: Clause): (r: nat)
    ensures forall l :: l in c ==> Var(l) <= r
    ensures |c| > 0 ==> exists l :: l in c && Var(l) == r
  {
    if |c| == 0 then 0
    else
      assert c == [c[0]] + c[1..];
      var rest := MaxVarIn(c[1..]);
      if Var(c[0]) >= rest then Var(c[0]) else rest
  }
}
