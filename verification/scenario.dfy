/** A worked instance with two glue atoms `a` and `b`, both free in the guess program. The check
    program is satisfiable exactly when both are false, and its witness marks both relevant. */
module Scenario {
  import opened Results
  import opened Literals
  import opened Checker
  import opened CheckPropagator

  /** `a` and `b` with solver literals 1 and 2, both undecided at initialisation. */
  const Atoms := [Atom("a", 1, Unknown), Atom("b", 2, Unknown)]

  const GlueSymbols: set<string> := {"a", "b"}

  /** The checker's sub-solve: the checker hands out atoms 1, 2 for `a`, `relevant(a)` and 3, 4 for
      `b`, `relevant(b)`; only the assumptions "not a, not b" are satisfiable, with both indicators
      true in the model. */
  function Solve(assumptions: seq<int>): SolveOutcome {
    if assumptions == [-1, -3] then Sat({2, 4}) else Unsat
  }

  lemma InitTwoAtoms()
    ensures Init(1, Atoms, GlueSymbols) ==
              Propagator([CheckerState([Entry(1, 1, 2), Entry(2, 3, 4)],
                                       [Choice(1), Choice(2), Choice(3), Choice(4)], 5)],
                         [1, 2])
  {
    var c1 := CheckerState([Entry(1, 1, 2)], [Choice(1), Choice(2)], 3);
    var c2 := CheckerState([Entry(1, 1, 2), Entry(2, 3, 4)], [Choice(1), Choice(2), Choice(3), Choice(4)], 5);
    assert "a" in GlueSymbols && "b" in GlueSymbols;
    assert Atoms[0] == Atom("a", 1, Unknown) && Atoms[1] == Atom("b", 2, Unknown);
    assert EmptyChecker.next == 1;
    assert AddEntry([], 1, 1, 2) == [Entry(1, 1, 2)];
    assert [] + [Choice(1), Choice(2)] == [Choice(1), Choice(2)];
    assert AddEntry(c1.table, 2, 3, 4) == c2.table;
    assert c1.rules + [Choice(3), Choice(4)] == c2.rules;
    assert [] + [1] == [1] && [1] + [2] == [1, 2];
    assert AddAtom(EmptyChecker, [], Atoms[0], GlueSymbols) == (c1, [1]);
    assert AddAtom(c1, [1], Atoms[1], GlueSymbols) == (c2, [1, 2]);
    assert Atoms[1..] == [Atoms[1]];
    assert Atoms[1..][1..] == [];
    assert InitChecker(c2, [1, 2], [], GlueSymbols) == (c2, [1, 2]);
    assert InitChecker(c1, [1], Atoms[1..], GlueSymbols) == (c2, [1, 2]);
    assert InitChecker(EmptyChecker, [], Atoms, GlueSymbols) == (c2, [1, 2]);
    assert Init(0, Atoms, GlueSymbols) == Propagator([], []);
  }

  const Table := [Entry(1, 1, 2), Entry(2, 3, 4)]

  lemma AssumptionsTwoAtoms(x: bool, y: bool)
    ensures Assumptions(Table, map[1 := x, 2 := y]) == [if x then 1 else -1, if y then 3 else -3]
  {
    var a := map[1 := x, 2 := y];
    assert Table[1..] == [Entry(2, 3, 4)];
    assert Table[1..][1..] == [];
    assert IsTrue(a, 1) == x && IsTrue(a, 2) == y;
  }

  lemma ClauseTwoAtoms()
    ensures Mask(Table, {2, 4}) == [1, 2]
    ensures Conflict([1, 2], [1, 2], map[1 := false, 2 := false]) == [1, 2]
  {
    assert Table[1..] == [Entry(2, 3, 4)];
    assert Table[1..][1..] == [];
    assert [1, 2][1..] == [2];
    assert [2][1..] == [];
  }

  /** The candidate with both atoms false violates the check and yields the clause `a ∨ b`. */
  lemma BothFalseRejected()
    ensures PropagatorCheck(Init(1, Atoms, GlueSymbols), 0, map[1 := false, 2 := false], Solve) == Ok(Some([1, 2]))
  {
    InitTwoAtoms();
    AssumptionsTwoAtoms(false, false);
    ClauseTwoAtoms();
    var a := map[1 := false, 2 := false];
    assert Solve(Assumptions(Table, a)) == Sat({2, 4});
    assert Check(Table, a, Solve) == Ok(Verdict(false, [1, 2]));
  }

  /** Candidates with `a` or `b` true pass the check and add no clause. */
  lemma OneTrueAccepted(x: bool, y: bool)
    requires x || y
    ensures PropagatorCheck(Init(1, Atoms, GlueSymbols), 0, map[1 := x, 2 := y], Solve) == Ok(None)
  {
    InitTwoAtoms();
    AssumptionsTwoAtoms(x, y);
    var a := map[1 := x, 2 := y];
    assert Solve(Assumptions(Table, a)) == Unsat;
  }

  /** Once learnt, `a ∨ b` is violated by exactly the candidates with both atoms false. */
  lemma LearntClauseExcludesBothFalse(x: bool, y: bool)
    ensures Satisfied(map[1 := x, 2 := y], [1, 2]) <==> x || y
  {
    var a := map[1 := x, 2 := y];
    if x {
      assert Value(a, [1, 2][0]) == True;
    }
    if y {
      assert Value(a, [1, 2][1]) == True;
    }
  }
}
