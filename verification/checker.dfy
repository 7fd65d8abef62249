/** The `Checker`: one independent solver per search thread, holding the check program and a map
    that relates literals of the guess program to atoms of the check program. Its own solver is
    outside the model; a sub-solve is a parameter from assumptions to an outcome. */
module Checker {
  import opened Results
  import opened Literals
  import opened Seqs

  /** One row of the map: a solver literal of the guess program, the checker's program atom for
      the same symbol, and the checker's atom for the indicator `relevant(symbol)`. */
  datatype Entry = Entry(guessLit: int, checkLit: int, indicatorLit: int)

  /** How the checker's sub-solve ends: satisfiable with its first model (the set of program
      atoms true in it), unsatisfiable, or undecided because it was interrupted. */
  datatype SolveOutcome = Sat(model: set<int>) | Unsat | Interrupted

  /** What `Checker.check` returns: whether the check program is unsatisfiable, and the mask. */
  datatype Verdict = Verdict(unsatisfiable: bool, mask: seq<int>)

  /** `Checker.add`: register a row of the map. */
  function AddEntry(table: seq<Entry>, guessLit: int, checkLit: int, indicatorLit: int): seq<Entry> {
    table + [Entry(guessLit, checkLit, indicatorLit)]
  }

  function GuessLits(table: seq<Entry>): (r: seq<int>)
    ensures |r| == |table|
    ensures forall i :: 0 <= i < |table| ==> r[i] == table[i].guessLit
  {
    if |table| == 0 then [] else [table[0].guessLit] + GuessLits(table[1..])
  }

  /** Whether a literal of the check program holds in a model given by its true atoms. */
  predicate Holds(model: set<int>, lit: int) {
    if lit > 0 then lit in model else -lit !in model
  }

  /** The assumptions for one sub-solve: each row's check atom, positive when its guess literal is
      true under the candidate and negative otherwise (undecided counts as not true). */
  function Assumptions(table: seq<Entry>, a: Assignment): (r: seq<int>)
    ensures |r| == |table|
    ensures forall i :: 0 <= i < |table| ==> r[i] == table[i].checkLit || r[i] == -table[i].checkLit
    ensures forall i :: 0 <= i < |table| && table[i].checkLit > 0 ==>
              (r[i] > 0 <==> IsTrue(a, table[i].guessLit))
  {
    if |table| == 0 then []
    else
      var e := table[0];
      [if IsTrue(a, e.guessLit) then e.checkLit else -e.checkLit] + Assumptions(table[1..], a)
  }

  /** Row by row: a model meets the row's assumption exactly when the row's check atom has, in the
      model, the truth the candidate gives the row's guess literal. */
  lemma AssumptionHolds(table: seq<Entry>, a: Assignment, model: set<int>, i: nat)
    requires i < |table| && table[i].checkLit > 0
    ensures Holds(model, Assumptions(table, a)[i]) <==> (table[i].checkLit in model <==> IsTrue(a, table[i].guessLit))
  {
  }

  /** A model of the check program meets the assumptions exactly when every row's check atom has,
      in the model, the truth the candidate gives the row's guess literal. */
  lemma AssumptionsMirrorCandidate(table: seq<Entry>, a: Assignment, model: set<int>)
    requires forall i :: 0 <= i < |table| ==> table[i].checkLit > 0
    ensures (forall i :: 0 <= i < |table| ==> Holds(model, Assumptions(table, a)[i])) <==>
            (forall i :: 0 <= i < |table| ==>
               (table[i].checkLit in model <==> IsTrue(a, table[i].guessLit)))
  {
    if i :| 0 <= i < |table| && !Holds(model, Assumptions(table, a)[i]) {
      AssumptionHolds(table, a, model, i);
    } else if i :| 0 <= i < |table| && !(table[i].checkLit in model <==> IsTrue(a, table[i].guessLit)) {
      AssumptionHolds(table, a, model, i);
    }
  }

  /** The map rows whose indicator atom is true in a model, in map order, each row as often as it
      occurs in the map. */
  function IndicatedRows(table: seq<Entry>, model: set<int>): (r: seq<Entry>)
    ensures |r| <= |table|
    ensures forall e :: e in r <==> e in table && e.indicatorLit in model
  {
    if |table| == 0 then []
    else
      var last := table[|table| - 1];
      assert forall e :: e in table <==> e in table[..|table| - 1] || e == last;
      IndicatedRows(table[..|table| - 1], model) + (if last.indicatorLit in model then [last] else [])
  }

  /** Filtering the map one row from the front agrees with filtering it from the back. */
  lemma {:induction false} IndicatedRowsFront(table: seq<Entry>, model: set<int>)
    requires |table| > 0
    ensures IndicatedRows(table, model) ==
              (if table[0].indicatorLit in model then [table[0]] else []) + IndicatedRows(table[1..], model)
    decreases |table|
  {
    if |table| > 1 {
      var init := table[..|table| - 1];
      assert init[0] == table[0];
      assert init[1..] == table[1..][..|table[1..]| - 1];
      assert table[1..][|table[1..]| - 1] == table[|table| - 1];
      IndicatedRowsFront(init, model);
    }
  }

  lemma GuessLitsOfAppend(xs: seq<Entry>, ys: seq<Entry>)
    ensures GuessLits(xs + ys) == GuessLits(xs) + GuessLits(ys)
  {
    assert forall i :: 0 <= i < |xs| ==> (xs + ys)[i] == xs[i];
    assert forall i :: |xs| <= i < |xs| + |ys| ==> (xs + ys)[i] == ys[i - |xs|];
  }

  /** A guess literal is among those of the indicated rows exactly when some map row with that guess
      literal has its indicator true in the model. */
  lemma IndicatedMembers(table: seq<Entry>, model: set<int>)
    ensures forall x :: x in GuessLits(IndicatedRows(table, model)) <==>
              exists i :: 0 <= i < |table| && table[i].indicatorLit in model && table[i].guessLit == x
  {
    var rows := IndicatedRows(table, model);
    var g := GuessLits(rows);
    forall x | x in g
      ensures exists i :: 0 <= i < |table| && table[i].indicatorLit in model && table[i].guessLit == x
    {
      var k :| 0 <= k < |g| && g[k] == x;
      assert rows[k] in rows;
      var i :| 0 <= i < |table| && table[i] == rows[k];
    }
    forall i | 0 <= i < |table| && table[i].indicatorLit in model
      ensures table[i].guessLit in g
    {
      assert table[i] in rows;
      var k :| 0 <= k < |rows| && rows[k] == table[i];
      assert g[k] == table[i].guessLit;
    }
  }

  /** The mask: the guess literals of the rows whose indicator is true in the model, in map order;
      a guess literal on two indicated rows appears twice. */
  function Mask(table: seq<Entry>, model: set<int>): (r: seq<int>)
    ensures r == GuessLits(IndicatedRows(table, model))
    ensures |r| <= |table|
    ensures forall x :: x in r <==>
              exists i :: 0 <= i < |table| && table[i].indicatorLit in model && table[i].guessLit == x
    ensures Subseq(r, GuessLits(table))
  {
    if |table| == 0 then []
    else
      var rest := Mask(table[1..], model);
      var head := if table[0].indicatorLit in model then [table[0]] else [];
      assert GuessLits(table)[1..] == GuessLits(table[1..]);
      IndicatedMembers(table, model);
      assert GuessLits(IndicatedRows(table, model)) == GuessLits(head) + rest by {
        IndicatedRowsFront(table, model);
        GuessLitsOfAppend(head, IndicatedRows(table[1..], model));
      }
      if table[0].indicatorLit in model then
        assert GuessLits(head) == [table[0].guessLit];
        [table[0].guessLit] + rest
      else
        assert GuessLits(head) == [];
        rest
  }

  /** `Checker.check`: solve the check program under the assumptions built from the candidate and
      report whether it is unsatisfiable, with the mask read from the first model if there is one;
      an interrupted solve is an error. */
  function Check(table: seq<Entry>, a: Assignment, solve: seq<int> -> SolveOutcome): (r: Result<Verdict>)
    ensures r.Err? <==> solve(Assumptions(table, a)).Interrupted?
    ensures r.Err? ==> r.error == SearchInterrupted
    ensures r.Ok? ==> (r.value.unsatisfiable <==> solve(Assumptions(table, a)).Unsat?)
    ensures r.Ok? && r.value.unsatisfiable ==> r.value.mask == []
    ensures r.Ok? ==> forall x :: x in r.value.mask ==>
              exists i :: 0 <= i < |table| && table[i].guessLit == x
  {
    match solve(Assumptions(table, a))
    case Sat(model) => Ok(Verdict(false, Mask(table, model)))
    case Unsat => Ok(Verdict(true, []))
    case Interrupted => Err(SearchInterrupted)
  }

  /** On a satisfiable sub-solve the mask is exactly the guess literals of the rows whose
      indicator the first model makes true. */
  lemma CheckMaskOnModel(table: seq<Entry>, a: Assignment, solve: seq<int> -> SolveOutcome)
    requires solve(Assumptions(table, a)).Sat?
    ensures Check(table, a, solve).Ok?
    ensures !Check(table, a, solve).value.unsatisfiable
    ensures forall x :: x in Check(table, a, solve).value.mask <==>
              exists i :: 0 <= i < |table| && table[i].guessLit == x &&
                          table[i].indicatorLit in solve(Assumptions(table, a)).model
  {
  }
}
