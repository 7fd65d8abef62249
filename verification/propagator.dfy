/** The `CheckPropagator`: at initialisation it builds one checker per solver thread from the glue
    atoms of the guess program; on every total assignment it asks the thread's checker for a
    verdict and, when the check program finds a violation, adds a conflict clause over the glue
    literals the checker marked relevant. */
module CheckPropagator {
  import opened Results
  import opened Literals
  import opened Seqs
  import opened Checker

  /** A symbolic atom of the guess program as initialisation sees it: its printed symbol, its
      solver literal and that literal's truth at initialisation time. */
  datatype Atom = Atom(symbol: string, guessLit: int, truth: Truth)

  /** A rule given to a checker's backend: the fact `h.` or the choice rule `{h}.` */
  datatype Rule = Fact(head: int) | Choice(head: int)

  /** What initialisation builds for one thread: the checker's map, the rules injected through its
      backend, and the next program atom its backend will hand out. */
  datatype CheckerState = CheckerState(table: seq<Entry>, rules: seq<Rule>, next: nat)

  /** The propagator after initialisation: one checker per thread, and the glue literals. */
  datatype Propagator = Propagator(checkers: seq<CheckerState>, glueLits: seq<int>)

  /** The first program atom a fresh backend hands out. */
  const FirstAtom: nat := 1

  const EmptyChecker := CheckerState([], [], FirstAtom)

  // ---------------------------------------------------------------------------------------------
  // Reference descriptions of what initialisation does with the atoms.

  /** An atom initialisation does not skip: its symbol is glue and it is not already false. */
  predicate Kept(atom: Atom, glue: set<string>) {
    atom.symbol in glue && atom.truth != False
  }

  /** The solver literals of the kept atoms, in atom order. */
  function KeptLits(atoms: seq<Atom>, glue: set<string>): (r: seq<int>)
    ensures forall x :: x in r <==>
              exists i :: 0 <= i < |atoms| && Kept(atoms[i], glue) && atoms[i].guessLit == x
  {
    if |atoms| == 0 then []
    else
      var rest := KeptLits(atoms[1..], glue);
      assert forall x :: x in rest ==>
               exists i :: 0 <= i < |atoms| && Kept(atoms[i], glue) && atoms[i].guessLit == x by {
        forall x | x in rest
          ensures exists i :: 0 <= i < |atoms| && Kept(atoms[i], glue) && atoms[i].guessLit == x
        {
          var k :| 0 <= k < |atoms| - 1 && Kept(atoms[1..][k], glue) && atoms[1..][k].guessLit == x;
          assert atoms[k + 1] == atoms[1..][k];
        }
      }
      assert forall i :: 1 <= i < |atoms| && Kept(atoms[i], glue) ==> atoms[i].guessLit in rest by {
        forall i | 1 <= i < |atoms| && Kept(atoms[i], glue) ensures atoms[i].guessLit in rest {
          assert atoms[1..][i - 1] == atoms[i];
        }
      }
      (if Kept(atoms[0], glue) then [atoms[0].guessLit] else []) + rest
  }

  /** The solver literals of the kept atoms whose truth is still unknown, in atom order. */
  function UnknownLits(atoms: seq<Atom>, glue: set<string>): seq<int>
  {
    if |atoms| == 0 then []
    else
      (if Kept(atoms[0], glue) && atoms[0].truth == Unknown then [atoms[0].guessLit] else []) +
      UnknownLits(atoms[1..], glue)
  }

  /** A literal is collected as unknown exactly when some kept atom with that literal is unknown. */
  lemma {:induction false} UnknownLitsMembers(atoms: seq<Atom>, glue: set<string>)
    ensures forall x :: x in UnknownLits(atoms, glue) <==>
              exists i :: 0 <= i < |atoms| && Kept(atoms[i], glue) && atoms[i].truth == Unknown && atoms[i].guessLit == x
    decreases |atoms|
  {
    if |atoms| > 0 {
      UnknownLitsMembers(atoms[1..], glue);
      forall x | x in UnknownLits(atoms[1..], glue)
        ensures exists i :: 0 <= i < |atoms| && Kept(atoms[i], glue) && atoms[i].truth == Unknown && atoms[i].guessLit == x
      {
        var k :| 0 <= k < |atoms| - 1 && Kept(atoms[1..][k], glue) && atoms[1..][k].truth == Unknown && atoms[1..][k].guessLit == x;
        assert atoms[k + 1] == atoms[1..][k];
      }
      forall i | 1 <= i < |atoms| && Kept(atoms[i], glue) && atoms[i].truth == Unknown
        ensures atoms[i].guessLit in UnknownLits(atoms[1..], glue)
      {
        assert atoms[1..][i - 1] == atoms[i];
      }
    }
  }

  /** The atom records agree with one assignment, as when they are read from the solver's
      assignment at initialisation: atoms sharing a solver literal have the same truth, and atoms
      with opposite literals have opposite truths. */
  predicate Consistent(atoms: seq<Atom>) {
    forall i, j :: 0 <= i < |atoms| && 0 <= j < |atoms| ==> Agree(atoms[i], atoms[j])
  }

  /** Two atom records agree when, on the same variable, they give the same literal the same truth
      and opposite literals opposite truths. */
  predicate Agree(x: Atom, y: Atom) {
    Var(x.guessLit) == Var(y.guessLit) ==>
      y.truth == (if x.guessLit == y.guessLit then x.truth else Negate(x.truth))
  }

  /** How many kept atoms are already true. */
  function CountTrue(atoms: seq<Atom>, glue: set<string>): nat
  {
    if |atoms| == 0 then 0
    else (if Kept(atoms[0], glue) && atoms[0].truth == True then 1 else 0) + CountTrue(atoms[1..], glue)
  }

  function CountFacts(rules: seq<Rule>): nat
  {
    if |rules| == 0 then 0
    else CountFacts(rules[..|rules| - 1]) + (if rules[|rules| - 1].Fact? then 1 else 0)
  }

  function CountChoices(rules: seq<Rule>): nat
  {
    if |rules| == 0 then 0
    else CountChoices(rules[..|rules| - 1]) + (if rules[|rules| - 1].Choice? then 1 else 0)
  }

  /** The program atoms a checker's backend handed out are fresh: every map row has two distinct
      atoms, rows use disjoint atoms in increasing order, and every rule is about an atom that
      was handed out. */
  predicate Fresh(c: CheckerState) {
    && FirstAtom <= c.next
    && (forall i :: 0 <= i < |c.table| ==>
          FirstAtom <= c.table[i].checkLit < c.table[i].indicatorLit < c.next)
    && (forall i, j :: 0 <= i < j < |c.table| ==> c.table[i].indicatorLit < c.table[j].checkLit)
    && (forall k :: 0 <= k < |c.rules| ==> FirstAtom <= c.rules[k].head < c.next)
  }

  // ---------------------------------------------------------------------------------------------
  // Initialisation.

  /** The body of the loop over the symbolic atoms for one checker: skip non-glue and false atoms;
      otherwise hand out the check atom and the indicator atom, record the literal as a glue
      literal unless it is one already, and either fix the check atom (true atoms) or open both
      atoms with choice rules and add a map row (unknown atoms). */
  function AddAtom(c: CheckerState, lits: seq<int>, atom: Atom, glue: set<string>): (CheckerState, seq<int>)
  {
    if atom.symbol !in glue then (c, lits)
    else if atom.truth == False then (c, lits)
    else
      var checkLit := c.next;
      var indicatorLit := c.next + 1;
      var lits' := if atom.guessLit in lits then lits else lits + [atom.guessLit];
      if atom.truth == True then
        (c.(rules := c.rules + [Fact(checkLit)], next := c.next + 2), lits')
      else
        (CheckerState(AddEntry(c.table, atom.guessLit, checkLit, indicatorLit),
                      c.rules + [Choice(checkLit), Choice(indicatorLit)],
                      c.next + 2),
         lits')
  }

  /** One checker's pass over all symbolic atoms, threading the glue literal list through. */
  function InitChecker(c: CheckerState, lits: seq<int>, atoms: seq<Atom>, glue: set<string>): (CheckerState, seq<int>)
    decreases |atoms|
  {
    if |atoms| == 0 then (c, lits)
    else
      var r := AddAtom(c, lits, atoms[0], glue);
      InitChecker(r.0, r.1, atoms[1..], glue)
  }

  /** A pass adds one map row per kept unknown atom, in atom order, and no other rows. */
  lemma {:induction false} InitCheckerTable(c: CheckerState, lits: seq<int>, atoms: seq<Atom>, glue: set<string>)
    ensures GuessLits(InitChecker(c, lits, atoms, glue).0.table) == GuessLits(c.table) + UnknownLits(atoms, glue)
    decreases |atoms|
  {
    if |atoms| > 0 {
      var r := AddAtom(c, lits, atoms[0], glue);
      AddAtomTable(c, lits, atoms[0], glue);
      InitCheckerTable(r.0, r.1, atoms[1..], glue);
    }
  }

  /** A pass adds one fact per kept true atom and two choice rules per kept unknown atom. */
  lemma {:induction false} InitCheckerRules(c: CheckerState, lits: seq<int>, atoms: seq<Atom>, glue: set<string>)
    ensures CountFacts(InitChecker(c, lits, atoms, glue).0.rules) == CountFacts(c.rules) + CountTrue(atoms, glue)
    ensures CountChoices(InitChecker(c, lits, atoms, glue).0.rules) ==
              CountChoices(c.rules) + 2 * |UnknownLits(atoms, glue)|
    decreases |atoms|
  {
    if |atoms| > 0 {
      var r := AddAtom(c, lits, atoms[0], glue);
      AddAtomRules(c, lits, atoms[0], glue);
      InitCheckerRules(r.0, r.1, atoms[1..], glue);
    }
  }

  /** A pass only hands out fresh program atoms. */
  lemma {:induction false} InitCheckerFresh(c: CheckerState, lits: seq<int>, atoms: seq<Atom>, glue: set<string>)
    requires Fresh(c)
    ensures Fresh(InitChecker(c, lits, atoms, glue).0)
    decreases |atoms|
  {
    if |atoms| > 0 {
      var r := AddAtom(c, lits, atoms[0], glue);
      AddAtomFresh(c, lits, atoms[0], glue);
      InitCheckerFresh(r.0, r.1, atoms[1..], glue);
    }
  }

  /** A pass keeps every row's check and indicator atoms open and free of facts. */
  lemma {:induction false} InitCheckerOpens(c: CheckerState, lits: seq<int>, atoms: seq<Atom>, glue: set<string>)
    requires Fresh(c) && Opened(c)
    ensures Opened(InitChecker(c, lits, atoms, glue).0)
    decreases |atoms|
  {
    if |atoms| > 0 {
      var r := AddAtom(c, lits, atoms[0], glue);
      AddAtomFresh(c, lits, atoms[0], glue);
      AddAtomOpens(c, lits, atoms[0], glue);
      InitCheckerOpens(r.0, r.1, atoms[1..], glue);
    }
  }

  /** A pass appends to the glue literals each kept atom's literal not collected yet. */
  lemma {:induction false} InitCheckerLits(c: CheckerState, lits: seq<int>, atoms: seq<Atom>, glue: set<string>)
    ensures InitChecker(c, lits, atoms, glue).1 == AddUnique(lits, KeptLits(atoms, glue))
    decreases |atoms|
  {
    if |atoms| > 0 {
      var r := AddAtom(c, lits, atoms[0], glue);
      AddAtomLits(c, lits, atoms, glue);
      InitCheckerLits(r.0, r.1, atoms[1..], glue);
    } else {
      assert KeptLits(atoms, glue) == [];
    }
  }

  lemma CountsOfAppend(rules: seq<Rule>, x: Rule)
    ensures CountFacts(rules + [x]) == CountFacts(rules) + (if x.Fact? then 1 else 0)
    ensures CountChoices(rules + [x]) == CountChoices(rules) + (if x.Choice? then 1 else 0)
  {
    assert (rules + [x])[..|rules|] == rules;
  }

  /** What handling one atom adds to the map: a row for a kept unknown atom, nothing otherwise. */
  lemma AddAtomTable(c: CheckerState, lits: seq<int>, atom: Atom, glue: set<string>)
    ensures GuessLits(AddAtom(c, lits, atom, glue).0.table) ==
              GuessLits(c.table) + (if Kept(atom, glue) && atom.truth == Unknown then [atom.guessLit] else [])
  {
    var r := AddAtom(c, lits, atom, glue);
    if Kept(atom, glue) && atom.truth == Unknown {
      assert r.0.table == c.table + [Entry(atom.guessLit, c.next, c.next + 1)];
      assert GuessLits(r.0.table) == GuessLits(c.table) + [atom.guessLit];
    }
  }

  /** What handling one atom adds: a kept true atom gets a fact on its fresh check atom and no map
      row; a kept unknown atom gets a map row on two fresh atoms and a choice rule on each of them;
      a skipped atom changes nothing. */
  lemma AddAtomRules(c: CheckerState, lits: seq<int>, atom: Atom, glue: set<string>)
    ensures !Kept(atom, glue) ==> AddAtom(c, lits, atom, glue).0 == c
    ensures Kept(atom, glue) && atom.truth == True ==>
              && AddAtom(c, lits, atom, glue).0.table == c.table
              && AddAtom(c, lits, atom, glue).0.rules == c.rules + [Fact(c.next)]
    ensures Kept(atom, glue) && atom.truth == Unknown ==>
              var e := Entry(atom.guessLit, c.next, c.next + 1);
              && AddAtom(c, lits, atom, glue).0.table == c.table + [e]
              && AddAtom(c, lits, atom, glue).0.rules == c.rules + [Choice(e.checkLit), Choice(e.indicatorLit)]
    ensures CountFacts(AddAtom(c, lits, atom, glue).0.rules) ==
              CountFacts(c.rules) + (if Kept(atom, glue) && atom.truth == True then 1 else 0)
    ensures CountChoices(AddAtom(c, lits, atom, glue).0.rules) ==
              CountChoices(c.rules) + (if Kept(atom, glue) && atom.truth == Unknown then 2 else 0)
  {
    if Kept(atom, glue) {
      if atom.truth == True {
        CountsOfAppend(c.rules, Fact(c.next));
      } else {
        CountsOfAppend(c.rules, Choice(c.next));
        CountsOfAppend(c.rules + [Choice(c.next)], Choice(c.next + 1));
        assert c.rules + [Choice(c.next), Choice(c.next + 1)] == c.rules + [Choice(c.next)] + [Choice(c.next + 1)];
      }
    }
  }

  /** Every map row's check atom and indicator atom is open (has a choice rule), and no fact fixes
      either of them. */
  predicate Opened(c: CheckerState) {
    && (forall i :: 0 <= i < |c.table| ==>
          Choice(c.table[i].checkLit) in c.rules && Choice(c.table[i].indicatorLit) in c.rules)
    && (forall k, i :: 0 <= k < |c.rules| && 0 <= i < |c.table| && c.rules[k].Fact? ==>
          c.rules[k].head != c.table[i].checkLit && c.rules[k].head != c.table[i].indicatorLit)
  }

  /** A fact on the next fresh atom keeps the rows open: no row uses that atom. */
  lemma AppendFactOpens(c: CheckerState)
    requires Fresh(c) && Opened(c)
    ensures Opened(c.(rules := c.rules + [Fact(c.next)], next := c.next + 2))
  {
    var r := c.(rules := c.rules + [Fact(c.next)], next := c.next + 2);
    forall i | 0 <= i < |r.table|
      ensures Choice(r.table[i].checkLit) in r.rules && Choice(r.table[i].indicatorLit) in r.rules
    {
      assert Choice(c.table[i].checkLit) in c.rules && Choice(c.table[i].indicatorLit) in c.rules;
    }
    forall k, i | 0 <= k < |r.rules| && 0 <= i < |r.table| && r.rules[k].Fact?
      ensures r.rules[k].head != r.table[i].checkLit && r.rules[k].head != r.table[i].indicatorLit
    {
      assert c.table[i].indicatorLit < c.next;
      if k < |c.rules| {
        assert r.rules[k] == c.rules[k];
      }
    }
  }

  /** A row on the next two fresh atoms, with a choice rule on each, keeps the rows open: no fact is
      on a fresh atom. */
  lemma AppendRowOpens(c: CheckerState, guessLit: int)
    requires Fresh(c) && Opened(c)
    ensures var e := Entry(guessLit, c.next, c.next + 1);
            Opened(CheckerState(c.table + [e], c.rules + [Choice(e.checkLit), Choice(e.indicatorLit)], c.next + 2))
  {
    var e := Entry(guessLit, c.next, c.next + 1);
    var r := CheckerState(c.table + [e], c.rules + [Choice(e.checkLit), Choice(e.indicatorLit)], c.next + 2);
    assert r.table[|c.table|] == e;
    assert r.rules[|c.rules|] == Choice(e.checkLit) && r.rules[|c.rules| + 1] == Choice(e.indicatorLit);
    forall i | 0 <= i < |r.table|
      ensures Choice(r.table[i].checkLit) in r.rules && Choice(r.table[i].indicatorLit) in r.rules
    {
      if i < |c.table| {
        assert r.table[i] == c.table[i];
        assert Choice(c.table[i].checkLit) in c.rules && Choice(c.table[i].indicatorLit) in c.rules;
      }
    }
    forall k, i | 0 <= k < |r.rules| && 0 <= i < |r.table| && r.rules[k].Fact?
      ensures r.rules[k].head != r.table[i].checkLit && r.rules[k].head != r.table[i].indicatorLit
    {
      assert k < |c.rules| && r.rules[k] == c.rules[k];
      assert c.rules[k].head < c.next;
      if i < |c.table| {
        assert r.table[i] == c.table[i];
      }
    }
  }

  /** Handling one atom keeps the rows open: a new fact is on a fresh atom no row uses, and a new
      row comes with its own two choice rules. */
  lemma AddAtomOpens(c: CheckerState, lits: seq<int>, atom: Atom, glue: set<string>)
    requires Fresh(c) && Opened(c)
    ensures Opened(AddAtom(c, lits, atom, glue).0)
  {
    AddAtomRules(c, lits, atom, glue);
    if Kept(atom, glue) {
      if atom.truth == True {
        AppendFactOpens(c);
      } else {
        AppendRowOpens(c, atom.guessLit);
      }
    }
  }

  lemma AddAtomFresh(c: CheckerState, lits: seq<int>, atom: Atom, glue: set<string>)
    requires Fresh(c)
    ensures Fresh(AddAtom(c, lits, atom, glue).0)
  {
    var r := AddAtom(c, lits, atom, glue).0;
    if Kept(atom, glue) {
      assert r.next == c.next + 2;
      if atom.truth == True {
        assert r.table == c.table;
        assert r.rules == c.rules + [Fact(c.next)];
        forall k | 0 <= k < |r.rules| ensures FirstAtom <= r.rules[k].head < r.next {
          if k < |c.rules| {
            assert r.rules[k] == c.rules[k];
          }
        }
      } else {
        assert r.table == c.table + [Entry(atom.guessLit, c.next, c.next + 1)];
        assert r.rules == c.rules + [Choice(c.next), Choice(c.next + 1)];
        forall k | 0 <= k < |r.rules| ensures FirstAtom <= r.rules[k].head < r.next {
          if k < |c.rules| {
            assert r.rules[k] == c.rules[k];
          }
        }
        forall i | 0 <= i < |r.table| ensures FirstAtom <= r.table[i].checkLit < r.table[i].indicatorLit < r.next {
          if i < |c.table| {
            assert r.table[i] == c.table[i];
          }
        }
        forall i, j | 0 <= i < j < |r.table| ensures r.table[i].indicatorLit < r.table[j].checkLit {
          assert r.table[i] == c.table[i];
          if j < |c.table| {
            assert r.table[j] == c.table[j];
          }
        }
      }
    }
  }

  /** Handling one atom, then the rest, collects what `AddUnique` collects from the kept literals. */
  lemma AddAtomLits(c: CheckerState, lits: seq<int>, atoms: seq<Atom>, glue: set<string>)
    requires |atoms| > 0
    ensures AddUnique(AddAtom(c, lits, atoms[0], glue).1, KeptLits(atoms[1..], glue)) ==
              AddUnique(lits, KeptLits(atoms, glue))
  {
    var rest := KeptLits(atoms[1..], glue);
    if Kept(atoms[0], glue) {
      var x := atoms[0].guessLit;
      var xs := [x] + rest;
      assert KeptLits(atoms, glue) == xs;
      assert xs[0] == x && xs[1..] == rest;
      assert AddAtom(c, lits, atoms[0], glue).1 == if x in lits then lits else lits + [x];
      assert AddUnique(lits, xs) == AddUnique(if x in lits then lits else lits + [x], rest);
    } else {
      assert KeptLits(atoms, glue) == rest;
    }
  }

  /** The checker a pass builds does not depend on the glue literals collected before it. */
  lemma {:induction false} InitCheckerIgnoresLits(c: CheckerState, lits1: seq<int>, lits2: seq<int>, atoms: seq<Atom>, glue: set<string>)
    ensures InitChecker(c, lits1, atoms, glue).0 == InitChecker(c, lits2, atoms, glue).0
    decreases |atoms|
  {
    if |atoms| > 0 {
      InitCheckerIgnoresLits(AddAtom(c, lits1, atoms[0], glue).0,
                             AddAtom(c, lits1, atoms[0], glue).1,
                             AddAtom(c, lits2, atoms[0], glue).1, atoms[1..], glue);
    }
  }

  /** `CheckPropagator.init`: one checker per thread, each built by a pass over all atoms, with a
      single glue literal list threaded through the passes. */
  function Init(threads: nat, atoms: seq<Atom>, glue: set<string>): (p: Propagator)
    ensures |p.checkers| == threads
    ensures forall t :: 0 <= t < threads ==> p.checkers[t] == InitChecker(EmptyChecker, [], atoms, glue).0
    ensures p.glueLits == if threads == 0 then [] else AddUnique([], KeptLits(atoms, glue))
    decreases threads
  {
    if threads == 0 then Propagator([], [])
    else
      var p := Init(threads - 1, atoms, glue);
      var (c, lits) := InitChecker(EmptyChecker, p.glueLits, atoms, glue);
      InitCheckerIgnoresLits(EmptyChecker, p.glueLits, [], atoms, glue);
      InitCheckerLits(EmptyChecker, p.glueLits, atoms, glue);
      assert threads > 1 ==> AddUnique(p.glueLits, KeptLits(atoms, glue)) == p.glueLits by {
        if threads > 1 {
          AddUniqueSaturated(p.glueLits, KeptLits(atoms, glue));
        }
      }
      Propagator(p.checkers + [c], lits)
  }

  /** After initialisation with at least one thread the glue literals are the literals of the kept
      atoms (true ones included), each once. */
  lemma GlueLitsAfterInit(threads: nat, atoms: seq<Atom>, glue: set<string>)
    requires threads > 0
    ensures NoDup(Init(threads, atoms, glue).glueLits)
    ensures forall x :: x in Init(threads, atoms, glue).glueLits <==>
              exists i :: 0 <= i < |atoms| && Kept(atoms[i], glue) && atoms[i].guessLit == x
  {
  }

  /** The glue literals come in the order of their first occurrence among the kept atoms. */
  lemma GlueLitsFirstOccurrenceOrder(threads: nat, atoms: seq<Atom>, glue: set<string>, i: nat, j: nat)
    requires threads > 0
    requires i < j < |Init(threads, atoms, glue).glueLits|
    ensures var lits := Init(threads, atoms, glue).glueLits;
            lits[i] in KeptLits(atoms, glue) && lits[j] in KeptLits(atoms, glue) &&
            First(KeptLits(atoms, glue), lits[i]) < First(KeptLits(atoms, glue), lits[j])
  {
    AddUniqueKeepsFirstOccurrenceOrder([], KeptLits(atoms, glue));
  }

  /** Later threads add no glue literals: the list is the same for any number of threads. */
  lemma GlueLitsIndependentOfThreads(threads: nat, atoms: seq<Atom>, glue: set<string>)
    requires threads > 0
    ensures Init(threads, atoms, glue).glueLits == Init(1, atoms, glue).glueLits
  {
  }

  /** Every thread's checker has one map row per unknown kept atom (in atom order), one fact per
      true kept atom, two choice rules per unknown kept atom, a choice rule on every row's check and
      indicator atom and no fact on either, and fresh atoms throughout. */
  lemma CheckerAfterInit(threads: nat, atoms: seq<Atom>, glue: set<string>, t: nat)
    requires t < threads
    ensures GuessLits(Init(threads, atoms, glue).checkers[t].table) == UnknownLits(atoms, glue)
    ensures CountFacts(Init(threads, atoms, glue).checkers[t].rules) == CountTrue(atoms, glue)
    ensures CountChoices(Init(threads, atoms, glue).checkers[t].rules) == 2 * |UnknownLits(atoms, glue)|
    ensures Fresh(Init(threads, atoms, glue).checkers[t])
    ensures Opened(Init(threads, atoms, glue).checkers[t])
  {
    var c := InitChecker(EmptyChecker, [], atoms, glue).0;
    assert Init(threads, atoms, glue).checkers[t] == c;
    assert GuessLits(c.table) == UnknownLits(atoms, glue) by {
      assert GuessLits([]) == [];
      InitCheckerTable(EmptyChecker, [], atoms, glue);
    }
    assert CountFacts(c.rules) == CountTrue(atoms, glue) && CountChoices(c.rules) == 2 * |UnknownLits(atoms, glue)| by {
      InitCheckerRules(EmptyChecker, [], atoms, glue);
    }
    assert Fresh(c) && Opened(c) by {
      InitCheckerFresh(EmptyChecker, [], atoms, glue);
      InitCheckerOpens(EmptyChecker, [], atoms, glue);
    }
  }

  /** An atom that is not glue, or is already false, leaves no trace: initialisation yields the
      same checker and glue literals as if it were absent. */
  lemma {:induction false} SkippedAtomLeavesNoTrace(c: CheckerState, lits: seq<int>, atoms: seq<Atom>, glue: set<string>, i: nat)
    requires i < |atoms| && !Kept(atoms[i], glue)
    ensures InitChecker(c, lits, atoms, glue) == InitChecker(c, lits, atoms[..i] + atoms[i + 1..], glue)
    decreases i
  {
    var rest := atoms[..i] + atoms[i + 1..];
    if i == 0 {
      assert rest == atoms[1..];
    } else {
      var r := AddAtom(c, lits, atoms[0], glue);
      assert rest[0] == atoms[0];
      assert rest[1..] == atoms[1..][..i - 1] + atoms[1..][i..];
      SkippedAtomLeavesNoTrace(r.0, r.1, atoms[1..], glue, i - 1);
    }
  }

  // ---------------------------------------------------------------------------------------------
  // Checking a total assignment.

  /** The glue literals the mask marks relevant, in glue literal order. */
  function Relevant(glueLits: seq<int>, mask: seq<int>): (r: seq<int>)
    ensures forall x :: x in r <==> x in glueLits && x in mask
    ensures Subseq(r, glueLits)
    ensures NoDup(glueLits) ==> NoDup(r)
  {
    if |glueLits| == 0 then []
    else
      var rest := Relevant(glueLits[1..], mask);
      assert forall x :: x in glueLits <==> x == glueLits[0] || x in glueLits[1..];
      assert NoDup(glueLits) ==> glueLits[0] !in glueLits[1..] && NoDup(glueLits[1..]);
      if glueLits[0] in mask then [glueLits[0]] + rest else rest
  }

  /** A literal as it enters the conflict clause: negated when the candidate makes it true. */
  function Flip(a: Assignment, lit: int): int {
    if IsTrue(a, lit) then -lit else lit
  }

  /** The conflict clause: the relevant glue literals, each with its sign flipped against the
      candidate. */
  function Conflict(glueLits: seq<int>, mask: seq<int>, a: Assignment): (r: seq<int>)
    ensures |r| == |Relevant(glueLits, mask)|
    ensures forall i :: 0 <= i < |r| ==>
              Var(r[i]) == Var(Relevant(glueLits, mask)[i]) && r[i] == Flip(a, Relevant(glueLits, mask)[i])
  {
    if |glueLits| == 0 then []
    else
      var lit := glueLits[0];
      var rest := Conflict(glueLits[1..], mask, a);
      if lit in mask then [if IsTrue(a, lit) then -lit else lit] + rest else rest
  }

  /** A clause holds under an assignment when one of its literals is true. */
  predicate Satisfied(b: Assignment, clause: seq<int>) {
    exists i :: 0 <= i < |clause| && Value(b, clause[i]) == True
  }

  /** A decided literal flipped against `a` is true under `b` exactly when `a` and `b` disagree on it. */
  lemma FlipTrueIffDisagree(a: Assignment, b: Assignment, lit: int)
    requires lit != 0 && Var(lit) in a && Var(lit) in b
    ensures Value(b, Flip(a, lit)) == True <==> Value(b, lit) != Value(a, lit)
  {
    NegationFlipsValue(b, lit);
  }

  lemma RelevantDecided(glueLits: seq<int>, mask: seq<int>, a: Assignment)
    requires Decided(a, glueLits)
    ensures Decided(a, Relevant(glueLits, mask))
  {
    var rel := Relevant(glueLits, mask);
    forall i | 0 <= i < |rel| ensures rel[i] != 0 && Var(rel[i]) in a {
      assert rel[i] in glueLits;
    }
  }

  /** With the glue literals decided, the clause is false under the candidate it was built from. */
  lemma ClauseFalseUnderCandidate(glueLits: seq<int>, mask: seq<int>, a: Assignment)
    ensures Decided(a, glueLits) ==>
              forall i :: 0 <= i < |Conflict(glueLits, mask, a)| ==> Value(a, Conflict(glueLits, mask, a)[i]) == False
  {
    if Decided(a, glueLits) {
      var rel := Relevant(glueLits, mask);
      var c := Conflict(glueLits, mask, a);
      RelevantDecided(glueLits, mask, a);
      forall i | 0 <= i < |c| ensures Value(a, c[i]) == False {
        FlipTrueIffDisagree(a, a, rel[i]);
        assert Value(a, c[i]) != Unknown;
      }
    }
  }

  /** The clause rules out exactly the candidates that agree with the current one on every relevant
      glue literal: any candidate deciding the glue literals satisfies it if and only if it
      disagrees on one of them. */
  lemma ClauseBlocksExactlyTheAgreeing(glueLits: seq<int>, mask: seq<int>, a: Assignment, b: Assignment)
    requires Decided(a, glueLits) && Decided(b, glueLits)
    ensures Satisfied(b, Conflict(glueLits, mask, a)) <==>
            exists x :: x in Relevant(glueLits, mask) && Value(b, x) != Value(a, x)
  {
    var rel := Relevant(glueLits, mask);
    var c := Conflict(glueLits, mask, a);
    RelevantDecided(glueLits, mask, a);
    RelevantDecided(glueLits, mask, b);
    forall i | 0 <= i < |c| ensures Value(b, c[i]) == True <==> Value(b, rel[i]) != Value(a, rel[i]) {
      FlipTrueIffDisagree(a, b, rel[i]);
    }
    if Satisfied(b, c) {
      var i :| 0 <= i < |c| && Value(b, c[i]) == True;
      assert rel[i] in rel;
    }
    if x :| x in rel && Value(b, x) != Value(a, x) {
      var i :| 0 <= i < |rel| && rel[i] == x;
      assert Value(b, c[i]) == True;
    }
  }

  /** `CheckPropagator.check`: ask this thread's checker; when the check program is satisfiable,
      return the conflict clause over the glue literals in the checker's mask, otherwise accept the
      candidate (`None`). */
  function PropagatorCheck(p: Propagator, threadId: nat, a: Assignment, solve: seq<int> -> SolveOutcome): (r: Result<Option<seq<int>>>)
    requires threadId < |p.checkers|
    ensures r.Err? <==> solve(Assumptions(p.checkers[threadId].table, a)).Interrupted?
    ensures r.Err? ==> r.error == SearchInterrupted
    ensures r.Ok? ==> (r.value.Some? <==> solve(Assumptions(p.checkers[threadId].table, a)).Sat?)
    ensures r.Ok? && r.value.Some? ==>
              r.value.value == Conflict(p.glueLits, Check(p.checkers[threadId].table, a, solve).value.mask, a)
    ensures r.Ok? && r.value.Some? ==>
              forall i :: 0 <= i < |r.value.value| ==>
                exists j :: 0 <= j < |p.checkers[threadId].table| &&
                            Var(r.value.value[i]) == Var(p.checkers[threadId].table[j].guessLit)
    ensures r.Ok? && r.value.Some? && Decided(a, p.glueLits) ==>
              forall i :: 0 <= i < |r.value.value| ==> Value(a, r.value.value[i]) == False
  {
    var table := p.checkers[threadId].table;
    var v := Check(table, a, solve);
    if v.Ok? && !v.value.unsatisfiable then
      ClauseFromMask(p.glueLits, v.value.mask, a);
      ClauseFalseUnderCandidate(p.glueLits, v.value.mask, a);
      Ok(Some(Conflict(p.glueLits, v.value.mask, a)))
    else if v.Ok? then Ok(None)
    else Err(v.error)
  }

  /** On a violation the learnt clause is satisfied by a candidate deciding the glue literals exactly
      when it disagrees with the current one on some glue literal whose map row has its indicator
      true in the checker's first model: the clause blocks this candidate and everything that
      agrees with it on the relevant part, and nothing else. */
  lemma PropagatorClauseBlocks(p: Propagator, threadId: nat, a: Assignment, b: Assignment,
                               solve: seq<int> -> SolveOutcome)
    requires threadId < |p.checkers|
    requires Decided(a, p.glueLits) && Decided(b, p.glueLits)
    requires solve(Assumptions(p.checkers[threadId].table, a)).Sat?
    ensures var table := p.checkers[threadId].table;
            var model := solve(Assumptions(table, a)).model;
            var r := PropagatorCheck(p, threadId, a, solve);
            && r.Ok? && r.value.Some?
            && (Satisfied(b, r.value.value) <==>
                  exists x :: x in p.glueLits && Value(b, x) != Value(a, x) &&
                              exists j :: 0 <= j < |table| && table[j].guessLit == x && table[j].indicatorLit in model)
  {
    var table := p.checkers[threadId].table;
    var mask := Check(table, a, solve).value.mask;
    CheckMaskOnModel(table, a, solve);
    ClauseBlocksExactlyTheAgreeing(p.glueLits, mask, a, b);
  }

  /** Every clause literal is, up to sign, a glue literal the mask contains. */
  lemma ClauseFromMask(glueLits: seq<int>, mask: seq<int>, a: Assignment)
    ensures forall i :: 0 <= i < |Conflict(glueLits, mask, a)| ==>
              exists x :: x in glueLits && x in mask && Var(Conflict(glueLits, mask, a)[i]) == Var(x)
  {
    var rel := Relevant(glueLits, mask);
    var c := Conflict(glueLits, mask, a);
    forall i | 0 <= i < |c| ensures exists x :: x in glueLits && x in mask && Var(c[i]) == Var(x) {
      assert rel[i] in rel;
    }
  }

  /** Every literal of the clause is, up to sign, the literal of a glue atom unknown at initialisation. */
  predicate OverUnknownGlue(clause: seq<int>, atoms: seq<Atom>, glue: set<string>) {
    forall i :: 0 <= i < |clause| ==> exists x :: x in UnknownLits(atoms, glue) && Var(clause[i]) == Var(x)
  }

  /** For a propagator built by initialisation, a clause only mentions literals of glue atoms that
      were unknown at initialisation. */
  lemma ClauseOverUnknownGlueAtoms(threads: nat, atoms: seq<Atom>, glue: set<string>, t: nat, a: Assignment,
                                   solve: seq<int> -> SolveOutcome)
    requires t < threads
    ensures var r := PropagatorCheck(Init(threads, atoms, glue), t, a, solve);
            r.Ok? && r.value.Some? ==> OverUnknownGlue(r.value.value, atoms, glue)
  {
    var table := Init(threads, atoms, glue).checkers[t].table;
    CheckerAfterInit(threads, atoms, glue, t);
    assert forall j :: 0 <= j < |table| ==> table[j].guessLit in UnknownLits(atoms, glue) by {
      forall j | 0 <= j < |table| ensures table[j].guessLit in UnknownLits(atoms, glue) {
        assert GuessLits(table)[j] == table[j].guessLit;
      }
    }
  }

  /** In consistent atom records an unknown atom and a true atom are on different variables. */
  lemma UnknownAndTrueAtomsApart(atoms: seq<Atom>, j: nat, k: nat)
    requires Consistent(atoms)
    requires j < |atoms| && k < |atoms| && atoms[j].truth == Unknown && atoms[k].truth == True
    ensures Var(atoms[j].guessLit) != Var(atoms[k].guessLit)
  {
    assert Agree(atoms[k], atoms[j]);
  }

  /** Literals that share a variable with an unknown kept atom share none with a true kept atom. */
  lemma AwayFromTrueAtoms(clause: seq<int>, atoms: seq<Atom>, glue: set<string>)
    requires Consistent(atoms)
    requires OverUnknownGlue(clause, atoms, glue)
    ensures forall i, k :: 0 <= i < |clause| && 0 <= k < |atoms| && Kept(atoms[k], glue) && atoms[k].truth == True ==>
              Var(clause[i]) != Var(atoms[k].guessLit)
  {
    UnknownLitsMembers(atoms, glue);
    forall i, k | 0 <= i < |clause| && 0 <= k < |atoms| && Kept(atoms[k], glue) && atoms[k].truth == True
      ensures Var(clause[i]) != Var(atoms[k].guessLit)
    {
      var x :| x in UnknownLits(atoms, glue) && Var(clause[i]) == Var(x);
      var j :| 0 <= j < |atoms| && Kept(atoms[j], glue) && atoms[j].truth == Unknown && atoms[j].guessLit == x;
      UnknownAndTrueAtomsApart(atoms, j, k);
    }
  }

  /** With atom records that agree with one assignment, a glue atom already true at initialisation
      never occurs in a clause: it gets no map row, so its variable never enters a mask. */
  lemma TrueGlueAtomsNeverInClause(threads: nat, atoms: seq<Atom>, glue: set<string>, t: nat, a: Assignment,
                                   solve: seq<int> -> SolveOutcome)
    requires t < threads
    requires Consistent(atoms)
    ensures var r := PropagatorCheck(Init(threads, atoms, glue), t, a, solve);
            r.Ok? && r.value.Some? ==>
              forall i, k :: 0 <= i < |r.value.value| && 0 <= k < |atoms| &&
                             Kept(atoms[k], glue) && atoms[k].truth == True ==>
                Var(r.value.value[i]) != Var(atoms[k].guessLit)
  {
    var r := PropagatorCheck(Init(threads, atoms, glue), t, a, solve);
    if r.Ok? && r.value.Some? {
      ClauseOverUnknownGlueAtoms(threads, atoms, glue, t, a, solve);
      AwayFromTrueAtoms(r.value.value, atoms, glue);
    }
  }
}
