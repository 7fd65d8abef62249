# declarative-cegar bookkeeping, modelled in Dafny

declarative-cegar solves second-level problems with clingo by guess and check. The input
program is split into sections. The guess program is solved by the main clingo control. Each
solver thread owns a separate checker control that holds the check program. The `glue` section
decides which atoms of the guess program are tracked across the two solvers. Whenever the main
search reaches a total assignment, the thread's checker solves the check program under
assumptions taken from that assignment. When the check program is satisfiable, the propagator
adds a conflict clause over the glue literals that the checker's witness marks `relevant`.

This project models the bookkeeping around the solver calls. The solver itself is input.

- `base.dfy`: `Results` holds the two fatal errors (`UnexpectedProgramPart`, `SearchInterrupted`)
  and the `Result`/`Option` types. `Literals` holds solver literals and the three-valued
  assignment: a map from variables to booleans, where a negative literal is the negation of its
  variable and an unmapped variable is undecided. `Seqs` holds `AddUnique`, the "append unless
  already present" idiom, with its first-occurrence-order and idempotence lemmas.
- `transformer.dfy`: `Transformer.add` as a state machine over `Stmt = Header(name, hasParams) |
  Other(id)`, and the fold `Partition` over a statement sequence. `Partition` is proved equal to
  an independent description: a statement's section is the one named by the last valid header
  before it (guess when there is none), and each output is the in-order subsequence of the
  plain statements whose section feeds that output. `Feed` is the loop that hands every parsed
  statement to `Transformer.add` (cegar.py:235).
- `checker.dfy`: the checker's map rows `(guessLit, checkLit, indicatorLit)`, the assumptions,
  the mask, and `Checker.check`. The sub-solve is a parameter
  `solve: seq<int> -> SolveOutcome` applied to the assumptions, with
  `SolveOutcome = Sat(model) | Unsat | Interrupted`. `AddEntry` is `Checker.add`
  (cegar.py:85-90).
- `propagator.dfy`: `CheckPropagator.init` is modelled as one pass over the symbolic atoms per
  thread, each atom given as `Atom(symbol, guessLit, truth)`. The glue literal list is threaded
  through the passes. `CheckPropagator.check` is modelled as `PropagatorCheck`, which returns
  the conflict clause to add, or `None` when the candidate is accepted. `AddAtom` is the body
  of the loop over the symbolic atoms (cegar.py:160-188), and `InitChecker` is that loop for one
  checker (cegar.py:157-188). `Flip` gives the sign a glue literal takes in the clause
  (cegar.py:207).
- `scenario.dfy`: a worked instance with two glue atoms `a` and `b`.

Glue literals include those of glue atoms already true at initialisation. This is because
cegar.py:176-177 runs before the branch on truth at cegar.py:180. `KeptLits` and
`GlueLitsAfterInit` therefore include true atoms. Such an atom itself adds no map row, so it
puts nothing into a mask. When the atom records agree with one assignment, as they do when
read from the solver's assignment at cegar.py:165, its variable never reaches a clause
(`TrueGlueAtomsNeverInClause`). Without that agreement, a second record could give the same
solver literal the truth "unknown" and a map row.

## Model

| member | source | states |
|---|---|---|
| `Transformer.Add` | cegar.py:39-65 | A header is accepted exactly when it has no parameters and is named shared, glue, check, base or guess; base and guess both select the guess section. An accepted header leaves every output unchanged, and any other header is the unexpected-program-part error. A plain statement keeps the section and is appended exactly to the outputs its section feeds. |
| `Transformer.RoutedFrom` | cegar.py:55-65 | What is routed to an output contains only non-header statements and is an order-preserving subsequence of the input. |
| `Transformer.FeedFailsOnBadHeader` | cegar.py:43-53 | Run from any position, the transformer fails exactly when a header with parameters or an unknown name follows. The error is always the unexpected-program-part error. |
| `Transformer.FeedFollowsRouting` | cegar.py:55-65 | Run from any position without failing, the transformer appends to each output exactly the reference routing of the remaining statements. |
| `Transformer.Partition` | cegar.py:34-65 | Partitioning fails if and only if the input contains a bad header. Otherwise the guess, check and glue outputs are exactly the in-order plain statements of the sections that feed them: shared feeds all three, guess/base feeds only the guess program, check only the check list, and glue only the glue list. |
| `Transformer.DefaultSection` | cegar.py:35 | Before the first header the guess section is in force. |
| `Transformer.HeaderlessIsGuess` | cegar.py:35-61 | A program without headers becomes entirely the guess program, with empty check and glue lists. |
| `Transformer.SingleSection` | cegar.py:43-65 | One valid header followed by plain statements sends the whole body to exactly the outputs of that header's section, in order, and sends the header to none. |
| `Literals.Value` | cegar.py:115 | A literal is undecided exactly when its variable is unassigned. |
| `Checker.Assumptions` | cegar.py:113-116 | There is one assumption per map row, in map order. It is the row's check atom, positive exactly when the row's guess literal is true under the candidate. |
| `Checker.AssumptionHolds` | cegar.py:113-118 | For one row with a positive check atom, a model meets that row's assumption exactly when the check atom's truth in the model matches the guess literal's truth under the candidate. |
| `Checker.AssumptionsMirrorCandidate` | cegar.py:113-118 | A model of the check program meets all assumptions if and only if every row's check atom is true in it exactly when the row's guess literal is true under the candidate. |
| `Checker.Mask` | cegar.py:121-125 | The mask is exactly the guess literals of the rows whose indicator is true in the model, in map order and with repeats. This is stated against `IndicatedRows`, a separate filter that works from the back of the map. So the mask is an order-preserving subsequence of the map's guess literals. It contains a literal if and only if some row with that guess literal has its indicator true in the model. |
| `Checker.IndicatedRows` | cegar.py:123-125 | The indicated rows are exactly the map rows whose indicator is true in the model. |
| `Checker.IndicatedRowsFront` | cegar.py:123-125 | Filtering the map from the front gives the same rows as filtering it from the back. |
| `Checker.IndicatedMembers` | cegar.py:123-125 | A literal is a guess literal of the indicated rows exactly when some row with that guess literal has its indicator true. |
| `Checker.Check` | cegar.py:102-129 | An interrupted sub-solve is the search-interrupted error and nothing else is. The verdict is unsatisfiable exactly when the sub-solve is. An unsatisfiable verdict has an empty mask, and every mask literal is a guess literal of the map. |
| `Checker.CheckMaskOnModel` | cegar.py:118-127 | On a satisfiable sub-solve the verdict is "satisfiable". Its mask holds exactly the guess literals of the rows whose indicator is true in the first model. |
| `Seqs.AddUnique` | cegar.py:176-177 | Collecting literals keeps what was collected before as a prefix. The result holds exactly the old and the new literals, and it has no duplicates when the old list had none. |
| `Seqs.AddUniqueKeepsFirstOccurrenceOrder` | cegar.py:176-177 | Newly collected literals appear in the order of their first occurrence. |
| `Seqs.AddUniqueSaturated` | cegar.py:176-177 | Collecting literals that are all present already changes nothing. |
| `CheckPropagator.KeptLits` | cegar.py:160-177 | The literals considered for the glue list are exactly those of atoms whose symbol is glue and whose truth is not definitely false. |
| `CheckPropagator.AddAtomTable` | cegar.py:179-188 | Handling one atom adds a map row only for a kept atom of unknown truth; a true atom gets no row. |
| `CheckPropagator.AddAtomRules` | cegar.py:158-188 | A skipped atom changes nothing. A kept true atom appends the fact on its fresh check atom and adds no map row. A kept unknown atom appends the row (guess literal, check atom, indicator atom) and one choice rule on each of its two atoms. |
| `CheckPropagator.AppendFactOpens` | cegar.py:179-181 | A fact on the next fresh atom keeps every row's atoms open and free of facts. |
| `CheckPropagator.AppendRowOpens` | cegar.py:183-188 | A new row on the next two fresh atoms, with a choice rule on each, keeps every row's atoms open and free of facts. |
| `CheckPropagator.AddAtomOpens` | cegar.py:170-188 | Handling one atom keeps every row's check and indicator atoms open. Each has a choice rule and neither has a fact, because a new fact sits on a fresh atom that no row uses. |
| `CheckPropagator.InitCheckerOpens` | cegar.py:158-188 | A pass keeps every row's check and indicator atoms with a choice rule and free of facts. |
| `CheckPropagator.AddAtomFresh` | cegar.py:171-188 | Handling one atom keeps the backend's atoms fresh: both new atoms are above every atom handed out before. |
| `CheckPropagator.InitCheckerTable` | cegar.py:158-188 | A checker's pass adds one map row per kept unknown atom, in atom order, and no other rows. |
| `CheckPropagator.InitCheckerRules` | cegar.py:158-187 | A pass adds as many facts as there are kept true atoms, and twice as many choice rules as there are kept unknown atoms. `InitCheckerOpens` places the choice rules on every row's check and indicator atoms and keeps facts off them. That each fact sits on its true atom's check atom is stated only per step, by `AddAtomRules`. |
| `CheckPropagator.InitCheckerFresh` | cegar.py:171-188 | A pass only hands out fresh atoms. Each row's check and indicator atoms are distinct, rows do not share atoms, and every rule is about a handed-out atom. |
| `CheckPropagator.InitCheckerLits` | cegar.py:158-177 | A pass appends to the glue list each kept atom's literal that is not in the list yet. |
| `CheckPropagator.InitCheckerIgnoresLits` | cegar.py:153-190 | The checker a pass builds does not depend on the glue literals collected by earlier threads. |
| `CheckPropagator.Init` | cegar.py:148-190 | Initialisation creates exactly one checker per thread, and every thread's checker is the same. With no threads the glue list is empty. Otherwise it is what collecting the kept literals from an empty list gives. |
| `CheckPropagator.GlueLitsAfterInit` | cegar.py:153-177 | After initialisation the glue list has no duplicates. It holds exactly the literals of the glue atoms that are not definitely false, true ones included. |
| `CheckPropagator.GlueLitsFirstOccurrenceOrder` | cegar.py:158-177 | The glue list is in order of first occurrence among the kept atoms. |
| `CheckPropagator.GlueLitsIndependentOfThreads` | cegar.py:153-177 | The glue list is the same for any positive number of threads: later threads add nothing. |
| `CheckPropagator.CheckerAfterInit` | cegar.py:153-190 | Every thread's checker has rows exactly for the kept unknown atoms, in order. It has one fact per kept true atom and two choice rules per kept unknown atom. Every row's check atom and indicator atom has a choice rule, no fact is on either, and the atoms are fresh throughout. |
| `CheckPropagator.SkippedAtomLeavesNoTrace` | cegar.py:160-169 | An atom that is not glue, or is definitely false, changes nothing: the pass yields the same checker and glue list as if the atom were absent. |
| `CheckPropagator.Relevant` | cegar.py:205-206 | The clause's literals before the sign flip are exactly the glue literals in the mask, in glue-list order, without duplicates. |
| `CheckPropagator.Conflict` | cegar.py:203-207 | The clause has one literal per relevant glue literal. It is that literal, negated when the candidate makes it true. |
| `CheckPropagator.FlipTrueIffDisagree` | cegar.py:207 | A flipped literal is true under another decided assignment if and only if the two assignments disagree on it. |
| `CheckPropagator.ClauseFalseUnderCandidate` | cegar.py:203-209 | When the candidate decides all glue literals, every literal of the clause is false under it, so the clause rejects the candidate. |
| `CheckPropagator.ClauseBlocksExactlyTheAgreeing` | cegar.py:203-209 | A candidate deciding the glue literals satisfies the clause if and only if it disagrees with the current candidate on some relevant glue literal. So the clause prunes exactly the candidates with the same truth values on the relevant literals. |
| `CheckPropagator.ClauseFromMask` | cegar.py:205-207 | Every clause literal is, up to sign, a glue literal that the mask contains. |
| `CheckPropagator.PropagatorCheck` | cegar.py:193-209 | An interrupted sub-solve is the search-interrupted error. A clause is produced exactly when the check program is satisfiable; an unsatisfiable check accepts the candidate. The clause is the conflict over the glue literals in the checker's mask. Every clause literal is, up to sign, a guess literal of the thread's map, and the clause is false under a candidate that decides the glue literals. |
| `CheckPropagator.PropagatorClauseBlocks` | cegar.py:193-209 | On a satisfiable check, a candidate that decides the glue literals satisfies the learnt clause exactly when it disagrees with the current candidate on some glue literal. That literal must be on a map row whose indicator is true in the checker's first model. |
| `CheckPropagator.ClauseOverUnknownGlueAtoms` | cegar.py:176-209 | For a propagator built by initialisation, every clause literal is, up to sign, the literal of a glue atom that was unknown at initialisation. |
| `CheckPropagator.UnknownLitsMembers` | cegar.py:160-188 | A literal is collected as unknown exactly when some kept atom with that literal is unknown. |
| `CheckPropagator.UnknownAndTrueAtomsApart` | cegar.py:163-168 | In atom records that agree with one assignment, an unknown atom and a true atom are on different variables. |
| `CheckPropagator.AwayFromTrueAtoms` | cegar.py:176-209 | Literals that each share a variable with an unknown kept atom share none with a true kept atom, given agreeing records. |
| `CheckPropagator.TrueGlueAtomsNeverInClause` | cegar.py:163-209 | For a propagator built by initialisation from atom records that agree with one assignment, no clause literal is on the variable of a glue atom already true at initialisation. |
| `Scenario.InitTwoAtoms` | cegar.py:148-190 | Two unknown glue atoms give one checker with two rows, four choice rules and glue list [1, 2]. |
| `Scenario.BothFalseRejected` | cegar.py:193-209 | With a check program satisfiable only when both atoms are false, the candidate with both false yields the clause a ∨ b. |
| `Scenario.OneTrueAccepted` | cegar.py:193-209 | With the same check program, every candidate with a or b true is accepted and adds no clause. |
| `Scenario.LearntClauseExcludesBothFalse` | cegar.py:209 | The learnt clause a ∨ b is violated by exactly the candidates with both atoms false. |

## Left out

- Parsing and program building (`parse_files`, `ProgramBuilder`) are clingo library calls. Statements arrive as a sequence of `Stmt`, and a statement's contents are an opaque id.
- Grounding (`Checker.ground`, the `ground` calls of `GCCApp.main`) and the backend's rule storage are outside the model. Injected rules are recorded as a `Rule` sequence per checker.
- The checker's sub-solve (cegar.py:118-120) is answer-set search. It is the parameter `solve`, applied to the computed assumptions; its model is the set of program atoms true in it.
- Glue extraction in `GCCApp.main` (cegar.py:237-248) is a separate clingo solve with an `on_model` callback. Its result, the set of printed glue symbols, is an input of `Init`.
- The `GCCApp` application class, `clingo_main` and `sys.exit` (cegar.py:212-256) are process plumbing.
- Parallel threads run on clingo's side. The checkers are an indexed sequence, and `PropagatorCheck` accepts any propagator; `ClauseOverUnknownGlueAtoms` is the statement about a propagator that `Init` built.
- The `--heuristic=Domain` option and the construction of the `relevant(symbol)` term are solver details. The indicator is simply the second atom handed out for a glue atom.
- `backend.add_atom` is a counter per checker starting at 1. clingo returns the existing atom when a symbol is already in the backend. That only matters if a glue atom is itself named `relevant(s)` for another glue atom `s`, and it is not modelled.
- `init.solver_literal` and `init.assignment.value` at initialisation are represented by the `guessLit` and `truth` fields of each `Atom`.
- `control.add_clause` and its effect on the main search are outside the model. The clause is returned, and `ClauseBlocksExactlyTheAgreeing` states which candidates it excludes.
- `Checker.backend()` is an accessor with no logic of its own.
- CheckPropagator.Relevant: the no-duplicates property is stated for the relevant glue literals before the sign flip, not for the clause itself. If the glue list holds both l and -l, which clingo can produce for two atoms mapped to complementary solver literals, the flipped clause repeats a literal.
