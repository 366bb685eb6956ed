# Verified model of the argumentation solvers and of four CaDiCaL components

The repository computes, for an abstract argumentation framework, all arguments that are
credulously accepted (in some extension) or skeptically accepted (in every extension), by
translating the framework into clauses and asking a SAT or MaxSAT solver again and again.  This
project models that path from the attack lists to the answers, and four self-contained
algorithms of the bundled CaDiCaL solver.  `dafny verify dfyconfig.toml` checks everything.

**Frameworks and encodings.**  `AF` is the class that reads arguments and attacks and numbers the
variables.  The generators of `Encodings` push real integer literals into a `Solver` object, and
their contracts say for every assignment when it satisfies the clauses.  `Correspondence`
connects this with Dung's definitions over sets of arguments (`Frameworks`).

**The solver object.**  `SatSolver.Solver` holds a growing clause sequence, pending assumptions, the
last model and weight-one soft literals.  `Solve` answers yes exactly if some assignment satisfies
clauses and assumptions, stores such an assignment, and forgets the assumptions.  Its body searches
exhaustively, but callers only see the contract, so every result below holds for every model a
solver may return.  Each query raises a counter, the `Tally` that all solvers of one call share;
what is said about the number of queries is said about this counter.

**The search loops.**  `Iaq`, `Eee`, `See` and `Seem` are methods over one shared incremental solver
whose results are tied to `CredulousSet` and `SkepticalSet`.  `FudgeRuns` describes the FUDGE search as
a transition system in which every query may be answered in any way, `FudgeTheorems` and
`FudgeExactness` say when its runs are exact; `Fudge.FudgeSkep` is the nested loop itself, and
returns the run it went through.

**CaDiCaL.**  `Inprocessing`, `Blocking` and `Reconstruction` are variable elimination, blocked
clauses and the extension stack; `Checker` is the forward proof checker; `Decompose` (with
`BinaryGraph`, `Tarjan` and `TarjanStacks`) is the search for equivalent literals, and `Substitution`
replaces them and joins both to one round; `Heap` is the indexed priority queue.

## Two places where the code is not what one would expect

*The default `complete` encoding* has no clause that makes the targets of an accepted argument
rejected, so it describes more than the complete extensions.  `Correspondence.DefaultInSetsAre` says
exactly which sets it describes, and `DefaultIsWeakerThanComplete` gives a framework where they
differ.  The accepted arguments come out right nevertheless (`CredulousAgree`,
`MaximalInSetsArePreferred`).

*`fudge_skep` can return wrong answers* if the solvers answer unfavourably, because the clause for E'
excludes subsets of the union of all answers E'' instead of each answer.
`FudgeCounterexample.UnsoundRunExists` is such a run, on six arguments.  What holds of every run:

* no right answer is dropped before a wrong one is accepted, so a run is exact as soon as its
  answers are right (`SoundRunsAreComplete`);
* an acceptance that follows right ones is right if and only if every admissible set inside the
  merged set S has an admissible extension with T and the argument (`AcceptanceIsRightIff`), and a
  run is exact if and only if this holds at each of its acceptances (`ExactIffJustified`);
* it holds whenever S is conflict-free, in particular after at most one merge
  (`ConflictFreeRunsAreExact`);
* whatever the solvers answer, an argument is never wrongly accepted if some preferred extension
  without it contains something that is in no admissible set together with it
  (`AcceptedAreNotOutlying`), a condition on the framework alone;
* every run is exact, whatever the solvers answer, if and only if this covers each argument that
  is in some but not all preferred extensions (`FudgeExactness.ExactIffRobust`): from any other
  argument a misleading run is built.

`FudgeTheorems.SeparateClausesWouldBeExact` is about a changed search and not about the code.

## Model

| member | source | states |
|---|---|---|
| ArgumentationFramework.AF.AddArgument | src/AF.cpp:38-41 | a new argument gets the next index, and every known name keeps leading to an index that carries it |
| ArgumentationFramework.AF.InitializeAttackers | src/AF.cpp:69-76 | all tables sized, every argument unattacked, all tables consistent |
| ArgumentationFramework.AF.AddAttack | src/AF.cpp:43-67 | an attack between known names is appended to exactly one attacker list and counted, any other is ignored; attackers, attacked, the flags, the attack tables and the counter stay consistent (`Linked`) |
| ArgumentationFramework.AF.RecordAttack | src/AF.cpp:60-66 | entering an attack, known already or not, keeps the table of symmetric attacks right: it has an entry for exactly the known attacks, and the entry is true exactly if the converse attack is known |
| ArgumentationFramework.AF.InitializeVars | src/AF.cpp:78-93 | consecutive blocks of variables from 1: accepted i+1, rejected n+i+1, and undecided 2n+i+1 without PERF_ENC |
| ArgumentationFramework.TotalLengthUpdate | src/AF.cpp:49-58 | appending one attacker adds one to the total length of the attacker lists, which the counter equals |
| SatSolver.Solver.Solve | src/CadicalSatSolver.cpp:44-81 | yes exactly if some assignment satisfies clauses and assumptions; such an assignment is stored, the assumptions are cleared, and the shared counter of queries goes up by one |
| SatSolver.Solver.SolveWith | src/CadicalSatSolver.cpp:83-88 | the same for a list of assumptions, as one query; a negative answer leaves the last model as it was |
| SatSolver.Solver.SolveOptimal | src/SEEM.cpp:34 | a model of least cost, a soft literal costing its weight of one when true; one query |
| Encodings.AddAdmissible | src/Encodings.cpp:4-20 | exactly the assignments whose labels (shifted for the attacked copy) satisfy the admissibility condition at every argument are added as models |
| Encodings.AddAttacks | src/Encodings.cpp:22-38 | each attack variable is true exactly if the attack goes from the first copy into the second, one of them is, and the buffer of `attacks` cells is filled exactly |
| Encodings.AddAttacksOn | src/Encodings.cpp:26-36 | the attack variables of one argument, and which cells of the buffer are filled after it |
| Encodings.AddCompleteDefault | src/Encodings.cpp:41-67 | models of the default encoding, without the clause from an accepted attacker to a rejected target |
| Encodings.AddCompletePerf | src/Encodings.cpp:69-89 | models of the PERF_ENC encoding, with rejection in both directions |
| Encodings.AddStable | src/Encodings.cpp:149-172 | models of the stable encoding |
| Encodings.BeforeMonotone | src/Encodings.cpp:24-36 | the blocks of attack variables of different arguments follow each other without overlap |
| Correspondence.AdmissibleModelsAre | src/Encodings.cpp:4-20 | the accepted sets of the models are exactly the admissible sets with all unattacked arguments |
| Correspondence.PairModelsAre | src/Encodings.cpp:4-38 | the models of both copies with the attack clauses project exactly onto the pairs (E', S'') of such sets where E' attacks S'' |
| Correspondence.AttackIndexUnique | src/Encodings.cpp:24-36 | different attacks have different variables |
| Correspondence.PerfModelIsComplete | src/Encodings.cpp:69-89 | a PERF_ENC model labels a complete extension, the rejected arguments being exactly those it attacks |
| Correspondence.PerfInSetsAre | src/Encodings.cpp:69-89 | the accepted sets under PERF_ENC are exactly the complete extensions |
| Correspondence.DefaultInSetsAre | src/Encodings.cpp:41-67 | the accepted sets of the default encoding are exactly the admissible sets that take in every argument all of whose attackers attack the set |
| Correspondence.DefaultIsWeakerThanComplete | src/Encodings.cpp:41-67 | a framework and a model of the default encoding whose accepted set is not complete |
| Correspondence.CompleteIsInSet | src/Encodings.cpp:41-89 | every complete extension is the accepted set of a model, in both versions |
| Correspondence.MaximalInSetsArePreferred | src/Encodings.cpp:41-89 | the maximal accepted sets are exactly the preferred extensions, in both versions |
| Correspondence.CredulousAgree | src/IAQ.cpp:14-29 | some model accepts an argument exactly if a complete, equivalently a preferred extension has it |
| Correspondence.StableModelsAre | src/Encodings.cpp:149-172 | the accepted sets of the stable encoding are exactly the stable extensions |
| Correspondence.StableModelIsStable | src/Encodings.cpp:149-172 | a model of the stable encoding rejects exactly the arguments it does not accept, so models correspond one to one to stable extensions |
| Search.BlockingShrinks | src/IAQ.cpp:92 | a clause over the arguments outside a set leaves strictly fewer sets unblocked, so the loops end |
| Search.DescribesGrows | src/IAQ.cpp:89-92 | a positive clause over the arguments outside a set hides exactly the subsets of that set |
| Iaq.IaqCred | src/IAQ.cpp:6-31 | lists, in increasing order, exactly the credulously accepted arguments for CO, PR and ST, with exactly n queries; other semantics are refused |
| Iaq.IaqSkep | src/IAQ.cpp:33-59 | lists exactly the skeptically accepted arguments for PR and ST, with exactly n queries for ST; other semantics are refused |
| Iaq.IsSkepticallyPreferred | src/IAQ.cpp:61-104 | ends, is true exactly if the argument is in every preferred extension, and takes at most one query more than three times the number of accepted sets of models |
| Iaq.GrowWithout | src/IAQ.cpp:74-95 | a model without the argument is grown until no larger one without it is left; only sets that are not preferred were blocked on the way |
| Iaq.GrownIsPreferred | src/IAQ.cpp:93-101 | a set that grows neither without nor with the argument is a preferred extension without it |
| Iaq.AllPreferredHold | src/IAQ.cpp:71-72 | when no model without the argument is left although nothing preferred is blocked, every preferred extension has it |
| Eee.EeeCred | src/EEE.cpp:5-42 | lists exactly the credulously accepted arguments, each once, with one query for each accepted set of a model and a last one |
| Eee.PreferredExtensions | src/EEE.cpp:53-91 | each round ends in a preferred extension, none comes twice, none is missed, `included` is their intersection, and there are no more queries than accepted sets, preferred extensions and one |
| Eee.NextPreferred | src/EEE.cpp:64-79 | one climb: a preferred extension not seen before, or the proof that none is left |
| Eee.StuckIsPreferred | src/EEE.cpp:67 | a set that no remaining model exceeds is preferred |
| Eee.StableExtensions | src/EEE.cpp:93-109 | each stable extension is enumerated exactly once, with one query each and a last one, and `included` is their intersection |
| Eee.BlocksOnlyItself | src/EEE.cpp:103-107 | the clause that blocks supersets removes only the stable extension just found |
| Eee.EeeSkep | src/EEE.cpp:44-122 | lists exactly the skeptically accepted arguments for PR and ST; the queries for ST are the stable extensions and one |
| See.SeeCred | src/SEE.cpp:5-41 | lists exactly the credulously accepted arguments; all solvers together are asked at most as often as there are arguments listed, and twice |
| See.SeeSkep | src/SEE.cpp:43-79 | lists exactly the intersection of the stable extensions (all arguments if there is none), with at most n+2 queries |
| See.NothingLeftToReject | src/SEE.cpp:60-70 | no model left that rejects an included argument: all included ones are in every stable extension |
| Seem.SeemCred | src/SEEM.cpp:5-47 | lists exactly the credulously accepted arguments; each query but the last finds a new one |
| Seem.SeemSkep | src/SEEM.cpp:49-89 | lists exactly the intersection of the stable extensions; each query but the last drops an argument |
| Seem.NothingNewAccepted | src/SEEM.cpp:24-34 | a model costs the whole weight exactly if it accepts none of the unvisited arguments |
| Seem.NothingMoreDropped | src/SEEM.cpp:65-75 | a stable model costs the whole weight exactly if it contains all included arguments |
| Seem.NoCredulousLeft | src/SEEM.cpp:34 | stopping at that cost misses no credulously accepted argument |
| Seem.NothingLeftToDrop | src/SEEM.cpp:75 | stopping at that cost drops all that had to be dropped |
| FudgeRuns.StepInv | src/fudge.cpp:20-137 | every step keeps: T without repeats and apart from C, T inside the last E, E without C once scanned, no argument put under test twice, S pieced together from admissible sets above T and the argument |
| FudgeRuns.RunInv | src/fudge.cpp:20-137 | the invariant holds in every state of every run |
| FudgeTheorems.AttackedAreNotSkeptical | src/fudge.cpp:45-53 | what an admissible set attacks is not skeptically accepted |
| FudgeTheorems.StopLosesNone | src/fudge.cpp:22-43 | both returns lose no right answer |
| FudgeTheorems.RejectLosesNone | src/fudge.cpp:94-117 | dropping what E' attacks and the argument loses no right answer |
| FudgeTheorems.RunLosesNone | src/fudge.cpp:20-137 | in every run, while all of T is right, every right answer is in T or C, and at the end in T |
| FudgeTheorems.SoundRunsAreComplete | src/fudge.cpp:20-137 | a finished run without wrong answers returns exactly the skeptically preferred arguments |
| FudgeTheorems.MissedAreInside | src/fudge.cpp:71-92 | at an acceptance every preferred extension without the argument is inside the merged set |
| FudgeTheorems.AcceptanceIsRightIff | src/fudge.cpp:84-92 | after right acceptances, an acceptance is right if and only if every admissible set inside the merged set has an admissible extension with T and the argument |
| FudgeTheorems.ExactIffJustified | src/fudge.cpp:20-137 | a finished run is exact if and only if that held at each of its acceptances |
| FudgeTheorems.ConflictFreeIsJustified | src/fudge.cpp:129-134 | a conflict-free merged set meets the condition |
| FudgeTheorems.ConflictFreeRunsAreExact | src/fudge.cpp:84-92 | a run that accepts only after at most one merge, or with a conflict-free merged set, is exact |
| FudgeTheorems.AcceptedAreNotOutlying | src/fudge.cpp:71-92 | no run accepts an argument that a preferred extension lacks which is not made up of companions of the argument |
| FudgeExactness.ExactIffRobust | src/fudge.cpp:7-138 | whatever the solvers answer, every finished run is exact, if and only if each argument that is in some but not all preferred extensions is missing from one that is not made up of its companions |
| FudgeExactness.RobustIsExact | src/fudge.cpp:7-138 | on such a framework every finished run is exact |
| FudgeExactness.ElusiveMisleads | src/fudge.cpp:20-138 | from any argument that breaks the condition, answers of the solvers are built that end in a wrong result |
| FudgeExactness.Completed | src/fudge.cpp:20-138 | every run, whatever was answered so far, can be continued to a finished one |
| FudgeTheorems.RunBounds | src/fudge.cpp:20-136 | at most n queries for E, each argument under test at most once, at most n merges for each of them |
| FudgeTheorems.RunQueries | src/fudge.cpp:20-137 | a run over n arguments takes at most n + n(2n+2) queries |
| FudgeCounterexample.MissedExtension | src/fudge.cpp:84-92 | in the example {p, q} is preferred and lacks the argument a |
| FudgeCounterexample.UnsoundRunExists | src/fudge.cpp:7-138 | a finished run whose result is not the set of skeptically preferred arguments |
| Fudge.FindMeeting | src/fudge.cpp:24-43 | E is admissible, above T and meets C, or there is no such set |
| Fudge.FindChallenge | src/fudge.cpp:60-84 | E' is not inside S and attacks an admissible set with T and the argument, or there is no such set |
| Fudge.FindAnswer | src/fudge.cpp:104-110 | E'' is admissible and contains E', T and the argument, or there is no such set; the shared solver is as before |
| Fudge.RemoveAttacked | src/fudge.cpp:45-53 | the candidates lose exactly what the extension attacks, and the counter follows |
| Fudge.Accept | src/fudge.cpp:85-91 | the argument enters the result once and leaves the candidates, and the unguarded decrement keeps the counter right |
| Fudge.Respond | src/fudge.cpp:94-134 | one round after E' was found is one step of the transition system |
| Fudge.TestArgument | src/fudge.cpp:57-135 | the innermost loop ends, its steps are steps of the transition system, and the argument is no candidate afterwards |
| Fudge.ScanExtension | src/fudge.cpp:55-136 | the loop over E goes through a run of the transition system |
| Fudge.SearchRound | src/fudge.cpp:20-137 | one round of the outer loop continues the run, with exactly the queries of its new steps, and leaves fewer candidates unless the search is done |
| Fudge.FudgeSkep | src/fudge.cpp:7-138 | the search ends with a finished run of the transition system whose T is the result; the solvers are asked exactly as often as the run tells, at most n + n(2n+2) times; the result has no repeats, is exact if and only if the run was justified at each acceptance, and is always exact on the frameworks of `ExactIffRobust` |
| Reconstruction.External.PushClauseWithPivot | lib/cadical-1.9.5/src/extend.cpp:5-61 | one entry in the flat layout: separator, witness, separator, two words, separator, clause |
| Reconstruction.External.Extend | lib/cadical-1.9.5/src/extend.cpp:114-197 | the backward scan of the flat stack repairs entry by entry: a witness literal is made true exactly if its clause is false |
| Reconstruction.External.ScanClause | lib/cadical-1.9.5/src/extend.cpp:149-158 | reads one clause backwards up to its separator and tells whether it holds |
| Reconstruction.External.ScanWitness | lib/cadical-1.9.5/src/extend.cpp:173-189 | makes every witness literal true, up to the separator |
| Reconstruction.Weaken | lib/cadical-1.9.5/src/extend.cpp:40-61 | removing a repairable clause with its pivot pushed keeps every original clause within reach of every model, and every original model a model |
| Reconstruction.SameSatisfiability | lib/cadical-1.9.5/src/extend.cpp:114-197 | what is left after any modelled steps has a model if and only if the original clauses have one |
| Reconstruction.RepairedIsModel | lib/cadical-1.9.5/src/extend.cpp:169-190 | flipping the pivot when the clause is false gives a model of the clause and of all others |
| Inprocessing.ResolventHolds | lib/cadical-1.9.5/src/elim.cpp:264-471 | a resolvent without its falsified literals is implied |
| Inprocessing.ResolventCovers | lib/cadical-1.9.5/src/elim.cpp:264-471 | a true resolvent makes an antecedent true without the pivot |
| Inprocessing.SelfSubsumes | lib/cadical-1.9.5/src/elim.cpp:421-445 | the resolvent is shorter than an antecedent exactly if the other antecedent adds nothing, and then the antecedent without pivot and falsified literals is implied by both |
| Inprocessing.Simplifier.OnTheFlySelfSubsumption | lib/cadical-1.9.5/src/elim.cpp:209-234 | the clause is replaced by one without the pivot and without falsified literals, with the same models |
| Inprocessing.Simplifier.ResolveClauses | lib/cadical-1.9.5/src/elim.cpp:264-471 | what is left, and the answer, are exactly those of `ResolvedOutcome`; every outcome keeps the models; yes: the buffer holds the undecided literals of the resolvent, at least two and no tautology; no: the pair needs no resolvent |
| Inprocessing.ResolvedOutcome | lib/cadical-1.9.5/src/elim.cpp:264-471 | yes if and only if both clauses are live and not satisfied, their other undecided literals do not clash and are at least two, and neither clause contains what the other leaves; a clause that does is replaced by a live one of exactly its other undecided literals |
| Inprocessing.Simplifier.AddResolvents | lib/cadical-1.9.5/src/elim.cpp:547-592 | afterwards every pair of clauses on the variable is handled, unless the empty clause was found |
| Inprocessing.Simplifier.MarkEliminatedClausesAsGarbage | lib/cadical-1.9.5/src/elim.cpp:601-658 | exactly the clauses of the variable leave; they are pushed in the order of the two occurrence lists, once each and with their pivot, both lists are empty, and every model stays reconstructible |
| Inprocessing.HandledIsRepairable | lib/cadical-1.9.5/src/elim.cpp:601-658 | when all pairs are handled each clause of the variable can be repaired by its pivot |
| Inprocessing.Simplifier.EliminateVariable | lib/cadical-1.9.5/src/elim.cpp:547-658 | exactly this variable is removed and its clauses, after the resolvents were added, are pushed and leave, those with the literal first; clauses without it stay as they are; models of the old formula are models of the new one, models of the new one repair to models of the original, and the empty clause is learned only if the original has no model |
| Inprocessing.ExtendModel | lib/cadical-1.9.5/src/extend.cpp:114-197 | after any sequence of the modelled steps, extending a model of what is left along the stack satisfies all original clauses |
| Blocking.FindClash | lib/cadical-1.9.5/src/block.cpp:43-145 | finds a clashing literal exactly if there is one and moves the first one to the front; without one the order is as before |
| Blocking.IsBlockedClause | lib/cadical-1.9.5/src/block.cpp:43-145 | true exactly if every resolvent on the literal is tautological; the clauses tested, up to the first that does not clash, get their clashing literal in front, and the occurrence list is unchanged on success and otherwise has the witness in front |
| Blocking.BlockedIsRepairable | lib/cadical-1.9.5/src/block.cpp:36-145 | a blocked clause can be repaired by its blocking literal |
| Blocking.BlockCandidates | lib/cadical-1.9.5/src/block.cpp:616-637 | exactly the blocked candidates leave and are pushed in the order of the candidates, the lists and the order of literals change as the tests in turn tell, and every model stays reconstructible |
| Blocking.BlockCandidate | lib/cadical-1.9.5/src/block.cpp:616-630 | a candidate is pushed and leaves exactly if it is blocked; clauses with the literal are not even permuted |
| Blocking.BlockPureLiteral | lib/cadical-1.9.5/src/block.cpp:249-290 | exactly the clauses of the pure literal leave and are pushed in the order of its list, both lists are emptied; a frozen literal changes nothing |
| Blocking.BlockLiteralWithOneNegativeOcc | lib/cadical-1.9.5/src/block.cpp:298-430 | exactly the clauses of allowed size whose resolvent with the only negative clause is tautological leave and are pushed in the order of the list; clauses are at most permuted; the list keeps the other live clauses in order, and that of the negation keeps its one clause |
| Checker.Checker.Propagate | lib/cadical-1.9.5/src/checker.cpp:382-443 | what is assigned follows from the original clauses and the assumptions, and by unit propagation steps; ends without conflict only when every propagated clause with a false watch is satisfied, and a conflict is a refutation by unit propagation |
| Checker.Checker.VisitLong | lib/cadical-1.9.5/src/checker.cpp:405-437 | one long clause: watches stay its first two literals, and it is satisfied, moved to another list, dropped as garbage, or in conflict |
| Checker.Checker.MoveWatch | lib/cadical-1.9.5/src/checker.cpp:428-431 | the replacement is watched instead of the false literal, in the lists and in the clause |
| Checker.Checker.Backtrack | lib/cadical-1.9.5/src/checker.cpp:360-374 | the trail is cut to the given length, and the values are those of what is left |
| Checker.Checker.Check | lib/cadical-1.9.5/src/checker.cpp:445-455 | unless there is a conflict already, a clause is accepted if and only if unit propagation over the table and the garbage binary clauses refutes its negation, and an accepted clause is implied by the original clauses; trail and values are restored |
| CheckerData.WithstandingIsUnrefuted | lib/cadical-1.9.5/src/checker.cpp:445-455 | if a consistent set of literals with the trail and the negation of the clause leaves no clause false or unit, no sequence of unit propagation steps refutes that negation |
| CheckerData.UnitEntailed | lib/cadical-1.9.5/src/checker.cpp:432-435 | a literal whose clause is otherwise false follows |
| CheckerData.SwappedStays | lib/cadical-1.9.5/src/checker.cpp:428-431 | after moving a watch every clause of the table is still on the lists of its first two literals |
| Checker.Checker.constructor | lib/cadical-1.9.5/src/checker.cpp:169-190 | nothing stored, and the four numbers of the hash are the given ones, made odd |
| CheckerData.HashSteps | lib/cadical-1.9.5/src/checker.cpp:302-306 | the hash of the identifiers 0 to 3, and what every fourth one adds, modulo 2^64 |
| CheckerData.HashesDiffer | lib/cadical-1.9.5/src/checker.cpp:178-183 | because those numbers are odd, different identifiers of one remainder modulo 4 have different hashes |
| Checker.Checker.Tautological | lib/cadical-1.9.5/src/checker.cpp:267-285 | true exactly if the clause has a true literal or one with its negation; otherwise the buffer has its literals sorted and once each |
| Checker.Checker.ChooseWatches | lib/cadical-1.9.5/src/checker.cpp:47-64 | the literals of a new clause with two unassigned ones in front |
| Checker.Checker.Insert | lib/cadical-1.9.5/src/checker.cpp:332-340 | the clause with its identifier is the new first entry of the table, and the invariant of the watches holds |
| Checker.Checker.AddClause | lib/cadical-1.9.5/src/checker.cpp:459-494 | by the number of literals that are not false: a conflict, a unit with exactly what propagation derives from it, or a new first entry of the table under its identifier |
| Checker.Checker.AddUnit | lib/cadical-1.9.5/src/checker.cpp:485-491 | a new unit becomes inconsistent if and only if unit propagation refutes it, otherwise the trail is exactly what propagation derives: only unit steps, and no clause is left false or unit |
| Checker.Checker.AddOriginalClause | lib/cadical-1.9.5/src/checker.cpp:496-513 | the invariant holds for one more original clause, which is recorded under its identifier unless there is a conflict already or it is true anyway |
| Checker.Checker.AddDerivedClause | lib/cadical-1.9.5/src/checker.cpp:515-539 | a clause is accepted if and only if there is a conflict already, it is true anyway, or unit propagation refutes its negation; accepted clauses are implied by the original ones and recorded under their identifier, and a refused one changes nothing |
| Checker.Checker.Find | lib/cadical-1.9.5/src/checker.cpp:308-330 | the first entry with the literals given and an identifier of the same hash, or the end if there is none |
| Checker.Checker.CollectGarbageClauses | lib/cadical-1.9.5/src/checker.cpp:119-170 | exactly the entries that are true leave the table, the garbage is freed, and no watch leads to a freed clause |
| Checker.Checker.DeleteClause | lib/cadical-1.9.5/src/checker.cpp:543-579 | refused exactly if no entry has these literals under an identifier of the same hash, in particular if it is stored only under others of the same remainder; otherwise the first such entry leaves, and the rest of the table stays but for what a garbage collection removes |
| Checker.Checker.StoredIs | lib/cadical-1.9.5/src/checker.cpp:382-443 | propagation sees the clauses of the table and the binary clauses that wait as garbage, and no others |
| Checker.Checker.AddAssumptionClause | lib/cadical-1.9.5/src/checker.cpp:581-585 | accepted exactly as a derived clause, and then always found again for deletion: the table is as before, maybe without what is true, and only a propagated unit or a conflict stays; a refused clause changes nothing |
| Checker.Checker.InconsistentIsUnsatisfiable | lib/cadical-1.9.5/src/checker.cpp:478-491 | once the checker is inconsistent the original clauses have no model |
| Decompose.Decomposer.DecomposeRound | lib/cadical-1.9.5/src/decompose.cpp:154-418 | ends; unsatisfiability is reported exactly if some active literal is equivalent to its negation, otherwise every active literal has a representative and the number of substituted literals is right |
| Decompose.Decomposer.VisitTop | lib/cadical-1.9.5/src/decompose.cpp:207-414 | one turn of the main loop keeps the invariant and comes closer to the end |
| Decompose.Decomposer.PreFix | lib/cadical-1.9.5/src/decompose.cpp:391-412 | a literal is numbered and its unvisited children pushed |
| Decompose.Decomposer.NewMin | lib/cadical-1.9.5/src/decompose.cpp:232-247 | the smallest minimum of a literal and its active binary children |
| Decompose.Decomposer.ScanComponent | lib/cadical-1.9.5/src/decompose.cpp:310-343 | finds the negation of the entry exactly if the component has it, and otherwise the literal of smallest variable |
| Decompose.Decomposer.PopComponent | lib/cadical-1.9.5/src/decompose.cpp:350-375 | exactly the component is traversed and gets its representative, frozen literals themselves |
| Decompose.ReprsOdd | lib/cadical-1.9.5/src/decompose.cpp:310-375 | the representative of a negation is the negation of the representative |
| Decompose.ReprsSame | lib/cadical-1.9.5/src/decompose.cpp:310-375 | literals of one component that are not frozen have the same representative |
| Decompose.Decomposer.ReprsRespectModels | lib/cadical-1.9.5/src/decompose.hpp:8-12 | every model of the binary clauses gives a literal and its representative the same value |
| Decompose.Decomposer.ComplementaryIsUnsatisfiable | lib/cadical-1.9.5/src/decompose.cpp:318-335 | a literal equivalent to its negation leaves the binary clauses without a model |
| Decompose.CompleteSettled | lib/cadical-1.9.5/src/decompose.cpp:310-375 | the literal of smallest variable represents its component, and without the entry's negation no member is equivalent to its own |
| Substitution.DecomposeRound | lib/cadical-1.9.5/src/decompose.cpp:154-745 | search and replacement together: the models of the formula before are those models of the formula after in which every literal has the value of its representative, no replaced literal is left, every model stays reconstructible, success is reported if and only if there is the empty clause, a new unit or a new binary clause, and the empty clause is learned only if neither this formula nor the original clauses have a model |
| Substitution.Substituter.Substitute | lib/cadical-1.9.5/src/decompose.cpp:444-735 | the replacement alone: the clauses become, one after the other, what `Replaces` tells; besides, the pairs of all replaced variables are pushed, repairing them turns any model after into one before, and success means the empty clause, a new unit or a new binary clause |
| Substitution.Substituter.PushEquivalences | lib/cadical-1.9.5/src/decompose.cpp:444-495 | for every replaced variable in order, both halves of its equivalence with the representative are pushed with consecutive identifiers, which the counter has passed afterwards |
| Substitution.Substituter.Replace | lib/cadical-1.9.5/src/decompose.cpp:533-593 | tells exactly if a literal or its representative is true or two representatives are complementary; otherwise collects exactly the undecided representatives, once each |
| Substitution.Substituter.VisitClause | lib/cadical-1.9.5/src/decompose.cpp:507-663 | one clause: it waits as satisfied, is the empty clause, a unit, replaced or shrunk; the other clauses stay, and the models in which literals agree with their representatives stay the same |
| Substitution.Substituter.UseLonger | lib/cadical-1.9.5/src/decompose.cpp:612-656 | the replacement takes the place of the clause whether or not a watched literal changed, and a binary clause is reported exactly if the clause changed |
| Substitution.Substituter.MarkPostponed | lib/cadical-1.9.5/src/decompose.cpp:691-697 | exactly the waiting clauses become garbage, and no model in which literals agree is gained or lost |
| Substitution.Substituter.MarkSubstituted | lib/cadical-1.9.5/src/decompose.cpp:713-725 | exactly the active variables whose representative is another undecided literal are marked |
| Substitution.RepairPairs | lib/cadical-1.9.5/src/decompose.cpp:428-495 | repairing the pushed pairs sets each replaced variable to the value of its representative and nothing else |
| Substitution.RepairedPairsModel | lib/cadical-1.9.5/src/decompose.cpp:428-495 | any model of the formula after the replacement is repaired to one of the formula before |
| Substitution.PairsReconstruct | lib/cadical-1.9.5/src/decompose.cpp:428-495 | with the pairs on top of the stack every model after leads back to a model of the original clauses |
| Substitution.ImageHolds | lib/cadical-1.9.5/src/decompose.cpp:525-593 | where literals agree with their representatives, a clause found satisfied holds and any other has the value of its replacement |
| Substitution.RepresentedIsMapping | lib/cadical-1.9.5/src/decompose.cpp:310-375 | the representatives the search finds commute with negation and represent themselves, which the replacement relies on |
| Tarjan.ComponentExact | lib/cadical-1.9.5/src/decompose.cpp:251-257 | at an entry the stack above it is exactly its strongly connected component |
| Tarjan.DiscoverKeeps | lib/cadical-1.9.5/src/decompose.cpp:391-412 | numbering a literal keeps the invariant of the search |
| Tarjan.LowerKeeps | lib/cadical-1.9.5/src/decompose.cpp:382-388 | lowering a minimum keeps it, also when a stale copy is visited a second time |
| Tarjan.CompleteKeeps | lib/cadical-1.9.5/src/decompose.cpp:350-375 | completing a component keeps it: nothing traversed leads to anything that is not |
| TarjanStacks.TopIsLast | lib/cadical-1.9.5/src/decompose.cpp:222-232 | an open literal on top of the working stack is the last one opened, and all its children have been visited |
| BinaryGraph.ComplementSpreads | lib/cadical-1.9.5/src/decompose.cpp:318-335 | if one member of a component is equivalent to its negation, so is every other: looking for the entry's negation is enough |
| Heap.Heap.PushBack | lib/cadical-1.9.5/src/heap.hpp:143-152 | exactly the new element is added; heap order and positions are kept |
| Heap.Heap.Front | lib/cadical-1.9.5/src/heap.hpp:154-159 | no element is above the front |
| Heap.Heap.PopFront | lib/cadical-1.9.5/src/heap.hpp:161-174 | exactly the front, a maximum, is removed; heap order and positions are kept |
| Heap.Heap.Update | lib/cadical-1.9.5/src/heap.hpp:176-183 | after only this element's comparisons changed, the order is restored and the elements are the same |
| Heap.Heap.Up | lib/cadical-1.9.5/src/heap.hpp:73-77 | afterwards the element is not above its parent, and nothing else became wrong |
| Heap.Heap.Down | lib/cadical-1.9.5/src/heap.hpp:81-93 | afterwards the heap is ordered |
| Heap.Heap.Exchange | lib/cadical-1.9.5/src/heap.hpp:65-69 | two elements and their positions are exchanged, and positions stay the inverse of the array |
| Heap.FrontIsMaximum | lib/cadical-1.9.5/src/heap.hpp:154-159 | in an ordered heap nothing is above the front |
| Heap.ChangedOne | lib/cadical-1.9.5/src/heap.hpp:176-183 | after a change of one element's comparisons only pairs with it can be out of order |

## Left out

- src/Main.cpp: option parsing, file formats and printing.
- The concrete solvers (CaDiCaL's search, Glucose, CryptoMiniSat, Kissat, CGSS2, external programs): replaced by the contract of `SatSolver.Solver`; memory, time limits and the answer "unknown" are not modelled.
- src/Encodings.cpp:91-148, the EXPERIMENTAL encodings: second definitions of the same functions.
- Results are argument indices; the names they stand for are only in the class `AF`.
- Unsupported semantics end the program in the source; here they are the answer `Unsupported`.
- 32-bit integers: variables and counters are unbounded, except where the heap's invalid position and the traversal mark of the decomposition need their bound.
- `AF.attacked` is filled whether or not the program is compiled with FUDGE.
- SatSolver.Solver.Solve: `solve` and `solve_extension` are one method that fills both the model and the extension.
- Seem.SeemSkep: soft constraints are a set of literals of weight one, so adding one twice is adding it once.
- Inprocessing.Simplifier.EliminateVariable: without gates; the eager propagation of lib/cadical-1.9.5/src/elim.cpp:142-199, the bound on the number of resolvents, the schedule, occurrence counts and proof output are not modelled. Once the empty clause is learned the variable is not marked.
- Reconstruction.External.Extend: starts from external values; copying them from internal variables and the marking of witnesses are not modelled. The high word of a clause identifier is always zero, as in the code.
- Blocking.BlockCandidates: takes the candidates as given; their selection (lib/cadical-1.9.5/src/block.cpp:435-543), their order and the rescheduling of literals are not modelled.
- Checker.Checker.Find: the hash table is one chain, the marks are a set, and the hash is computed without the reduction to the table size.
- Checker.Checker.DeleteClause: the sizes of the table and of the variable range, which decide when garbage is collected, are one parameter.
- Decompose.Decomposer.DecomposeRound: the proof chains for LRAT and statistics are not modelled; learning the entry as a unit before the empty clause is the single assignment to `unsat`.
- Substitution.DecomposeRound: the propagation of new units after the replacement (lib/cadical-1.9.5/src/decompose.cpp:708-711) and the watch lists are not modelled; redundant clauses are treated as all others. Identifiers that only the proof output uses, of shrunk clauses and of the unit learned with a complementary literal, are not modelled.
- Heap.Heap.PushBack: `clear`, `erase` and `shrink` are not modelled; positions outside the vector read as absent.
- Covered and conditioned clause elimination, gates, LRAT, DRAT, FRAT and IDRUP output, restarts, phases and the external propagator.
