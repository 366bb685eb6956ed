/** The FUDGE search itself: three solvers, bit vectors updated in place, and a counter of
    candidates.  Every execution is one of the runs of the transition system. */
module Fudge {
  import opened Sat
  import opened SatSolver
  import opened Frameworks
  import opened ArgumentationFramework
  import opened Encodings
  import opened Correspondence
  import opened Search
  import opened FudgeRuns
  import opened FudgeTheorems
  import opened FudgeExactness

  // ----- The queries as the solvers see them -----

  lemma AssumedAre(m: Assignment, n: nat, X: set<nat>)
    requires forall i | i in X :: i < n
    ensures AllTrue(m, Pick(n, X, 0, false)) <==> X <= In(m, n)
  {
    PickAllTrue(m, n, X, 0);
    assert forall i: nat :: Acc(m, 0, i) <==> Chosen(m, i);
  }

  /** Query for E: an admissible set above T that meets C. */
  method FindMeeting(af: AF, accepted: seq<bool>, candidate: seq<bool>, ghost tally: Tally)
      returns (sat: bool, extension: seq<nat>)
    requires af.Ready() && |accepted| == |candidate| == af.args
    modifies tally
    ensures tally.calls == old(tally.calls) + 1
    ensures var f, T, C := af.Graph(), Trues(accepted), Trues(candidate);
            && (sat ==> Increasing(extension) && MeetsCandidates(f, T, C, Elements(extension)))
            && (sat ==> Elements(extension) <= Args(f) && Elements(extension) * C != {})
            && (!sat ==> forall E :: !MeetsCandidates(f, T, C, E))
  {
    ghost var f, T, C := af.Graph(), Trues(accepted), Trues(candidate);
    var solver1 := new Solver(af.args, tally);
    AddAdmissible(af, solver1, false);
    ghost var base := solver1.clauses;
    var intersectClause: seq<Lit> := [];
    for i := 0 to af.args
      invariant intersectClause == Pick(i, C, 0, false)
      invariant solver1.assumptions == Pick(i, T, 0, false) && solver1.clauses == base
      invariant tally.calls == old(tally.calls)
    {
      if candidate[i] {
        intersectClause := intersectClause + [af.acceptedVar[i]];
      }
      if accepted[i] {
        solver1.Assume(af.acceptedVar[i]);
      }
    }
    solver1.AddClause(intersectClause);
    forall E | MeetsCandidates(f, T, C, E) ensures Satisfiable(solver1.clauses, solver1.assumptions) {
      var m := MeetingHasModel(f, T, C, E);
    }
    sat := solver1.Solve();
    extension := solver1.extension;
    if sat {
      MeetingModel(f, solver1.found, T, C);
      assert Elements(extension) == In(solver1.found, Size(f));
    }
  }

  lemma MeetingModel(f: Graph, m: Assignment, T: set<nat>, C: set<nat>)
    requires AdmissibleModel(f, m, 0) && T <= Args(f)
    requires Holds(m, Pick(Size(f), C, 0, false)) && AllTrue(m, Pick(Size(f), T, 0, false))
    ensures MeetsCandidates(f, T, C, In(m, Size(f)))
  {
    AdmissibleModelIsGrounding(f, m, 0);
    InIsInAt(f, m);
    PickMeets(m, Size(f), C);
    var i :| i in C && i in In(m, Size(f));
    assert i in In(m, Size(f)) * C;
    AssumedAre(m, Size(f), T);
  }

  lemma MeetingHasModel(f: Graph, T: set<nat>, C: set<nat>, E: set<nat>) returns (m: Assignment)
    requires MeetsCandidates(f, T, C, E) && T <= Args(f)
    ensures AdmissibleModel(f, m, 0)
    ensures Holds(m, Pick(Size(f), C, 0, false)) && AllTrue(m, Pick(Size(f), T, 0, false))
  {
    AdmissibleModelsAre(f, E, 0);
    m :| AdmissibleModel(f, m, 0) && InAt(f, m, 0) == E;
    InIsInAt(f, m);
    PickMeets(m, Size(f), C);
    var i :| i in E * C;
    AssumedAre(m, Size(f), T);
  }

  /** A solver for pairs of admissible sets, the first attacking the second. */
  method PairSolver(af: AF, ghost tally: Tally) returns (solver2: Solver)
    requires af.Ready()
    ensures fresh(solver2) && solver2.tally == tally && solver2.decisionVars == af.args && solver2.assumptions == []
    ensures forall m :: Models(m, solver2.clauses) <==> PairModel(af.Graph(), m)
  {
    solver2 := new Solver(af.args, tally);
    AddAdmissible(af, solver2, false);
    AddAdmissible(af, solver2, true);
    AddAttacks(af, solver2);
  }

  /** Query for E': it attacks an admissible set above T and `a`, and is not inside S. */
  method FindChallenge(af: AF, accepted: seq<bool>, a: nat, included: seq<bool>, ghost tally: Tally)
      returns (sat: bool, model: seq<bool>, extension: seq<nat>)
    requires af.Ready() && |accepted| == |included| == af.args && a < af.args
    modifies tally
    ensures tally.calls == old(tally.calls) + 1
    ensures var f, T, S := af.Graph(), Trues(accepted), Trues(included);
            && (sat ==> |model| == af.args && Elements(extension) == Trues(model))
            && (sat ==> Challenges(f, T, a, S, Trues(model)) && !(Trues(model) <= S))
            && (!sat ==> forall E' :: !Challenges(f, T, a, S, E'))
  {
    hide PairModel, AdmissibleModel, Challenges;
    ghost var f, T, S := af.Graph(), Trues(accepted), Trues(included);
    var solver2 := PairSolver(af, tally);
    ghost var base := solver2.clauses;
    var nonsubsetClause: seq<Lit> := [];
    for i := 0 to af.args
      invariant nonsubsetClause == Pick(i, Args(f) - S, 0, false)
      invariant solver2.assumptions == Pick(i, T + {a}, 2 * af.args, false) && solver2.clauses == base
      invariant tally.calls == old(tally.calls)
    {
      if i == a || accepted[i] {
        solver2.Assume(2 * af.args + af.acceptedVar[i]);
      }
      if !included[i] {
        nonsubsetClause := nonsubsetClause + [af.acceptedVar[i]];
      }
    }
    solver2.AddClause(nonsubsetClause);
    forall E' | Challenges(f, T, a, S, E') ensures Satisfiable(solver2.clauses, solver2.assumptions) {
      var m := ChallengeHasModel(f, T, a, S, E');
    }
    sat := solver2.Solve();
    model, extension := solver2.model, solver2.extension;
    if sat {
      ChallengeModel(f, solver2.found, T, a, S);
      ChallengeIsOutside(f, T, a, S, Trues(model));
      assert Elements(extension) == In(solver2.found, Size(f));
    }
  }

  lemma AssumedInCopy(f: Graph, m: Assignment, X: set<nat>)
    requires X <= Args(f)
    ensures AllTrue(m, Pick(Size(f), X, 2 * Size(f), false)) <==> X <= InAt(f, m, 2 * Size(f))
  {
    PickAllTrue(m, Size(f), X, 2 * Size(f));
  }

  lemma ChallengeModel(f: Graph, m: Assignment, T: set<nat>, a: nat, S: set<nat>)
    requires PairModel(f, m) && T <= Args(f) && a < Size(f)
    requires Holds(m, Pick(Size(f), Args(f) - S, 0, false))
    requires AllTrue(m, Pick(Size(f), T + {a}, 2 * Size(f), false))
    ensures Challenges(f, T, a, S, In(m, Size(f)))
  {
    PairModelAttacks(f, m);
    InIsInAt(f, m);
    PickOutside(f, m, S);
    AssumedInCopy(f, m, T + {a});
  }

  lemma ChallengeIsOutside(f: Graph, T: set<nat>, a: nat, S: set<nat>, E': set<nat>)
    ensures Challenges(f, T, a, S, E') ==> !(E' <= S)
  {}

  lemma ChallengeHasModel(f: Graph, T: set<nat>, a: nat, S: set<nat>, E': set<nat>) returns (m: Assignment)
    requires Challenges(f, T, a, S, E') && T <= Args(f) && a < Size(f)
    ensures PairModel(f, m)
    ensures Holds(m, Pick(Size(f), Args(f) - S, 0, false))
    ensures AllTrue(m, Pick(Size(f), T + {a}, 2 * Size(f), false))
  {
    var V :| AttackingPair(f, E', V) && T <= V && a in V;
    m := AttackingPairHasModel(f, E', V);
    InIsInAt(f, m);
    PickOutside(f, m, S);
    AssumedInCopy(f, m, T + {a});
  }

  /** Query for E'', on the solver shared by all tests. */
  method FindAnswer(af: AF, solver3: Solver, accepted: seq<bool>, a: nat, model: seq<bool>)
      returns (sat: bool, extension: seq<nat>)
    requires af.Ready() && |accepted| == |model| == af.args && a < af.args
    requires solver3.assumptions == [] && solver3.decisionVars == af.args
    requires forall m :: Models(m, solver3.clauses) <==> AdmissibleModel(af.Graph(), m, 0)
    modifies solver3, solver3.tally
    ensures solver3.tally.calls == old(solver3.tally.calls) + 1
    ensures solver3.assumptions == [] && solver3.clauses == old(solver3.clauses)
    ensures var f, T, E' := af.Graph(), Trues(accepted), Trues(model);
            && (sat ==> Answers(f, T, a, E', Elements(extension)))
            && (sat ==> E' <= Elements(extension) <= Args(f))
            && (!sat ==> forall E'' :: !Answers(f, T, a, E', E''))
  {
    ghost var f, T, E', X := af.Graph(), Trues(accepted), Trues(model), Trues(model) + Trues(accepted) + {a};
    for i := 0 to af.args
      invariant solver3.assumptions == Pick(i, X, 0, false) && solver3.clauses == old(solver3.clauses)
      invariant solver3.tally.calls == old(solver3.tally.calls)
    {
      if a == i || model[i] || accepted[i] {
        solver3.Assume(af.acceptedVar[i]);
      }
    }
    forall E'' | Answers(f, T, a, E', E'') ensures Satisfiable(solver3.clauses, solver3.assumptions) {
      AdmissibleModelsAre(f, E'', 0);
      var m :| AdmissibleModel(f, m, 0) && InAt(f, m, 0) == E'';
      InIsInAt(f, m);
      AssumedAre(m, Size(f), X);
    }
    sat := solver3.Solve();
    extension := solver3.extension;
    if sat {
      ghost var m := solver3.found;
      AssumedAre(m, Size(f), X);
      AdmissibleModelIsGrounding(f, m, 0);
      InIsInAt(f, m);
      assert Elements(extension) == In(m, Size(f));
    }
  }

  // ----- The candidates -----

  /** Drop from the candidates what the extension attacks, and count along. */
  method RemoveAttacked(af: AF, extension: seq<nat>, candidate: seq<bool>, numCandidates: int)
      returns (candidate': seq<bool>, numCandidates': int)
    requires af.Ready() && |candidate| == af.args && numCandidates == |Trues(candidate)|
    requires forall i | i in extension :: i < af.args
    ensures |candidate'| == af.args && numCandidates' == |Trues(candidate')|
    ensures Trues(candidate') == Trues(candidate) - Range(af.Graph(), Elements(extension))
  {
    ghost var f := af.Graph();
    candidate', numCandidates' := candidate, numCandidates;
    for x := 0 to |extension|
      invariant |candidate'| == af.args && numCandidates' == |Trues(candidate')|
      invariant Trues(candidate') == Trues(candidate) - Range(f, Elements(extension[..x]))
    {
      assert extension[x] in extension;
      candidate', numCandidates' := DropTargets(af.attacked[extension[x]], candidate', numCandidates');
      RangeOfOne(af, extension[x]);
      RangeStep(f, extension, x);
    }
    assert extension[..|extension|] == extension;
  }

  lemma RangeStep(f: Graph, extension: seq<nat>, x: nat)
    requires x < |extension|
    ensures Range(f, Elements(extension[..x + 1])) == Range(f, Elements(extension[..x])) + Range(f, {extension[x]})
  {
    assert Elements(extension[..x + 1]) == Elements(extension[..x]) + {extension[x]};
    forall b ensures Hits(f, Elements(extension[..x + 1]), b) <==>
                     Hits(f, Elements(extension[..x]), b) || Hits(f, {extension[x]}, b)
    {
      assert extension[x] in {extension[x]};
    }
  }

  lemma RangeOfOne(af: AF, i: nat)
    requires af.Ready() && i < af.args
    ensures Range(af.Graph(), {i}) == Elements(af.attacked[i])
  {
    forall t ensures t in Range(af.Graph(), {i}) <==> t in af.attacked[i] {
      assert i in {i};
      assert 0 <= t < af.args ==> (t in af.attacked[i] <==> i in af.attackers[t]);
    }
  }

  lemma ClearBit(bits: seq<bool>, t: nat)
    requires t < |bits|
    ensures Trues(bits[t := false]) == Trues(bits) - {t} && (bits[t] <==> t in Trues(bits))
  {}

  method DropTargets(targets: seq<nat>, candidate: seq<bool>, numCandidates: int)
      returns (candidate': seq<bool>, numCandidates': int)
    requires numCandidates == |Trues(candidate)|
    requires forall t | t in targets :: t < |candidate|
    ensures |candidate'| == |candidate| && numCandidates' == |Trues(candidate')|
    ensures Trues(candidate') == Trues(candidate) - Elements(targets)
  {
    hide Trues;
    candidate', numCandidates' := candidate, numCandidates;
    for j := 0 to |targets|
      invariant |candidate'| == |candidate| && numCandidates' == |Trues(candidate')|
      invariant Trues(candidate') == Trues(candidate) - Elements(targets[..j])
    {
      var t := targets[j];
      assert t in targets;
      assert targets[..j + 1] == targets[..j] + [t];
      AppendKeeps(targets[..j], t);
      ClearBit(candidate', t);
      if candidate'[t] {
        candidate' := candidate'[t := false];
        numCandidates' := numCandidates' - 1;
      }
    }
    assert targets[..|targets|] == targets;
  }

  // ----- The search -----

  /** What the bit vectors, the counter and the shared solver say about the abstract state. */
  ghost predicate Mirrors(f: Graph, s: State, result: seq<nat>, accepted: seq<bool>, candidate: seq<bool>,
                          numCandidates: int)
  {
    && |accepted| == |candidate| == Size(f)
    && result == s.T
    && Trues(accepted) == Elements(s.T)
    && Trues(candidate) == s.C
    && numCandidates == |s.C|
  }

  ghost predicate Shared(f: Graph, solver3: Solver)
    reads solver3
  {
    && solver3.assumptions == [] && solver3.decisionVars == Size(f)
    && forall m :: Models(m, solver3.clauses) <==> AdmissibleModel(f, m, 0)
  }

  ghost function Rejected(f: Graph, s: State, E': set<nat>): State
    requires s.phase.Inner?
  {
    s.(C := s.C - Range(f, E') - {s.phase.a}, phase := Scan(s.phase.E, s.phase.todo))
  }

  ghost function Merged(f: Graph, s: State, E': set<nat>, E'': set<nat>): State
    requires s.phase.Inner?
  {
    s.(C := s.C - Range(f, E') - Range(f, E''),
       phase := s.phase.(S := s.phase.S + E'', rounds := s.phase.rounds + 1))
  }

  ghost function Accepted(s: State): State
    requires s.phase.Inner?
  {
    s.(T := s.T + [s.phase.a], C := s.C - {s.phase.a}, phase := Scan(s.phase.E, s.phase.todo))
  }

  lemma AcceptRun(f: Graph, run: seq<State>, T: set<nat>, a: nat, S: set<nat>)
    requires IsRun(f, run) && Last(run).phase.Inner?
    requires T == Elements(Last(run).T) && a == Last(run).phase.a && S == Last(run).phase.S
    ensures (forall E' :: !Challenges(f, T, a, S, E')) ==> IsRun(f, run + [Accepted(Last(run))])
  {
    if forall E' :: !Challenges(f, T, a, S, E') {
      assert AcceptStep(f, Last(run), Accepted(Last(run)));
      RunGrows(f, run, Accepted(Last(run)));
    }
  }

  lemma RejectRun(f: Graph, run: seq<State>, T: set<nat>, a: nat, S: set<nat>, E': set<nat>)
    requires IsRun(f, run) && Last(run).phase.Inner?
    requires T == Elements(Last(run).T) && a == Last(run).phase.a && S == Last(run).phase.S
    ensures Challenges(f, T, a, S, E') && (forall E'' :: !Answers(f, T, a, E', E''))
            ==> IsRun(f, run + [Rejected(f, Last(run), E')])
  {
    if Challenges(f, T, a, S, E') && forall E'' :: !Answers(f, T, a, E', E'') {
      assert RejectWith(f, Last(run), Rejected(f, Last(run), E'), E');
      RunGrows(f, run, Rejected(f, Last(run), E'));
    }
  }

  lemma MergeRun(f: Graph, run: seq<State>, T: set<nat>, a: nat, S: set<nat>, E': set<nat>, E'': set<nat>)
    requires IsRun(f, run) && Last(run).phase.Inner?
    requires T == Elements(Last(run).T) && a == Last(run).phase.a && S == Last(run).phase.S
    ensures Challenges(f, T, a, S, E') && Answers(f, T, a, E', E'')
            ==> IsRun(f, run + [Merged(f, Last(run), E', E'')])
  {
    if Challenges(f, T, a, S, E') && Answers(f, T, a, E', E'') {
      assert MergeWith(f, Last(run), Merged(f, Last(run), E', E''), E', E'');
      RunGrows(f, run, Merged(f, Last(run), E', E''));
    }
  }

  /** `a` is among the candidates while it is under test. */
  lemma UnderTestIsCandidate(f: Graph, run: seq<State>)
    requires IsRun(f, run) && Last(run).phase.Inner?
    ensures Last(run).phase.a in Last(run).C
  {
    RunInv(f, run, |run| - 1);
  }

  method Accept(a: nat, result: seq<nat>, accepted: seq<bool>, candidate: seq<bool>, numCandidates: int)
      returns (result': seq<nat>, accepted': seq<bool>, candidate': seq<bool>, numCandidates': int)
    requires a < |accepted| == |candidate| && candidate[a]
    requires Trues(accepted) == Elements(result) && numCandidates == |Trues(candidate)|
    ensures |accepted'| == |candidate'| == |accepted| && result' == result + [a]
    ensures Trues(accepted') == Elements(result') && Trues(candidate') == Trues(candidate) - {a}
    ensures numCandidates' == |Trues(candidate')|
  {
    accepted' := accepted[a := true];
    result' := result + [a];
    candidate' := candidate[a := false];
    numCandidates' := numCandidates - 1;
    AppendKeeps(result, a);
    assert Trues(accepted') == Trues(accepted) + {a};
    assert Trues(candidate') == Trues(candidate) - {a};
  }

  method Drop(a: nat, candidate: seq<bool>, numCandidates: int) returns (candidate': seq<bool>, numCandidates': int)
    requires a < |candidate| && numCandidates == |Trues(candidate)|
    ensures |candidate'| == |candidate| && Trues(candidate') == Trues(candidate) - {a}
    ensures numCandidates' == |Trues(candidate')|
  {
    candidate', numCandidates' := candidate, numCandidates;
    if candidate[a] {
      candidate' := candidate[a := false];
      numCandidates' := numCandidates - 1;
    }
    assert Trues(candidate') == Trues(candidate) - {a};
  }

  ghost function Responded(f: Graph, s: State, E': set<nat>, answered: bool, E'': set<nat>): State
    requires s.phase.Inner?
  {
    if answered then Merged(f, s, E', E'') else Rejected(f, s, E')
  }

  /** The answer decides: drop `a`, or drop what E'' attacks. */
  method Conclude(af: AF, a: nat, accepted: seq<bool>, candidate: seq<bool>, numCandidates: int,
                  ghost E': set<nat>, answered: bool, extension'': seq<nat>, ghost s: State)
      returns (candidate': seq<bool>, numCandidates': int)
    requires af.Ready() && s.phase.Inner? && s.phase.a == a < af.args
    requires |accepted| == |candidate| == af.args && Trues(accepted) == Elements(s.T)
    requires Trues(candidate) == s.C - Range(af.Graph(), E') && numCandidates == |Trues(candidate)|
    requires answered ==> Elements(extension'') <= Args(af.Graph())
    ensures Mirrors(af.Graph(), Responded(af.Graph(), s, E', answered, Elements(extension'')), s.T,
                    accepted, candidate', numCandidates')
    ensures Trues(candidate') <= Trues(candidate) && (!answered ==> a !in Trues(candidate'))
  {
    if !answered {
      candidate', numCandidates' := Drop(a, candidate, numCandidates);
    } else {
      assert forall i :: i in extension'' <==> i in Elements(extension'');
      candidate', numCandidates' := RemoveAttacked(af, extension'', candidate, numCandidates);
    }
  }

  /** E' was found: drop what it attacks, ask for E'', and either drop `a` or what E'' attacks. */
  method Respond(af: AF, solver3: Solver, a: nat, accepted: seq<bool>, candidate: seq<bool>, numCandidates: int,
                 model: seq<bool>, extension: seq<nat>, ghost run: seq<State>)
      returns (answered: bool, extension'': seq<nat>, candidate': seq<bool>, numCandidates': int,
               ghost run': seq<State>)
    requires af.Ready() && Shared(af.Graph(), solver3) && |model| == af.args
    requires IsRun(af.Graph(), run) && Last(run).phase.Inner? && Last(run).phase.a == a < af.args
    requires Mirrors(af.Graph(), Last(run), Last(run).T, accepted, candidate, numCandidates)
    requires Elements(extension) == Trues(model)
    requires Challenges(af.Graph(), Trues(accepted), a, Last(run).phase.S, Trues(model))
    modifies solver3, solver3.tally
    ensures solver3.tally.calls + 1 + Queries(run) == old(solver3.tally.calls) + Queries(run')
    ensures Shared(af.Graph(), solver3)
    ensures IsRun(af.Graph(), run')
    ensures Last(run') == Responded(af.Graph(), Last(run), Trues(model), answered, Elements(extension''))
    ensures Mirrors(af.Graph(), Last(run'), Last(run).T, accepted, candidate', numCandidates')
    ensures Trues(candidate') <= Trues(candidate) && (!answered ==> a !in Trues(candidate'))
    ensures answered ==> Trues(model) <= Elements(extension'') <= Args(af.Graph())
  {
    hide Challenges, Answers, AdmissibleModel, StepAt, Queries, Range;
    ghost var f, s, E' := af.Graph(), Last(run), Trues(model);
    assert forall i :: i in extension <==> i in Elements(extension);
    candidate', numCandidates' := RemoveAttacked(af, extension, candidate, numCandidates);
    answered, extension'' := FindAnswer(af, solver3, accepted, a, model);
    assert af.Ready() && af.Graph() == f;
    RejectRun(f, run, Trues(accepted), a, s.phase.S, E');
    MergeRun(f, run, Trues(accepted), a, s.phase.S, E', Elements(extension''));
    QueriesNext(run, Responded(f, s, E', answered, Elements(extension'')));
    assert StepQueries(s, Responded(f, s, E', answered, Elements(extension''))) == 2;
    run' := run + [Responded(f, s, E', answered, Elements(extension''))];
    candidate', numCandidates' :=
      Conclude(af, a, accepted, candidate', numCandidates', E', answered, extension'', s);
  }

  /** The innermost loop: put `a` under test until it is accepted or dropped. */
  method TestArgument(af: AF, solver3: Solver, a: nat, result: seq<nat>, accepted: seq<bool>, candidate: seq<bool>,
                      numCandidates: int, ghost run: seq<State>)
      returns (result': seq<nat>, accepted': seq<bool>, candidate': seq<bool>, numCandidates': int,
               ghost run': seq<State>)
    requires af.Ready() && Shared(af.Graph(), solver3)
    requires IsRun(af.Graph(), run) && Last(run).phase.Inner?
    requires Last(run).phase.a == a < af.args && Last(run).phase.S == {}
    requires Mirrors(af.Graph(), Last(run), result, accepted, candidate, numCandidates)
    modifies solver3, solver3.tally
    ensures solver3.tally.calls + Queries(run) == old(solver3.tally.calls) + Queries(run')
    ensures Shared(af.Graph(), solver3)
    ensures IsRun(af.Graph(), run')
    ensures Last(run').phase == Scan(Last(run).phase.E, Last(run).phase.todo)
    ensures Mirrors(af.Graph(), Last(run'), result', accepted', candidate', numCandidates')
    ensures Trues(candidate') <= Trues(candidate) - {a}
  {
    hide Challenges, AdmissibleModel, StepAt, Queries, Range;
    ghost var f, E, todo := af.Graph(), Last(run).phase.E, Last(run).phase.todo;
    result', accepted', candidate', numCandidates', run' := result, accepted, candidate, numCandidates, run;
    var included := seq(af.args, i => false);
    while true
      invariant Shared(f, solver3) && IsRun(f, run') && |included| == af.args
      invariant solver3.tally.calls + Queries(run) == old(solver3.tally.calls) + Queries(run')
      invariant var s := Last(run');
                s.phase.Inner? && s.phase == Inner(E, todo, a, Trues(included), s.phase.rounds)
      invariant Mirrors(f, Last(run'), result, accepted, candidate', numCandidates')
      invariant Trues(candidate') <= Trues(candidate)
      decreases Args(f) - Trues(included)
    {
      ghost var s := Last(run');
      UnderTestIsCandidate(f, run');
      var sat, model, extension := FindChallenge(af, accepted, a, included, solver3.tally);
      if !sat {
        result', accepted', candidate', numCandidates' := Accept(a, result, accepted, candidate', numCandidates');
        AcceptRun(f, run', Trues(accepted), a, Trues(included));
        QueriesNext(run', Accepted(s));
        run' := run' + [Accepted(s)];
        break;
      }
      var answered, extension'';
      answered, extension'', candidate', numCandidates', run' :=
        Respond(af, solver3, a, accepted, candidate', numCandidates', model, extension, run');
      if !answered {
        break;
      }
      assert forall i :: i in extension'' <==> i in Elements(extension'');
      included := Merge(included, extension'');
    }
  }

  method Merge(included: seq<bool>, extension: seq<nat>) returns (included': seq<bool>)
    requires forall i | i in extension :: i < |included|
    ensures |included'| == |included| && Trues(included') == Trues(included) + Elements(extension)
  {
    included' := included;
    for x := 0 to |extension|
      invariant |included'| == |included|
      invariant Trues(included') == Trues(included) + Elements(extension[..x])
    {
      var i := extension[x];
      assert i in extension;
      assert extension[..x + 1] == extension[..x] + [i];
      AppendKeeps(extension[..x], i);
      if !included'[i] {
        assert Trues(included'[i := true]) == Trues(included') + {i};
        included' := included'[i := true];
      }
    }
    assert extension[..|extension|] == extension;
  }

  /** The scan of one E: every member that is still a candidate is put under test. */
  method ScanExtension(af: AF, solver3: Solver, extension: seq<nat>, result: seq<nat>, accepted: seq<bool>,
                       candidate: seq<bool>, numCandidates: int, ghost run: seq<State>)
      returns (result': seq<nat>, accepted': seq<bool>, candidate': seq<bool>, numCandidates': int,
               ghost run': seq<State>)
    requires af.Ready() && Shared(af.Graph(), solver3)
    requires IsRun(af.Graph(), run) && Last(run).phase == Scan(Elements(extension), extension)
    requires Mirrors(af.Graph(), Last(run), result, accepted, candidate, numCandidates)
    modifies solver3, solver3.tally
    ensures solver3.tally.calls + Queries(run) == old(solver3.tally.calls) + Queries(run')
    ensures Shared(af.Graph(), solver3)
    ensures IsRun(af.Graph(), run') && Last(run').phase == Outer
    ensures Mirrors(af.Graph(), Last(run'), result', accepted', candidate', numCandidates')
    ensures Trues(candidate') <= Trues(candidate) - Elements(extension)
  {
    ghost var f, E := af.Graph(), Elements(extension);
    result', accepted', candidate', numCandidates', run' := result, accepted, candidate, numCandidates, run;
    assert extension[0..] == extension;
    for x := 0 to |extension|
      invariant Shared(f, solver3) && IsRun(f, run')
      invariant solver3.tally.calls + Queries(run) == old(solver3.tally.calls) + Queries(run')
      invariant Last(run').phase == Scan(E, extension[x..])
      invariant Mirrors(f, Last(run'), result', accepted', candidate', numCandidates')
      invariant Trues(candidate') <= Trues(candidate) - Elements(extension[..x])
    {
      ghost var s := Last(run');
      var a := extension[x];
      ScannedIsArgument(f, run', a);
      assert extension[..x + 1] == extension[..x] + [a];
      AppendKeeps(extension[..x], a);
      ghost var s' := Scanned(s);
      ScanRun(f, run', s');
      QueriesNext(run', s');
      run' := run' + [s'];
      if !candidate'[a] {
        continue;
      }
      result', accepted', candidate', numCandidates', run' :=
        TestArgument(af, solver3, a, result', accepted', candidate', numCandidates', run');
    }
    assert extension[..|extension|] == extension && extension[|extension|..] == [];
    ghost var s' := Scanned(Last(run'));
    ScanRun(f, run', s');
    QueriesNext(run', s');
    run' := run' + [s'];
  }

  ghost function Scanned(s: State): State
    requires s.phase.Scan?
  {
    var Scan(E, todo) := s.phase;
    if todo == [] then s.(phase := Outer)
    else if todo[0] !in s.C then s.(phase := Scan(E, todo[1..]))
    else s.(phase := Inner(E, todo[1..], todo[0], {}, 0), tried := s.tried + [todo[0]])
  }

  lemma ScanRun(f: Graph, run: seq<State>, s': State)
    requires IsRun(f, run) && Last(run).phase.Scan? && s' == Scanned(Last(run))
    ensures IsRun(f, run + [s'])
  {
    assert ScanStep(f, Last(run), s');
    RunGrows(f, run, s');
  }

  lemma ScannedIsArgument(f: Graph, run: seq<State>, a: nat)
    requires IsRun(f, run) && Last(run).phase.Scan?
    requires Last(run).phase.todo != [] && a == Last(run).phase.todo[0]
    ensures a < Size(f)
  {
    RunInv(f, run, |run| - 1);
    assert a in Elements(Last(run).phase.todo);
  }

  ghost function Started(f: Graph, s: State, extension: seq<nat>): State {
    State(s.T, s.C - Range(f, Elements(extension)), Scan(Elements(extension), extension), s.calls + 1, s.tried)
  }

  lemma StartRun(f: Graph, run: seq<State>, T: set<nat>, C: set<nat>, extension: seq<nat>)
    requires IsRun(f, run) && Last(run).phase.Outer? && T == Elements(Last(run).T) && C == Last(run).C
    ensures C != {} && Increasing(extension) && MeetsCandidates(f, T, C, Elements(extension))
            ==> IsRun(f, run + [Started(f, Last(run), extension)])
  {
    if C != {} && Increasing(extension) && MeetsCandidates(f, T, C, Elements(extension)) {
      assert StartStep(f, Last(run), Started(f, Last(run), extension));
      RunGrows(f, run, Started(f, Last(run), extension));
    }
  }

  ghost function Stopped(s: State): State {
    if s.C == {} then s.(phase := Done) else s.(phase := Done, calls := s.calls + 1)
  }

  lemma StopRun(f: Graph, run: seq<State>, T: set<nat>, C: set<nat>)
    requires IsRun(f, run) && Last(run).phase.Outer? && T == Elements(Last(run).T) && C == Last(run).C
    ensures C == {} || (forall E :: !MeetsCandidates(f, T, C, E)) ==> IsRun(f, run + [Stopped(Last(run))])
  {
    if C == {} || forall E :: !MeetsCandidates(f, T, C, E) {
      assert StopStep(f, Last(run), Stopped(Last(run)));
      RunGrows(f, run, Stopped(Last(run)));
    }
  }

  lemma FinishedRun(f: Graph, run: seq<State>)
    requires IsRun(f, run) && Last(run).phase.Done?
    ensures var result := Last(run).T;
            && Distinct(result) && Elements(result) <= Args(f)
            && (Elements(result) == Skep(f) <==> AllJustified(f, run))
            && (Elements(result) == Skep(f) <==> Elements(result) <= Skep(f))
            && (Robust(f) ==> Elements(result) == Skep(f))
  {
    hide Robust, Skep;
    RunInv(f, run, |run| - 1);
    ExactIffJustified(f, run);
    if Robust(f) {
      RobustIsExact(f, run);
    }
    SoundRunsAreComplete(f, run);
  }

  /** One round of the outermost loop: stop, or find E, drop what it attacks, and scan it. */
  method SearchRound(af: AF, solver3: Solver, result: seq<nat>, accepted: seq<bool>, candidate: seq<bool>,
                     numCandidates: int, ghost run: seq<State>)
      returns (done: bool, result': seq<nat>, accepted': seq<bool>, candidate': seq<bool>, numCandidates': int,
               ghost run': seq<State>)
    requires af.Ready() && Shared(af.Graph(), solver3)
    requires IsRun(af.Graph(), run) && Last(run).phase == Outer
    requires Mirrors(af.Graph(), Last(run), result, accepted, candidate, numCandidates)
    modifies solver3, solver3.tally
    ensures solver3.tally.calls + Queries(run) == old(solver3.tally.calls) + Queries(run')
    ensures Shared(af.Graph(), solver3) && IsRun(af.Graph(), run')
    ensures Last(run').phase == if done then Done else Outer
    ensures Mirrors(af.Graph(), Last(run'), result', accepted', candidate', numCandidates')
    ensures !done ==> Trues(candidate') < Trues(candidate)
  {
    hide Queries, AdmissibleModel;
    ghost var f, s, C := af.Graph(), Last(run), Trues(candidate);
    done, result', accepted', candidate', numCandidates', run' :=
      true, result, accepted, candidate, numCandidates, run;
    if numCandidates == 0 {
      assert s.C == {};
      StopRun(f, run, Trues(accepted), C);
      QueriesNext(run, Stopped(s));
      run' := run + [Stopped(s)];
      return;
    }
    var sat, extension := FindMeeting(af, accepted, candidate, solver3.tally);
    if !sat {
      assert af.Graph() == f;
      StopRun(f, run, Trues(accepted), C);
      QueriesNext(run, Stopped(s));
      run' := run + [Stopped(s)];
      return;
    }
    done := false;
    assert forall i :: i in extension <==> i in Elements(extension);
    candidate', numCandidates' := RemoveAttacked(af, extension, candidate, numCandidates);
    StartRun(f, run, Trues(accepted), C, extension);
    QueriesNext(run, Started(f, s, extension));
    run' := run + [Started(f, s, extension)];
    result', accepted', candidate', numCandidates', run' :=
      ScanExtension(af, solver3, extension, result, accepted, candidate', numCandidates', run');
    assert Trues(candidate') < C by {
      ghost var y :| y in Elements(extension) * C;
      assert y !in Trues(candidate');
    }
  }

  /** The whole search.  `run` is the run of the transition system it went through, so all
      that is proved of runs holds of `result`; the solvers are asked just what it records. */
  method FudgeSkep(af: AF, ghost tally: Tally) returns (result: seq<nat>, ghost run: seq<State>)
    requires af.Ready()
    modifies tally
    ensures tally.calls == old(tally.calls) + Queries(run)
    ensures tally.calls <= old(tally.calls) + af.args + af.args * (2 * af.args + 2)
    ensures IsRun(af.Graph(), run) && Last(run).phase.Done? && Last(run).T == result
    ensures Distinct(result) && Elements(result) <= Args(af.Graph())
    ensures Elements(result) == Skep(af.Graph()) <==> AllJustified(af.Graph(), run)
    ensures Elements(result) == Skep(af.Graph()) <==> Elements(result) <= Skep(af.Graph())
    ensures Robust(af.Graph()) ==> Elements(result) == Skep(af.Graph())
  {
    hide Queries, AdmissibleModel, StepAt;
    ghost var f := af.Graph();
    result := [];
    var accepted, candidate := seq(af.args, i => false), seq(af.args, i => true);
    var numCandidates: int := af.args;
    var solver3 := new Solver(af.args, tally);
    AddAdmissible(af, solver3, false);
    run := [Init(f)];
    QueriesFirst(Init(f));
    SizeOfArgs(f);
    assert Trues(candidate) == Args(f);
    var done := false;
    while !done
      invariant Shared(f, solver3) && solver3.tally == tally && fresh(solver3)
      invariant IsRun(f, run) && Last(run).phase == if done then Done else Outer
      invariant tally.calls == old(tally.calls) + Queries(run)
      invariant Mirrors(f, Last(run), result, accepted, candidate, numCandidates)
      decreases !done, Trues(candidate)
    {
      done, result, accepted, candidate, numCandidates, run :=
        SearchRound(af, solver3, result, accepted, candidate, numCandidates, run);
    }
    FinishedRun(f, run);
    RunQueries(f, run);
  }
}
