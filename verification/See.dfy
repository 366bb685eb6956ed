/** Acceptance by asking each round for something new: an argument not yet seen accepted,
    or a stable extension that lacks an argument still shared. */
module See {
  import opened Sat
  import opened SatSolver
  import opened Frameworks
  import opened ArgumentationFramework
  import opened Encodings
  import opened Correspondence
  import opened Search

  /** One pass over a model: list the arguments first accepted now, and ask for the rest. */
  method Visit(af: AF, model: seq<bool>, unvisited: seq<bool>, result: seq<nat>)
      returns (unvisited': seq<bool>, result': seq<nat>, unvisitedClause: seq<Lit>)
    requires af.Ready() && |model| == |unvisited| == af.args
    requires Distinct(result) && Elements(result) == Args(af.Graph()) - Trues(unvisited)
    ensures |unvisited'| == af.args && Trues(unvisited') == Trues(unvisited) - Trues(model)
    ensures Distinct(result') && Elements(result') == Args(af.Graph()) - Trues(unvisited')
    ensures |result'| >= |result|
    ensures (exists i :: i in Trues(unvisited) && i in Trues(model)) ==> |result'| > |result|
    ensures unvisitedClause == Pick(af.args, Trues(unvisited'), 0, false)
  {
    ghost var f := af.Graph();
    unvisited', result', unvisitedClause := unvisited, result, [];
    for i := 0 to af.args
      invariant |unvisited'| == af.args
      invariant forall k | 0 <= k < i :: unvisited'[k] <==> unvisited[k] && !model[k]
      invariant forall k | i <= k < af.args :: unvisited'[k] == unvisited[k]
      invariant Distinct(result') && Elements(result') == Args(f) - Trues(unvisited')
      invariant |result'| >= |result|
      invariant (exists k :: k in Trues(unvisited) && k in Trues(model) && k < i) ==> |result'| > |result|
      invariant unvisitedClause == Pick(i, Trues(unvisited) - Trues(model), 0, false)
    {
      if unvisited'[i] {
        if model[i] {
          assert i !in Elements(result');
          AppendNew(result', i);
          assert Trues(unvisited'[i := false]) == Trues(unvisited') - {i};
          unvisited' := unvisited'[i := false];
          result' := result' + [i];
        } else {
          unvisitedClause := unvisitedClause + [af.acceptedVar[i]];
        }
      }
    }
    assert Trues(unvisited') == Trues(unvisited) - Trues(model);
  }

  method SeeCred(af: AF, sem: Semantics, ghost tally: Tally) returns (r: Answer)
    requires af.Ready()
    modifies tally
    ensures r.Unsupported? <==> sem == UNKNOWN_SEM
    ensures r.Listed? ==> Distinct(r.args) && Elements(r.args) == CredulousSet(af.Graph(), sem)
    ensures r.Listed? ==> tally.calls <= old(tally.calls) + |r.args| + 2
  {
    if sem == UNKNOWN_SEM {
      return Unsupported;
    }
    ghost var f, perf := af.Graph(), af.perfEnc;
    var result: seq<nat> := [];
    var unvisited := seq(af.args, i => true);
    var solver := new Solver(af.args, tally);
    Encode(af, solver, sem);
    ghost var asked := false;
    while true
      invariant solver.assumptions == [] && solver.decisionVars == |unvisited| == af.args
      invariant forall m :: Models(m, solver.clauses) <==>
                            && BaseModel(f, perf, sem, m)
                            && (asked ==> exists i :: i in Trues(unvisited) && i in In(m, Size(f)))
      invariant Distinct(result) && Elements(result) == Args(f) - Trues(unvisited)
      invariant Elements(result) <= CredulousSet(f, sem)
      invariant tally.calls <= old(tally.calls) + |result| + if asked then 1 else 0
      decreases !asked, Trues(unvisited)
    {
      var sat := solver.Solve();
      if !sat {
        break;
      }
      ghost var M, before := Trues(solver.model), Trues(unvisited);
      AcceptedAreCredulous(f, perf, sem, solver.found);
      var unvisitedClause;
      unvisited, result, unvisitedClause := Visit(af, solver.model, unvisited, result);
      solver.AddClause(unvisitedClause);
      forall m
        ensures Holds(m, unvisitedClause) <==> exists i :: i in Trues(unvisited) && i in In(m, Size(f))
      {
        PickMeets(m, Size(f), Trues(unvisited));
      }
      asked := true;
    }
    forall a | a in CredulousSet(f, sem) ensures a in Elements(result) {
      CredulousByModel(f, perf, sem, a);
      var m :| BaseModel(f, perf, sem, m) && a in In(m, Size(f));
      assert AllTrue(m, []);
    }
    r := Listed(result);
  }

  /** One pass over a model: drop what it does not accept, and ask for a rejection of the rest. */
  method Narrow(af: AF, model: seq<bool>, included: seq<bool>)
      returns (included': seq<bool>, complementClause: seq<Lit>)
    requires af.Ready() && |model| == |included| == af.args
    ensures |included'| == af.args && Trues(included') == Trues(included) * Trues(model)
    ensures complementClause == Pick(af.args, Trues(included'), af.args, false)
  {
    included', complementClause := included, [];
    for i := 0 to af.args
      invariant |included'| == af.args
      invariant forall k | 0 <= k < i :: included'[k] <==> included[k] && model[k]
      invariant forall k | i <= k < af.args :: included'[k] == included[k]
      invariant complementClause == Pick(i, Trues(included) * Trues(model), af.args, false)
    {
      included' := included'[i := included'[i] && model[i]];
      if included'[i] {
        complementClause := complementClause + [af.rejectedVar[i]];
      }
    }
    assert Trues(included') == Trues(included) * Trues(model);
  }

  method SeeSkep(af: AF, sem: Semantics, ghost tally: Tally) returns (r: Answer)
    requires af.Ready()
    modifies tally
    ensures r.Unsupported? <==> sem != ST
    ensures r.Listed? ==> Increasing(r.args) && Elements(r.args) == SkepticalSet(af.Graph(), sem)
    ensures r.Listed? ==> tally.calls <= old(tally.calls) + af.args + 2
  {
    if sem != ST {
      return Unsupported;
    }
    ghost var f := af.Graph();
    var included := seq(af.args, i => true);
    var solver := new Solver(af.args, tally);
    AddStable(af, solver);
    ghost var asked := false;
    SizeOfArgs(f);
    assert Trues(included) == Args(f);
    while true
      invariant solver.assumptions == [] && solver.decisionVars == |included| == af.args
      invariant forall m :: Models(m, solver.clauses) <==>
                            StableModel(f, m) && (asked ==> !(Trues(included) <= In(m, Size(f))))
      invariant !asked ==> Trues(included) == Args(f)
      invariant AllDroppedFail(f, Trues(included))
      invariant tally.calls + |Trues(included)| <= old(tally.calls) + af.args + if asked then 1 else 0
      decreases !asked, Trues(included)
    {
      var sat := solver.Solve();
      if !sat {
        break;
      }
      ghost var M, before := Trues(solver.model), Trues(included);
      StableModelIsStable(f, solver.found);
      var complementClause;
      included, complementClause := Narrow(af, solver.model, included);
      solver.AddClause(complementClause);
      forall m | StableModel(f, m)
        ensures Holds(m, complementClause) <==> !(Trues(included) <= In(m, Size(f)))
      {
        AsksForRejection(f, m, Trues(included));
      }
      SubsetSize(Trues(included), before);
      DroppedAreNotSkeptical(f, M, before, Trues(included));
      asked := true;
    }
    NothingLeftToReject(f, solver.clauses, Trues(included), asked);
    var result := Indices(included);
    r := Listed(result);
  }

  lemma AsksForRejection(f: Graph, m: Assignment, I: set<nat>)
    requires StableModel(f, m) && I <= Args(f)
    ensures Holds(m, Pick(Size(f), I, Size(f), false)) <==> !(I <= In(m, Size(f)))
  {
    PickHolds(m, Size(f), I, Size(f), false);
    StableModelIsStable(f, m);
    assert forall i: nat :: Acc(m, Size(f), i) <==> Rej(f, m, 0, i);
  }

  lemma NothingLeftToReject(f: Graph, clauses: seq<Clause>, I: set<nat>, asked: bool)
    requires forall m :: Models(m, clauses) <==> StableModel(f, m) && (asked ==> !(I <= In(m, Size(f))))
    requires !Satisfiable(clauses, []) && AllDroppedFail(f, I)
    requires I <= Args(f) && (!asked ==> I == Args(f))
    ensures I == SkepticalSet(f, ST)
  {
    forall S | Stable(f, S) ensures I <= S {
      var m := StableHasModel(f, S);
      assert AllTrue(m, []);
    }
    SharedIsSkeptical(f, I);
  }
}
