/** One query for each argument: credulous acceptance by assuming it, skeptical
    acceptance under stable semantics by assuming its negation, and under preferred
    semantics by growing counterexamples until one is preferred. */
module Iaq {
  import opened Sat
  import opened SatSolver
  import opened Frameworks
  import opened ArgumentationFramework
  import opened Encodings
  import opened Correspondence
  import opened Search

  method IaqCred(af: AF, sem: Semantics, ghost tally: Tally) returns (r: Answer)
    requires af.Ready()
    modifies tally
    ensures r.Listed? ==> tally.calls == old(tally.calls) + af.args
    ensures r.Unsupported? <==> sem == UNKNOWN_SEM
    ensures r.Listed? ==> Increasing(r.args) && Elements(r.args) == CredulousSet(af.Graph(), sem)
  {
    if sem == UNKNOWN_SEM {
      return Unsupported;
    }
    ghost var f := af.Graph();
    var result: seq<nat> := [];
    var solver := new Solver(af.args, tally);
    Encode(af, solver, sem);
    for i := 0 to af.args
      invariant solver.assumptions == [] && tally.calls == old(tally.calls) + i
      invariant forall m :: Models(m, solver.clauses) <==> BaseModel(f, af.perfEnc, sem, m)
      invariant Increasing(result) && forall x | x in result :: x < i
      invariant forall x: nat :: x in result <==> x < i && Credulous(f, sem, x)
    {
      solver.Assume(af.acceptedVar[i]);
      CredulousByModel(f, af.perfEnc, sem, i);
      ghost var query := solver.assumptions;
      assert forall m :: AllTrue(m, query) <==> i in In(m, Size(f)) by {
        assert forall m :: AllTrue(m, query) <==> Chosen(m, i);
      }
      var sat := solver.Solve();
      if sat {
        IncreasingAppend(result, i);
        result := result + [i];
      }
    }
    r := Listed(result);
  }

  method IaqSkep(af: AF, sem: Semantics, ghost tally: Tally) returns (r: Answer)
    requires af.Ready()
    modifies tally
    ensures sem == ST ==> tally.calls == old(tally.calls) + af.args
    ensures sem == PR ==> tally.calls <= old(tally.calls) + af.args * (3 * |InSets(af.Graph(), af.perfEnc)| + 1)
    ensures r.Unsupported? <==> sem != PR && sem != ST
    ensures r.Listed? ==> Increasing(r.args) && Elements(r.args) == SkepticalSet(af.Graph(), sem)
  {
    ghost var f := af.Graph();
    var result: seq<nat> := [];
    if sem == PR {
      ghost var most := 3 * |InSets(f, af.perfEnc)| + 1;
      for i := 0 to af.args
        invariant tally.calls <= old(tally.calls) + i * most
        invariant Increasing(result) && forall x | x in result :: x < i
        invariant forall x: nat :: x in result <==> x < i && Skeptical(f, sem, x)
      {
        var b := IsSkepticallyPreferred(af, i, tally);
        assert i * most + most == (i + 1) * most;
        assert SkepticallyPreferred(f, i) <==> Skeptical(f, sem, i) by {
          assert forall S :: Extension(f, sem, S) <==> Preferred(f, S);
        }
        if b {
          IncreasingAppend(result, i);
          result := result + [i];
        }
      }
    } else if sem == ST {
      var solver := new Solver(af.args, tally);
      AddStable(af, solver);
      for i := 0 to af.args
        invariant solver.assumptions == [] && tally.calls == old(tally.calls) + i
        invariant forall m :: Models(m, solver.clauses) <==> StableModel(f, m)
        invariant Increasing(result) && forall x | x in result :: x < i
        invariant forall x: nat :: x in result <==> x < i && Skeptical(f, sem, x)
      {
        solver.Assume(-af.acceptedVar[i]);
        ghost var query := solver.assumptions;
        assert forall m :: AllTrue(m, query) <==> i !in In(m, Size(f)) by {
          assert forall m :: AllTrue(m, query) <==> !Chosen(m, i);
        }
        var sat := solver.Solve();
        StableCounterexample(f, i);
        if !sat {
          IncreasingAppend(result, i);
          result := result + [i];
        }
      }
    } else {
      return Unsupported;
    }
    r := Listed(result);
  }

  lemma StableCounterexample(f: Graph, i: nat)
    ensures Skeptical(f, ST, i) <==> !exists m :: StableModel(f, m) && i !in In(m, Size(f))
  {
    if m :| StableModel(f, m) && i !in In(m, Size(f)) {
      StableModelIsStable(f, m);
      assert Extension(f, ST, In(m, Size(f)));
    } else {
      forall S | Extension(f, ST, S) ensures i in S {
        var m := StableHasModel(f, S);
      }
    }
  }

  /** The assumptions that leave `arg` out, or take it in, and keep all of `kept`. */
  ghost predicate Asks(f: Graph, ls: seq<Lit>, arg: nat, taken: bool, kept: set<nat>) {
    forall m :: AllTrue(m, ls) <==>
                (arg in In(m, Size(f)) <==> taken) && kept <= In(m, Size(f))
  }

  lemma AsksWithHead(f: Graph, h: Lit, rest: seq<Lit>, arg: nat, taken: bool, kept: set<nat>)
    requires arg in Args(f) && (if taken then h == arg + 1 else h == -(arg + 1))
    requires forall m :: AllTrue(m, rest) <==> kept <= In(m, Size(f))
    ensures Asks(f, [h] + rest, arg, taken, kept)
  {
    forall m
      ensures AllTrue(m, [h] + rest) <==> (arg in In(m, Size(f)) <==> taken) && kept <= In(m, Size(f))
    {
      AllTruePrepend(m, h, rest);
      assert Chosen(m, arg) <==> arg in In(m, Size(f));
    }
  }

  /** An accepted set that cannot grow, neither with `arg` nor without it, is preferred. */
  lemma GrownIsPreferred(f: Graph, perf: bool, clauses: seq<Clause>, blocked: set<set<nat>>, M: set<nat>, arg: nat,
                         without: seq<Lit>, including: seq<Lit>)
    requires InSet(f, perf, M) && arg !in M && !Inside(M, blocked)
    requires Describes(f, perf, PR, clauses, blocked + {M})
    requires Asks(f, without, arg, false, M) && !Satisfiable(clauses, without)
    requires Asks(f, including, arg, true, M) && !Satisfiable(clauses, including)
    ensures Preferred(f, M)
  {
    forall T | InSet(f, perf, T) && M <= T ensures T == M {
      var m :| CompleteModel(f, perf, m) && In(m, Size(f)) == T;
      InsideGrows(T, blocked, M);
      assert BaseModel(f, perf, PR, m);
      assert Models(m, clauses) <==> T != M;
      assert AllTrue(m, without) || AllTrue(m, including);
    }
    MaximalInSetsArePreferred(f, perf, M);
  }

  /** One pass over a model: the assumptions gain the accepted arguments not yet visited,
      and the complement clause lists the others. */
  method CollectModel(af: AF, model: seq<bool>, newAssumptions: seq<Lit>, visited: seq<bool>)
      returns (complementClause: seq<Lit>, newAssumptions': seq<Lit>, visited': seq<bool>)
    requires af.Ready() && |model| == |visited| == af.args
    requires Trues(visited) <= Trues(model)
    requires 0 < |newAssumptions|
    requires forall m :: AllTrue(m, newAssumptions[1..]) <==> Trues(visited) <= In(m, af.args)
    ensures complementClause == Pick(af.args, Args(af.Graph()) - Trues(model), 0, false)
    ensures |visited'| == af.args && Trues(visited') == Trues(model)
    ensures 0 < |newAssumptions'| && newAssumptions'[0] == newAssumptions[0]
    ensures forall m :: AllTrue(m, newAssumptions'[1..]) <==> Trues(model) <= In(m, af.args)
  {
    ghost var f, M := af.Graph(), Trues(model);
    complementClause, newAssumptions', visited' := [], newAssumptions, visited;
    for i := 0 to af.args
      invariant |visited'| == af.args
      invariant complementClause == Pick(i, Args(f) - M, 0, false)
      invariant Trues(visited') <= M && forall x | x in M && x < i :: x in Trues(visited')
      invariant 0 < |newAssumptions'| && newAssumptions'[0] == newAssumptions[0]
      invariant forall m :: AllTrue(m, newAssumptions'[1..]) <==> Trues(visited') <= In(m, Size(f))
    {
      if model[i] {
        if !visited'[i] {
          KeepOneMore(f, newAssumptions'[1..], visited', i);
          assert (newAssumptions' + [af.acceptedVar[i]])[1..] == newAssumptions'[1..] + [af.acceptedVar[i]];
          newAssumptions' := newAssumptions' + [af.acceptedVar[i]];
          visited' := visited'[i := true];
        }
      } else {
        complementClause := complementClause + [af.acceptedVar[i]];
      }
    }
    assert Trues(visited') == M;
  }

  /** The clauses ask for arguments outside `blocked`, none of which is preferred. */
  ghost predicate Sound(f: Graph, perf: bool, solver: Solver, blocked: set<set<nat>>)
    reads solver
  {
    && solver.assumptions == []
    && solver.decisionVars == Size(f)
    && Describes(f, perf, PR, solver.clauses, blocked)
    && forall B | B in blocked :: Admissible(f, B) && !Preferred(f, B)
  }

  lemma ModelInSet(f: Graph, perf: bool, m: Assignment)
    ensures CompleteModel(f, perf, m) ==> InSet(f, perf, In(m, Size(f)))
  {}

  /** Grow the model just found, without `arg`, until no larger one is left. */
  method GrowWithout(af: AF, solver: Solver, arg: nat, assumptions: seq<Lit>, ghost blocked: set<set<nat>>)
      returns (newAssumptions: seq<Lit>, ghost blocked': set<set<nat>>, ghost M: set<nat>)
    requires af.Ready() && arg < af.args && assumptions == [-af.acceptedVar[arg]]
    requires Sound(af.Graph(), af.perfEnc, solver, blocked)
    requires |solver.model| == af.args && Trues(solver.model) == In(solver.found, af.args)
    requires CompleteModel(af.Graph(), af.perfEnc, solver.found)
    requires arg !in Trues(solver.model) && !Inside(Trues(solver.model), blocked)
    requires forall B | B in blocked :: InSet(af.Graph(), af.perfEnc, B)
    modifies solver, solver.tally
    ensures forall B | B in blocked' :: InSet(af.Graph(), af.perfEnc, B)
    ensures |blocked| <= |blocked'| && solver.tally.calls + |blocked| == old(solver.tally.calls) + |blocked'| + 1
    ensures var f := af.Graph();
            && InSet(f, af.perfEnc, M) && arg !in M && !Inside(M, blocked')
            && solver.assumptions == [] && Describes(f, af.perfEnc, PR, solver.clauses, blocked' + {M})
            && (forall B | B in blocked' :: Admissible(f, B) && !Preferred(f, B))
            && 0 < |newAssumptions| && Asks(f, newAssumptions, arg, false, M)
            && (forall m :: AllTrue(m, newAssumptions[1..]) <==> M <= In(m, Size(f)))
            && !Satisfiable(solver.clauses, newAssumptions)
            && blocked <= blocked'
  {
    hide CompleteModel, InSet, Describes, Inside, Preferred, Admissible, Unblocked, Satisfiable, Asks;
    ghost var f, perf := af.Graph(), af.perfEnc;
    blocked' := blocked;
    M := Trues(solver.model);
    ModelInSet(f, perf, solver.found);
    var visited := seq(af.args, i => false);
    newAssumptions := assumptions;
    while true
      invariant Sound(f, perf, solver, blocked')
      invariant |blocked| <= |blocked'| && solver.tally.calls + |blocked| == old(solver.tally.calls) + |blocked'|
      invariant forall B | B in blocked' :: InSet(f, perf, B)
      invariant |solver.model| == |visited| == af.args
      invariant M == Trues(solver.model) && InSet(f, perf, M) && arg !in M && !Inside(M, blocked')
      invariant Trues(visited) <= M
      invariant 0 < |newAssumptions| && newAssumptions[0] == -(arg + 1)
      invariant forall m :: AllTrue(m, newAssumptions[1..]) <==> Trues(visited) <= In(m, Size(f))
      invariant blocked <= blocked'
      decreases Unblocked(f, blocked')
    {
      var complementClause: seq<Lit>;
      complementClause, newAssumptions, visited := CollectModel(af, solver.model, newAssumptions, visited);
      DescribesGrows(f, perf, PR, solver.clauses, blocked', M);
      BlockingShrinks(f, blocked', M);
      solver.AddClause(complementClause);
      AsksWithHead(f, newAssumptions[0], newAssumptions[1..], arg, false, M);
      assert newAssumptions == [newAssumptions[0]] + newAssumptions[1..];
      var supersetExists := solver.SolveWith(newAssumptions);
      if !supersetExists {
        break;
      }
      FoundAbove(f, perf, solver.clauses, blocked', M, solver.found, newAssumptions, arg, false);
      NotYetBlocked(M, blocked');
      blocked' := blocked' + {M};
      M := In(solver.found, Size(f));
    }
  }

  /** Decides membership in every preferred extension.  The clauses added on the way only
      ask for arguments outside sets that are not preferred. */
  method IsSkepticallyPreferred(af: AF, arg: nat, ghost tally: Tally) returns (b: bool)
    requires af.Ready() && arg < af.args
    modifies tally
    ensures tally.calls <= old(tally.calls) + 3 * |InSets(af.Graph(), af.perfEnc)| + 1
    ensures b <==> SkepticallyPreferred(af.Graph(), arg)
  {
    hide CompleteModel, InSet, InSets, Describes, Inside, Preferred, Admissible, Unblocked, Satisfiable, Asks;
    ghost var f, perf := af.Graph(), af.perfEnc;
    ghost var blocked: set<set<nat>> := {};
    var solver := new Solver(af.args, tally);
    AddComplete(af, solver);
    var assumptions: seq<Lit> := [-af.acceptedVar[arg]];
    assert Asks(f, assumptions, arg, false, {}) by {
      AsksWithHead(f, -(arg + 1), [], arg, false, {});
      assert [-(arg + 1)] + [] == assumptions;
    }
    NothingBlocked(f, perf, solver.clauses);
    while true
      invariant Sound(f, perf, solver, blocked) && fresh(solver) && solver.tally == tally
      invariant tally.calls <= old(tally.calls) + 3 * |blocked|
      invariant forall B | B in blocked :: InSet(f, perf, B)
      decreases Unblocked(f, blocked)
    {
      var sat := solver.SolveWith(assumptions);
      AtMostInSets(f, perf, blocked);
      if !sat {
        break;
      }
      FoundWithout(f, perf, solver.clauses, blocked, solver.found, assumptions, arg);
      var newAssumptions: seq<Lit>;
      ghost var M, before := {}, blocked;
      newAssumptions, blocked, M := GrowWithout(af, solver, arg, assumptions, blocked);
      BlockingMonotone(f, before, blocked);
      ghost var without := newAssumptions;
      newAssumptions := newAssumptions[0 := af.acceptedVar[arg]];
      AsksWithHead(f, newAssumptions[0], newAssumptions[1..], arg, true, M);
      assert newAssumptions == [newAssumptions[0]] + newAssumptions[1..];
      var more := solver.SolveWith(newAssumptions);
      NotYetBlocked(M, blocked);
      AtMostInSets(f, perf, blocked + {M});
      if !more {
        GrownIsPreferred(f, perf, solver.clauses, blocked, M, arg, without, newAssumptions);
        return false;
      }
      FoundAbove(f, perf, solver.clauses, blocked, M, solver.found, newAssumptions, arg, true);
      BlockingShrinks(f, blocked, M);
      blocked := blocked + {M};
    }
    AllPreferredHold(f, perf, solver.clauses, blocked, arg, assumptions);
    b := true;
  }

  lemma KeepOneMore(f: Graph, rest: seq<Lit>, visited: seq<bool>, i: nat)
    requires i < |visited| == Size(f) && !visited[i]
    requires forall m :: AllTrue(m, rest) <==> Trues(visited) <= In(m, Size(f))
    ensures forall m :: AllTrue(m, rest + [i + 1]) <==> Trues(visited[i := true]) <= In(m, Size(f))
  {
    assert Trues(visited[i := true]) == Trues(visited) + {i};
    forall m ensures AllTrue(m, rest + [i + 1]) <==> Trues(visited[i := true]) <= In(m, Size(f)) {
      AllTrueAppend(m, rest, i + 1);
      assert Chosen(m, i) <==> i in In(m, Size(f));
    }
  }

  /** A model found above `M`, outside every blocked set and outside `M`, shows that `M` is
      not preferred. */
  lemma GrowsTo(f: Graph, perf: bool, m: Assignment, M: set<nat>, blocked: set<set<nat>>)
    requires CompleteModel(f, perf, m) && M <= In(m, Size(f)) && InSet(f, perf, M)
    requires !Inside(In(m, Size(f)), blocked + {M})
    ensures Admissible(f, M) && !Preferred(f, M)
    ensures InSet(f, perf, In(m, Size(f)))
  {
    InsideGrows(In(m, Size(f)), blocked, M);
    InSetIsGrounding(f, perf, M);
    CompleteModelIsGrounding(f, perf, m);
  }

  /** The answer to the first query. */
  lemma FoundWithout(f: Graph, perf: bool, clauses: seq<Clause>, blocked: set<set<nat>>, m: Assignment, ls: seq<Lit>,
                     arg: nat)
    requires Describes(f, perf, PR, clauses, blocked) && Models(m, clauses) && AllTrue(m, ls)
    requires Asks(f, ls, arg, false, {})
    ensures CompleteModel(f, perf, m) && arg !in In(m, Size(f)) && !Inside(In(m, Size(f)), blocked)
  {
    assert BaseModel(f, perf, PR, m);
  }

  /** The answer to a query above `M`. */
  lemma FoundAbove(f: Graph, perf: bool, clauses: seq<Clause>, blocked: set<set<nat>>, M: set<nat>, m: Assignment,
                   ls: seq<Lit>, arg: nat, taken: bool)
    requires Describes(f, perf, PR, clauses, blocked + {M}) && Models(m, clauses) && AllTrue(m, ls)
    requires Asks(f, ls, arg, taken, M) && InSet(f, perf, M)
    ensures Admissible(f, M) && !Preferred(f, M)
    ensures InSet(f, perf, In(m, Size(f))) && !Inside(In(m, Size(f)), blocked + {M})
    ensures M <= In(m, Size(f)) && (arg in In(m, Size(f)) <==> taken)
  {
    assert BaseModel(f, perf, PR, m);
    GrowsTo(f, perf, m, M, blocked);
  }

  /** When no model without `arg` is left and nothing blocked is preferred, `arg` is accepted. */
  lemma AllPreferredHold(f: Graph, perf: bool, clauses: seq<Clause>, blocked: set<set<nat>>, arg: nat, ls: seq<Lit>)
    requires Describes(f, perf, PR, clauses, blocked)
    requires forall B | B in blocked :: Admissible(f, B) && !Preferred(f, B)
    requires Asks(f, ls, arg, false, {}) && !Satisfiable(clauses, ls)
    ensures SkepticallyPreferred(f, arg)
  {
    forall P | Preferred(f, P) ensures arg in P {
      PreferredIsInSet(f, perf, P);
      var m :| CompleteModel(f, perf, m) && In(m, Size(f)) == P;
      assert BaseModel(f, perf, PR, m);
      assert Models(m, clauses) <==> !Inside(P, blocked);
      assert !Inside(P, blocked);
      assert AllTrue(m, ls) <==> arg !in P;
    }
  }
}
