/** Acceptance by minimum-cost models: each round accepts, or drops, as many arguments as
    one extension can, and the rounds stop when the optimum changes nothing. */
module Seem {
  import opened Sat
  import opened SatSolver
  import opened Frameworks
  import opened ArgumentationFramework
  import opened Encodings
  import opened Correspondence
  import opened Search

  /** The literals that cost one unless the argument is accepted, for the members of `X`. */
  function NotAccepted(X: set<nat>): (s: set<Lit>) {
    set i | i in X :: AccLit(i)
  }

  function AccLit(i: nat): Lit {
    var v: int := i + 1;
    -v
  }

  function RejLit(n: nat, i: nat): Lit {
    var v: int := n + i + 1;
    -v
  }

  /** The literals that cost one when the argument is accepted, for the members of `X`. */
  function NotRejected(n: nat, X: set<nat>): (s: set<Lit>) {
    set i | i in X :: RejLit(n, i)
  }

  lemma {:induction false} SizeOfImages(n: nat, X: set<nat>)
    ensures |NotAccepted(X)| == |X| && |NotRejected(n, X)| == |X|
  {
    if X != {} {
      var x :| x in X;
      SizeOfImages(n, X - {x});
      OneMoreAccepted(X, x);
      OneMoreRejected(n, X, x);
    }
  }

  lemma NoneRejected(n: nat)
    ensures NotRejected(n, {}) == {}
  {}

  lemma OneMoreAccepted(X: set<nat>, x: nat)
    requires x in X
    ensures NotAccepted(X) == NotAccepted(X - {x}) + {AccLit(x)} && AccLit(x) !in NotAccepted(X - {x})
  {}

  lemma OneMoreRejected(n: nat, X: set<nat>, x: nat)
    requires x in X
    ensures NotRejected(n, X) == NotRejected(n, X - {x}) + {RejLit(n, x)} && RejLit(n, x) !in NotRejected(n, X - {x})
  {}

  /** The optimum reaches the total weight exactly when no model accepts any of `X`. */
  lemma NothingNewAccepted(m: Assignment, n: nat, X: set<nat>)
    requires forall i | i in X :: i < n
    ensures Cost(m, NotAccepted(X)) >= |X| <==> forall i | i in X :: i !in In(m, n)
  {
    FullCost(m, NotAccepted(X));
    SizeOfImages(n, X);
    forall i | i in X ensures True(m, AccLit(i)) <==> i !in In(m, n) {
      assert Chosen(m, i) <==> i in In(m, n);
    }
    if forall i | i in X :: i !in In(m, n) {
      forall l | l in NotAccepted(X) ensures True(m, l) {}
    } else {
      var i :| i in X && i in In(m, n);
      assert AccLit(i) in NotAccepted(X);
    }
  }

  lemma NothingMoreDropped(f: Graph, m: Assignment, X: set<nat>)
    requires StableModel(f, m) && X <= Args(f)
    ensures Cost(m, NotRejected(Size(f), X)) >= |X| <==> X <= In(m, Size(f))
  {
    FullCost(m, NotRejected(Size(f), X));
    SizeOfImages(Size(f), X);
    StableModelIsStable(f, m);
    forall i | i in X ensures True(m, RejLit(Size(f), i)) <==> i in In(m, Size(f)) {
      assert Rej(f, m, 0, i) <==> i !in In(m, Size(f));
    }
    if X <= In(m, Size(f)) {
      forall l | l in NotRejected(Size(f), X) ensures True(m, l) {}
    } else {
      var i :| i in X && i !in In(m, Size(f));
      assert RejLit(Size(f), i) in NotRejected(Size(f), X);
    }
  }

  method AddSoftUnvisited(af: AF, solver: Solver, unvisited: seq<bool>) returns (maxWeight: nat)
    requires af.Ready() && |unvisited| == af.args && solver.Valid() && solver.soft == {}
    modifies solver`soft, solver`softBound
    ensures solver.Valid() && solver.soft == NotAccepted(Trues(unvisited))
    ensures maxWeight == |Trues(unvisited)|
  {
    hide NotAccepted, Below;
    maxWeight := 0;
    NothingBelow(unvisited);
    for i := 0 to af.args
      invariant solver.Valid() && solver.soft == NotAccepted(Below(unvisited, i))
      invariant maxWeight == |Below(unvisited, i)|
    {
      BelowStep(unvisited, i);
      AcceptedStep(Below(unvisited, i), i);
      if unvisited[i] {
        solver.AddSoftConstraint(-af.acceptedVar[i]);
        maxWeight := maxWeight + 1;
      }
    }
    AllBelow(unvisited);
  }

  lemma NothingBelow(bits: seq<bool>)
    ensures Below(bits, 0) == {} && NotAccepted({}) == {}
  {}

  lemma AllBelow(bits: seq<bool>)
    ensures Below(bits, |bits|) == Trues(bits)
  {}

  lemma AcceptedStep(X: set<nat>, i: nat)
    ensures NotAccepted(X + {i}) == NotAccepted(X) + {AccLit(i)}
    ensures i !in X ==> AccLit(i) !in NotAccepted(X)
  {}

  lemma SoftStep(n: nat, X: set<nat>, i: nat)
    ensures NotRejected(n, X + {i}) == NotRejected(n, X) + {RejLit(n, i)}
    ensures NotRejected(n, X - {i}) == NotRejected(n, X) - {RejLit(n, i)}
  {}

  /** The soft literals of one round: those of the arguments still included. */
  method SetSoftIncluded(af: AF, solver: Solver, included: seq<bool>, ghost before: set<nat>)
      returns (maxWeight: nat)
    requires af.Ready() && |included| == af.args && solver.Valid()
    requires solver.soft == NotRejected(af.args, before) && before <= Args(af.Graph())
    modifies solver`soft, solver`softBound
    ensures solver.Valid() && solver.soft == NotRejected(af.args, Trues(included))
    ensures maxWeight == |Trues(included)|
  {
    hide NotRejected, Below;
    maxWeight := 0;
    NothingBelow(included);
    ghost var X: set<nat> := before;
    for i := 0 to af.args
      invariant solver.Valid() && solver.soft == NotRejected(af.args, X)
      invariant forall k | 0 <= k < i :: k in X <==> included[k]
      invariant forall k | k in X :: k < af.args
      invariant maxWeight == |Below(included, i)|
    {
      BelowStep(included, i);
      SoftStep(af.args, X, i);
      assert -af.rejectedVar[i] == RejLit(af.args, i);
      if included[i] {
        solver.AddSoftConstraint(-af.rejectedVar[i]);
        maxWeight := maxWeight + 1;
        X := X + {i};
      } else {
        solver.DisableSoftConstraint(-af.rejectedVar[i]);
        X := X - {i};
      }
    }
    SameBits(included, X);
  }

  lemma SameBits(bits: seq<bool>, X: set<nat>)
    requires forall k | 0 <= k < |bits| :: k in X <==> bits[k]
    requires forall k | k in X :: k < |bits|
    ensures Below(bits, |bits|) == Trues(bits) == X
  {}

  /** One round: a model that accepts something unvisited, unless there is none. */
  method AskForNew(af: AF, sem: Semantics, unvisited: seq<bool>, ghost tally: Tally)
      returns (more: bool, model: seq<bool>)
    requires af.Ready() && sem != UNKNOWN_SEM && |unvisited| == af.args
    modifies tally
    ensures tally.calls == old(tally.calls) + 1
    ensures !more ==> forall a | a in Trues(unvisited) :: a !in CredulousSet(af.Graph(), sem)
    ensures more ==> |model| == af.args && Trues(model) <= CredulousSet(af.Graph(), sem)
    ensures more ==> exists a :: a in Trues(unvisited) && a in Trues(model)
  {
    ghost var f, perf := af.Graph(), af.perfEnc;
    var solver := new Solver(af.args, tally);
    Encode(af, solver, sem);
    var maxWeight := AddSoftUnvisited(af, solver, unvisited);
    var sat := solver.SolveOptimal();
    model := solver.model;
    more := sat && solver.cost < maxWeight;
    if more {
      NothingNewAccepted(solver.found, Size(f), Trues(unvisited));
      AcceptedAreCredulous(f, perf, sem, solver.found);
    } else {
      NoCredulousLeft(f, perf, sem, solver.clauses, Trues(unvisited), sat, solver.cost);
    }
  }

  method SeemCred(af: AF, sem: Semantics, ghost tally: Tally) returns (r: Answer)
    requires af.Ready()
    modifies tally
    ensures r.Unsupported? <==> sem == UNKNOWN_SEM
    ensures r.Listed? ==> Distinct(r.args) && Elements(r.args) == CredulousSet(af.Graph(), sem)
    ensures r.Listed? ==> tally.calls <= old(tally.calls) + |r.args| + 1
  {
    if sem == UNKNOWN_SEM {
      return Unsupported;
    }
    ghost var f, perf := af.Graph(), af.perfEnc;
    var result: seq<nat> := [];
    var included, unvisited := seq(af.args, i => false), seq(af.args, i => true);
    assert Trues(unvisited) == Args(f);
    while true
      invariant |included| == |unvisited| == af.args
      invariant Trues(unvisited) == Args(f) - Trues(included)
      invariant Distinct(result) && Elements(result) == Trues(included)
      invariant Trues(included) <= CredulousSet(f, sem)
      invariant tally.calls <= old(tally.calls) + |result|
      decreases Trues(unvisited)
    {
      var more, model := AskForNew(af, sem, unvisited, tally);
      if !more {
        break;
      }
      ghost var a :| a in Trues(unvisited) && a in Trues(model);
      included, unvisited, result := TakeIn(model, included, unvisited, result);
    }
    r := Listed(result);
  }

  /** The members of a bit vector below `k`. */
  function Below(bits: seq<bool>, k: nat): set<nat> {
    set i | i in Trues(bits) && i < k
  }

  lemma BelowStep(bits: seq<bool>, i: nat)
    requires i < |bits|
    ensures Below(bits, i + 1) == Below(bits, i) + (if bits[i] then {i} else {}) && i !in Below(bits, i)
  {}

  /** Stopping is exact: an optimum at the total weight leaves no acceptable argument. */
  lemma NoCredulousLeft(f: Graph, perf: bool, sem: Semantics, clauses: seq<Clause>, X: set<nat>, sat: bool, cost: nat)
    requires sem != UNKNOWN_SEM && X <= Args(f)
    requires forall m :: Models(m, clauses) <==> BaseModel(f, perf, sem, m)
    requires !sat ==> !Satisfiable(clauses, [])
    requires sat ==> cost >= |X| && forall m | Models(m, clauses) :: cost <= Cost(m, NotAccepted(X))
    ensures forall a | a in X :: a !in CredulousSet(f, sem)
  {
    forall a | a in X ensures a !in CredulousSet(f, sem) {
      CredulousByModel(f, perf, sem, a);
      forall m | BaseModel(f, perf, sem, m) ensures a !in In(m, Size(f)) {
        assert AllTrue(m, []);
        NothingNewAccepted(m, Size(f), X);
      }
    }
  }

  method TakeIn(model: seq<bool>, included: seq<bool>, unvisited: seq<bool>, result: seq<nat>)
      returns (included': seq<bool>, unvisited': seq<bool>, result': seq<nat>)
    requires |model| == |included| == |unvisited|
    requires Distinct(result) && Elements(result) == Trues(included)
    ensures |included'| == |unvisited'| == |model|
    ensures Trues(included') == Trues(included) + Trues(model)
    ensures Trues(unvisited') == Trues(unvisited) - Trues(model)
    ensures Distinct(result') && Elements(result') == Trues(included')
    ensures Trues(model) <= Trues(included) || |result'| > |result|
    ensures |result'| >= |result|
  {
    included', unvisited', result' := included, unvisited, result;
    for i := 0 to |model|
      invariant |included'| == |unvisited'| == |model|
      invariant forall k | 0 <= k < |model| :: included'[k] <==> included[k] || (k < i && model[k])
      invariant forall k | 0 <= k < |model| :: unvisited'[k] <==> unvisited[k] && !(k < i && model[k])
      invariant Distinct(result') && Elements(result') == Trues(included')
      invariant |result'| >= |result|
      invariant Below(model, i) <= Trues(included) || |result'| > |result|
    {
      BelowStep(model, i);
      if model[i] {
        if !included'[i] {
          assert i !in Elements(result');
          AppendNew(result', i);
          assert Trues(included'[i := true]) == Trues(included') + {i};
          included' := included'[i := true];
          result' := result' + [i];
        }
        unvisited' := unvisited'[i := false];
      }
    }
    assert Below(model, |model|) == Trues(model);
  }

  method SeemSkep(af: AF, sem: Semantics, ghost tally: Tally) returns (r: Answer)
    requires af.Ready()
    modifies tally
    ensures r.Unsupported? <==> sem != ST
    ensures r.Listed? ==> Increasing(r.args) && Elements(r.args) == SkepticalSet(af.Graph(), sem)
    ensures r.Listed? ==> tally.calls + |r.args| <= old(tally.calls) + af.args + 1
  {
    hide NotRejected, StableModel, Cost, Satisfiable, AllDroppedFail;
    if sem != ST {
      return Unsupported;
    }
    ghost var f := af.Graph();
    var included := seq(af.args, i => true);
    var solver := new Solver(af.args, tally);
    AddStable(af, solver);
    assert Trues(included) == Args(f);
    SizeOfArgs(f);
    ghost var before: set<nat> := {};
    NoneRejected(af.args);
    NothingDropped(f);
    while true
      invariant solver.Valid() && solver.assumptions == [] && solver.decisionVars == |included| == af.args
      invariant forall m :: Models(m, solver.clauses) <==> StableModel(f, m)
      invariant before <= Args(f) && solver.soft == NotRejected(af.args, before)
      invariant AllDroppedFail(f, Trues(included))
      invariant tally.calls + |Trues(included)| <= old(tally.calls) + af.args
      decreases Trues(included)
    {
      var maxWeight := SetSoftIncluded(af, solver, included, before);
      before := Trues(included);
      var sat := solver.SolveOptimal();
      if !sat || solver.cost >= maxWeight {
        NothingLeftToDrop(f, solver.clauses, Trues(included), sat, solver.cost);
        SharedIsSkeptical(f, Trues(included));
        break;
      }
      included := KeepShared(solver.model, included);
      RoundDrops(f, solver.found, before, Trues(included));
    }
    var result := Indices(included);
    DistinctSize(result);
    r := Listed(result);
  }

  lemma NothingDropped(f: Graph)
    ensures AllDroppedFail(f, Args(f))
  {}

  /** An optimum below the total weight drops an argument. */
  lemma RoundDrops(f: Graph, m: Assignment, X: set<nat>, X': set<nat>)
    requires StableModel(f, m) && X <= Args(f) && X' == X * In(m, Size(f)) && AllDroppedFail(f, X)
    requires Cost(m, NotRejected(Size(f), X)) < |X|
    ensures X' < X && |X'| < |X| && AllDroppedFail(f, X')
  {
    NothingMoreDropped(f, m, X);
    StableModelIsStable(f, m);
    DroppedAreNotSkeptical(f, In(m, Size(f)), X, X');
    SubsetSize(X', X);
  }

  /** Stopping is exact: an optimum at the total weight leaves nothing to drop. */
  lemma NothingLeftToDrop(f: Graph, clauses: seq<Clause>, X: set<nat>, sat: bool, cost: nat)
    requires X <= Args(f)
    requires forall m :: Models(m, clauses) <==> StableModel(f, m)
    requires !sat ==> !Satisfiable(clauses, [])
    requires sat ==> cost >= |X| && forall m | Models(m, clauses) :: cost <= Cost(m, NotRejected(Size(f), X))
    ensures forall S | Stable(f, S) :: X <= S
  {
    forall S | Stable(f, S) ensures X <= S {
      var m := StableHasModel(f, S);
      assert AllTrue(m, []);
      NothingMoreDropped(f, m, X);
    }
  }

  method KeepShared(model: seq<bool>, included: seq<bool>) returns (included': seq<bool>)
    requires |model| == |included|
    ensures |included'| == |model| && Trues(included') == Trues(included) * Trues(model)
  {
    included' := included;
    for i := 0 to |model|
      invariant |included'| == |model|
      invariant forall k | 0 <= k < |model| :: included'[k] <==> included[k] && (k < i ==> model[k])
    {
      included' := included'[i := included'[i] && model[i]];
    }
  }
}
