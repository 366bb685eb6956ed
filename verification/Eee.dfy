/** Enumeration of extensions with blocking clauses. */
module Eee {
  import opened Sat
  import opened SatSolver
  import opened Frameworks
  import opened ArgumentationFramework
  import opened Encodings
  import opened Correspondence
  import opened Search

  // ----- Credulous acceptance: block each accepted set once it was seen -----

  /** For each argument below `k` the literal that is false under `M`. */
  function Differ(k: nat, M: set<nat>): (c: Clause) {
    if k == 0 then []
    else
      var v: int := k;
      var l: Lit := if k - 1 in M then -v else v;
      Differ(k - 1, M) + [l]
  }

  lemma {:induction false} DifferHolds(m: Assignment, k: nat, M: set<nat>)
    ensures Holds(m, Differ(k, M)) <==> exists i: nat :: i < k && (i in M <==> !Chosen(m, i))
  {
    if k == 0 {
      assert !Holds(m, []);
    } else {
      DifferHolds(m, k - 1, M);
      var v: int := k;
      HoldsAppend(m, Differ(k - 1, M), if k - 1 in M then -v else v);
      assert Chosen(m, k - 1) <==> v in m;
    }
  }

  lemma DifferBlocks(f: Graph, m: Assignment, M: set<nat>)
    requires M <= Args(f)
    ensures Holds(m, Differ(Size(f), M)) <==> In(m, Size(f)) != M
  {
    DifferHolds(m, Size(f), M);
    if In(m, Size(f)) != M {
      if i :| i in M && i !in In(m, Size(f)) {
        assert i < Size(f) && !Chosen(m, i);
      } else {
        var i :| i in In(m, Size(f)) && i !in M;
        assert i < Size(f) && Chosen(m, i);
      }
    }
  }

  ghost function Unseen(f: Graph, seen: set<set<nat>>): set<set<nat>> {
    set S | S <= Args(f) && S !in seen
  }

  /** One pass over a model: collect the newly accepted arguments and the blocking clause. */
  method VisitModel(af: AF, model: seq<bool>, included: seq<bool>, result: seq<nat>)
      returns (included': seq<bool>, result': seq<nat>, complementClause: seq<Lit>)
    requires af.Ready() && |model| == |included| == af.args
    requires Distinct(result) && Elements(result) == Trues(included)
    ensures |included'| == af.args && Distinct(result') && Elements(result') == Trues(included')
    ensures forall x: nat :: x in result' <==> x in result || x in Trues(model)
    ensures complementClause == Differ(af.args, Trues(model))
  {
    included', result', complementClause := included, result, [];
    for i := 0 to af.args
      invariant |included'| == af.args
      invariant Distinct(result') && Elements(result') == Trues(included')
      invariant forall x: nat :: x in result' <==> x in result || (x in Trues(model) && x < i)
      invariant complementClause == Differ(i, Trues(model))
    {
      if model[i] {
        if !included'[i] {
          assert i !in Elements(result');
          AppendNew(result', i);
          assert Trues(included'[i := true]) == Trues(included') + {i};
          included' := included'[i := true];
          result' := result' + [i];
        } else {
          assert i in Elements(result');
        }
        complementClause := complementClause + [-af.acceptedVar[i]];
      } else {
        complementClause := complementClause + [af.acceptedVar[i]];
      }
    }
  }

  /** Every accepted set of a model is found exactly once. */
  method EeeCred(af: AF, sem: Semantics, ghost tally: Tally) returns (r: Answer)
    requires af.Ready()
    modifies tally
    ensures r.Listed? ==> tally.calls == old(tally.calls) + |ModelSets(af.Graph(), af.perfEnc, sem)| + 1
    ensures r.Unsupported? <==> sem == UNKNOWN_SEM
    ensures r.Listed? ==> Distinct(r.args) && Elements(r.args) == CredulousSet(af.Graph(), sem)
  {
    if sem == UNKNOWN_SEM {
      return Unsupported;
    }
    hide Seen, ModelSets, CredulousSet, Unseen, Satisfiable;
    ghost var f, perf := af.Graph(), af.perfEnc;
    var result: seq<nat> := [];
    var included := seq(af.args, i => false);
    var solver := new Solver(af.args, tally);
    Encode(af, solver, sem);
    ghost var seen: set<set<nat>> := {};
    NothingSeen(f, perf, sem);
    while true
      invariant solver.assumptions == [] && solver.decisionVars == |included| == af.args
      invariant forall m :: Models(m, solver.clauses) <==>
                            BaseModel(f, perf, sem, m) && In(m, Size(f)) !in seen
      invariant Distinct(result) && Elements(result) == Trues(included)
      invariant Seen(f, perf, sem, seen, result)
      invariant tally.calls == old(tally.calls) + |seen|
      decreases Unseen(f, seen)
    {
      var sat := solver.Solve();
      if !sat {
        break;
      }
      ghost var M, before := Trues(solver.model), result;
      var complementClause;
      included, result, complementClause := VisitModel(af, solver.model, included, result);
      solver.AddClause(complementClause);
      forall m ensures Holds(m, complementClause) <==> In(m, Size(f)) != M {
        DifferBlocks(f, m, M);
      }
      SeenGrows(f, perf, sem, seen, solver.found, before, result);
      seen := seen + {M};
    }
    SeenAll(f, perf, sem, solver.clauses, seen, result);
    r := Listed(result);
  }

  ghost function ModelSets(f: Graph, perf: bool, sem: Semantics): set<set<nat>> {
    set S | S <= Args(f) && exists m :: BaseModel(f, perf, sem, m) && In(m, Size(f)) == S
  }

  /** The sets are accepted sets of models, and what lies in one of them is listed. */
  ghost predicate Seen(f: Graph, perf: bool, sem: Semantics, seen: set<set<nat>>, result: seq<nat>) {
    && (forall x: nat :: x in result <==> exists S :: S in seen && x in S)
    && forall S | S in seen :: exists m :: BaseModel(f, perf, sem, m) && In(m, Size(f)) == S
  }

  lemma NothingSeen(f: Graph, perf: bool, sem: Semantics)
    ensures Seen(f, perf, sem, {}, [])
  {}

  lemma SeenGrows(f: Graph, perf: bool, sem: Semantics, seen: set<set<nat>>, m: Assignment,
                  before: seq<nat>, result: seq<nat>)
    requires Seen(f, perf, sem, seen, before) && BaseModel(f, perf, sem, m) && In(m, Size(f)) !in seen
    requires forall x: nat :: x in result <==> x in before || x in In(m, Size(f))
    ensures Seen(f, perf, sem, seen + {In(m, Size(f))}, result)
    ensures Unseen(f, seen + {In(m, Size(f))}) < Unseen(f, seen)
    ensures |seen + {In(m, Size(f))}| == |seen| + 1
  {
    var M := In(m, Size(f));
    assert M in Unseen(f, seen) && M !in Unseen(f, seen + {M});
    forall x: nat ensures x in result <==> exists S :: S in seen + {M} && x in S {
      if x in before {
        var S :| S in seen && x in S;
        assert S in seen + {M};
      }
      if x in M {
        assert M in seen + {M};
      }
    }
  }

  lemma SeenAll(f: Graph, perf: bool, sem: Semantics, clauses: seq<Clause>, seen: set<set<nat>>, result: seq<nat>)
    requires sem != UNKNOWN_SEM && Seen(f, perf, sem, seen, result) && !Satisfiable(clauses, [])
    requires forall m :: Models(m, clauses) <==> BaseModel(f, perf, sem, m) && In(m, Size(f)) !in seen
    requires Elements(result) <= Args(f)
    ensures seen == ModelSets(f, perf, sem) && Elements(result) == CredulousSet(f, sem)
  {
    forall m | BaseModel(f, perf, sem, m) ensures In(m, Size(f)) in seen {
      assert AllTrue(m, []);
    }
    forall a | a in Args(f) ensures a in result <==> Credulous(f, sem, a) {
      CredulousByModel(f, perf, sem, a);
    }
  }

  // ----- Skeptical acceptance, preferred semantics -----

  ghost predicate Meets(f: Graph, included: seq<bool>, exts: seq<set<nat>>) {
    |included| == Size(f) && forall i | 0 <= i < Size(f) :: included[i] <==> forall E | E in exts :: i in E
  }

  /** The clauses ask for arguments outside `blocked`; every preferred set among those is listed. */
  ghost predicate Enumerated(f: Graph, perf: bool, solver: Solver, blocked: set<set<nat>>, exts: seq<set<nat>>)
    reads solver
  {
    && solver.decisionVars == Size(f)
    && Describes(f, perf, PR, solver.clauses, blocked)
    && (forall B | B in blocked :: Admissible(f, B) && (Preferred(f, B) ==> B in exts))
    && (forall B | B in blocked :: InSet(f, perf, B))
    && (forall E | E in exts :: Preferred(f, E) && E in blocked)
    && (forall i, j | 0 <= i < j < |exts| :: exts[i] != exts[j])
  }

  /** Nothing blocked lies strictly above `M`. */
  ghost predicate Top(blocked: set<set<nat>>, M: set<nat>) {
    M in blocked && forall B | B in blocked && M <= B :: B == M
  }

  /** When no model above `M` is left, `M` is preferred. */
  lemma StuckIsPreferred(f: Graph, perf: bool, clauses: seq<Clause>, blocked: set<set<nat>>, M: set<nat>, ls: seq<Lit>)
    requires InSet(f, perf, M) && Top(blocked, M)
    requires Describes(f, perf, PR, clauses, blocked)
    requires forall m :: AllTrue(m, ls) <==> M <= In(m, Size(f))
    requires !Satisfiable(clauses, ls)
    ensures Preferred(f, M)
  {
    forall T | InSet(f, perf, T) && M <= T ensures T == M {
      var m :| CompleteModel(f, perf, m) && In(m, Size(f)) == T;
      assert BaseModel(f, perf, PR, m);
      assert AllTrue(m, ls);
      var B :| B in blocked && T <= B;
    }
    MaximalInSetsArePreferred(f, perf, M);
  }

  /** From a model of the clauses, climb to a preferred extension that was not listed before. */
  method NextPreferred(af: AF, solver: Solver, ghost blocked: set<set<nat>>, ghost exts: seq<set<nat>>)
      returns (noFurther: bool, extension: seq<bool>, ghost blocked': set<set<nat>>)
    requires af.Ready() && solver.assumptions == []
    requires Enumerated(af.Graph(), af.perfEnc, solver, blocked, exts)
    modifies solver, solver.tally
    ensures solver.tally.calls + |blocked| == old(solver.tally.calls) + 1 + if noFurther then |blocked| else |blocked'|
    ensures solver.assumptions == [] && |extension| == af.args
    ensures noFurther ==> !Satisfiable(solver.clauses, [])
    ensures noFurther ==> Enumerated(af.Graph(), af.perfEnc, solver, blocked, exts)
    ensures !noFurther ==> Trues(extension) !in exts
    ensures !noFurther ==> Trues(extension) in blocked'
    ensures !noFurther ==> Enumerated(af.Graph(), af.perfEnc, solver, blocked', exts + [Trues(extension)])
    ensures !noFurther ==> Unblocked(af.Graph(), blocked') < Unblocked(af.Graph(), blocked)
  {
    hide CompleteModel, InSet, Describes, Inside, Preferred, Admissible, Unblocked, Satisfiable;
    ghost var f, perf := af.Graph(), af.perfEnc;
    blocked' := blocked;
    extension := seq(af.args, i => false);
    noFurther := true;
    ghost var M: set<nat> := {};
    while true
      invariant |extension| == af.args && solver.decisionVars == af.args
      invariant Trues(extension) == M
      invariant Describes(f, perf, PR, solver.clauses, blocked')
      invariant noFurther ==> M == {} && solver.assumptions == [] && blocked' == blocked
      invariant !noFurther ==> InSet(f, perf, M) && Top(blocked', M) && M !in exts
      invariant !noFurther ==> Unblocked(f, blocked') < Unblocked(f, blocked)
      invariant solver.tally.calls + |blocked| == old(solver.tally.calls) + |blocked'|
      invariant forall B | B in blocked' :: InSet(f, perf, B)
      invariant forall m :: AllTrue(m, solver.assumptions) <==> M <= In(m, Size(f))
      invariant forall B | B in blocked' ::
                  Admissible(f, B) && (Preferred(f, B) ==> B in exts || (!noFurther && B == M))
      invariant forall E | E in exts :: Preferred(f, E) && E in blocked'
      decreases Unblocked(f, blocked')
    {
      ghost var query := solver.assumptions;
      var sat := solver.Solve();
      if !sat {
        if noFurther {
          assert query == [];
        } else {
          StuckIsPreferred(f, perf, solver.clauses, blocked', M, query);
        }
        break;
      }
      ghost var M' := Trues(solver.model);
      FoundUnblocked(f, perf, solver.clauses, blocked', solver.found);
      var clause: seq<Lit>;
      extension, clause := TakeModel(af, solver, extension);
      DescribesGrows(f, perf, PR, solver.clauses, blocked', M');
      solver.AddClause(clause);
      ClimbStep(f, perf, blocked', exts, M, M', noFurther);
      noFurther := false;
      NotYetBlocked(M', blocked');
      blocked' := blocked' + {M'};
      M := M';
    }
  }

  lemma FoundUnblocked(f: Graph, perf: bool, clauses: seq<Clause>, blocked: set<set<nat>>, m: Assignment)
    requires Describes(f, perf, PR, clauses, blocked) && Models(m, clauses)
    ensures InSet(f, perf, In(m, Size(f))) && !Inside(In(m, Size(f)), blocked)
  {
    assert BaseModel(f, perf, PR, m);
  }

  /** Blocking the larger model keeps the books: what was the top before is not preferred. */
  lemma ClimbStep(f: Graph, perf: bool, blocked: set<set<nat>>, exts: seq<set<nat>>,
                  M: set<nat>, M': set<nat>, first: bool)
    requires InSet(f, perf, M') && M <= M' && !Inside(M', blocked)
    requires !first ==> M in blocked
    requires forall B | B in blocked :: Admissible(f, B) && (Preferred(f, B) ==> B in exts || (!first && B == M))
    requires forall E | E in exts :: E in blocked
    ensures Top(blocked + {M'}, M') && M' !in exts
    ensures Unblocked(f, blocked + {M'}) < Unblocked(f, blocked)
    ensures forall B | B in blocked + {M'} :: Admissible(f, B) && (Preferred(f, B) ==> B in exts || B == M')
  {
    InSetIsGrounding(f, perf, M');
    BlockingShrinks(f, blocked, M');
    if !first {
      assert M' != M;
    }
  }

  /** One pass over a model: remember and assume its accepted arguments, list the others. */
  method TakeModel(af: AF, solver: Solver, extension: seq<bool>)
      returns (extension': seq<bool>, clause: seq<Lit>)
    requires af.Ready() && |extension| == |solver.model| == af.args && solver.assumptions == []
    requires Trues(extension) <= Trues(solver.model)
    modifies solver`assumptions
    ensures |extension'| == af.args && Trues(extension') == Trues(solver.model)
    ensures clause == Pick(af.args, Args(af.Graph()) - Trues(solver.model), 0, false)
    ensures forall m :: AllTrue(m, solver.assumptions) <==> Trues(solver.model) <= In(m, af.args)
  {
    ghost var f, M := af.Graph(), Trues(solver.model);
    extension', clause := extension, [];
    for i := 0 to af.args
      invariant |extension'| == |solver.model| == af.args && M == Trues(solver.model)
      invariant Trues(extension') <= M && forall x | x in M && x < i :: x in Trues(extension')
      invariant clause == Pick(i, Args(f) - M, 0, false)
      invariant solver.assumptions == Pick(i, M, 0, false)
    {
      if solver.model[i] {
        extension' := extension'[i := true];
        solver.Assume(af.acceptedVar[i]);
      } else {
        clause := clause + [af.acceptedVar[i]];
      }
    }
    assert Trues(extension') == M;
    forall m ensures AllTrue(m, solver.assumptions) <==> M <= In(m, af.args) {
      PickAllTrue(m, af.args, M, 0);
      assert forall i: nat :: Acc(m, 0, i) <==> Chosen(m, i);
    }
  }

  method IntersectExtension(af: AF, extension: seq<bool>, included: seq<bool>)
      returns (included': seq<bool>, clause: seq<Lit>)
    requires af.Ready() && |extension| == |included| == af.args
    ensures |included'| == af.args
    ensures forall k | 0 <= k < af.args :: included'[k] <==> included[k] && k in Trues(extension)
    ensures clause == Pick(af.args, Args(af.Graph()) - Trues(extension), 0, false)
  {
    included', clause := included, [];
    for i := 0 to af.args
      invariant |included'| == af.args
      invariant forall k | 0 <= k < i :: included'[k] <==> included[k] && k in Trues(extension)
      invariant forall k | i <= k < af.args :: included'[k] == included[k]
      invariant clause == Pick(i, Args(af.Graph()) - Trues(extension), 0, false)
    {
      included' := included'[i := included'[i] && extension[i]];
      if !extension[i] {
        clause := clause + [af.acceptedVar[i]];
      }
    }
  }

  /** Every preferred extension is listed exactly once, and `included` is what they share. */
  method PreferredExtensions(af: AF, ghost tally: Tally) returns (included: seq<bool>, ghost exts: seq<set<nat>>)
    requires af.Ready()
    modifies tally
    ensures tally.calls <= old(tally.calls) + |InSets(af.Graph(), af.perfEnc)| + |exts| + 1
    ensures forall S :: S in exts <==> Preferred(af.Graph(), S)
    ensures forall i, j | 0 <= i < j < |exts| :: exts[i] != exts[j]
    ensures |included| == af.args && Trues(included) == SkepticalSet(af.Graph(), PR)
  {
    hide CompleteModel, InSet, InSets, Describes, Inside, Preferred, Admissible, Unblocked, Satisfiable, SkepticalSet;
    ghost var f, perf := af.Graph(), af.perfEnc;
    included := seq(af.args, i => true);
    var solver := new Solver(af.args, tally);
    AddComplete(af, solver);
    NothingBlocked(f, perf, solver.clauses);
    exts := [];
    ghost var blocked: set<set<nat>> := {};
    while true
      invariant solver.assumptions == [] && fresh(solver) && solver.tally == tally
      invariant tally.calls == old(tally.calls) + |blocked| + |exts|
      invariant Enumerated(f, perf, solver, blocked, exts)
      invariant Meets(f, included, exts)
      decreases Unblocked(f, blocked)
    {
      var noFurther, extension;
      ghost var blocked';
      noFurther, extension, blocked' := NextPreferred(af, solver, blocked, exts);
      if noFurther {
        break;
      }
      ghost var E, before := Trues(extension), included;
      var clause;
      included, clause := IntersectExtension(af, extension, included);
      DescribesGrows(f, perf, PR, solver.clauses, blocked', E);
      assert blocked' + {E} == blocked';
      solver.AddClause(clause);
      blocked := blocked';
      MeetsGrows(f, before, included, exts, E);
      exts := exts + [E];
    }
    AtMostInSets(f, perf, blocked);
    AllListed(f, perf, solver.clauses, blocked, exts);
    SharedByAll(f, PR, included, exts);
  }

  /** With nothing left to find, every preferred extension is listed. */
  lemma AllListed(f: Graph, perf: bool, clauses: seq<Clause>, blocked: set<set<nat>>, exts: seq<set<nat>>)
    requires Describes(f, perf, PR, clauses, blocked) && !Satisfiable(clauses, [])
    requires forall B | B in blocked :: Admissible(f, B) && (Preferred(f, B) ==> B in exts)
    requires forall E | E in exts :: Preferred(f, E)
    ensures forall S :: S in exts <==> Preferred(f, S)
    ensures forall S :: S in exts <==> Extension(f, PR, S)
  {
    forall S | Preferred(f, S) ensures S in exts {
      PreferredIsInSet(f, perf, S);
      var m :| CompleteModel(f, perf, m) && In(m, Size(f)) == S;
      assert BaseModel(f, perf, PR, m) && AllTrue(m, []);
      assert Inside(S, blocked);
    }
  }

  // ----- Skeptical acceptance, stable semantics -----

  /** Every stable extension is listed exactly once, and `included` is what they share
      (every argument if there is none). */
  method StableExtensions(af: AF, ghost tally: Tally) returns (included: seq<bool>, ghost exts: seq<set<nat>>)
    requires af.Ready()
    modifies tally
    ensures tally.calls == old(tally.calls) + |exts| + 1
    ensures forall S :: S in exts <==> Stable(af.Graph(), S)
    ensures forall i, j | 0 <= i < j < |exts| :: exts[i] != exts[j]
    ensures |included| == af.args && Trues(included) == SkepticalSet(af.Graph(), ST)
  {
    ghost var f := af.Graph();
    included := seq(af.args, i => true);
    var solver := new Solver(af.args, tally);
    AddStable(af, solver);
    exts := [];
    while true
      invariant solver.assumptions == [] && solver.decisionVars == af.args
      invariant tally.calls == old(tally.calls) + |exts|
      invariant forall m :: Models(m, solver.clauses) <==> StableModel(f, m) && In(m, Size(f)) !in exts
      invariant forall E | E in exts :: Stable(f, E)
      invariant forall i, j | 0 <= i < j < |exts| :: exts[i] != exts[j]
      invariant Meets(f, included, exts)
      decreases Unseen(f, Members(exts))
    {
      var sat := solver.Solve();
      if !sat {
        break;
      }
      ghost var E := Trues(solver.model);
      StableModelIsStable(f, solver.found);
      ghost var before := included;
      var complementClause;
      included, complementClause := IntersectModel(af, solver.model, included);
      solver.AddClause(complementClause);
      forall m | StableModel(f, m) ensures Holds(m, complementClause) <==> In(m, Size(f)) != E {
        BlocksOnlyItself(f, m, E);
      }
      assert E in Unseen(f, Members(exts)) && E !in Unseen(f, Members(exts + [E]));
      assert Unseen(f, Members(exts + [E])) < Unseen(f, Members(exts));
      MeetsGrows(f, before, included, exts, E);
      exts := exts + [E];
    }
    forall S | Stable(f, S) ensures S in exts {
      var m := StableHasModel(f, S);
      assert AllTrue(m, []);
    }
    SharedByAll(f, ST, included, exts);
  }

  /** What all extensions share is what is skeptically accepted. */
  lemma SharedByAll(f: Graph, sem: Semantics, included: seq<bool>, exts: seq<set<nat>>)
    requires Meets(f, included, exts) && forall S :: S in exts <==> Extension(f, sem, S)
    ensures Trues(included) == SkepticalSet(f, sem)
  {
    forall i ensures i in SkepticalSet(f, sem) <==> i in Trues(included) {
      if 0 <= i < Size(f) {
        assert included[i] <==> forall E | E in exts :: i in E;
      }
    }
  }

  method IntersectModel(af: AF, model: seq<bool>, included: seq<bool>)
      returns (included': seq<bool>, complementClause: seq<Lit>)
    requires af.Ready() && |model| == |included| == af.args
    ensures |included'| == af.args
    ensures forall k | 0 <= k < af.args :: included'[k] <==> included[k] && k in Trues(model)
    ensures complementClause == Pick(af.args, Trues(model), 0, true)
  {
    included', complementClause := included, [];
    for i := 0 to af.args
      invariant |included'| == af.args
      invariant forall k | 0 <= k < i :: included'[k] <==> included[k] && k in Trues(model)
      invariant forall k | i <= k < af.args :: included'[k] == included[k]
      invariant complementClause == Pick(i, Trues(model), 0, true)
    {
      included' := included'[i := included'[i] && model[i]];
      if model[i] {
        complementClause := complementClause + [-af.acceptedVar[i]];
      }
    }
  }

  lemma MeetsGrows(f: Graph, before: seq<bool>, included: seq<bool>, exts: seq<set<nat>>, E: set<nat>)
    requires Meets(f, before, exts) && |included| == Size(f)
    requires forall k | 0 <= k < Size(f) :: included[k] <==> before[k] && k in E
    ensures Meets(f, included, exts + [E])
  {
    forall i ensures (forall X | X in exts + [E] :: i in X) <==> (forall X | X in exts :: i in X) && i in E {
      assert E in exts + [E];
      assert forall X | X in exts :: X in exts + [E];
    }
  }

  ghost function Members(exts: seq<set<nat>>): set<set<nat>> {
    set E | E in exts
  }

  ghost function Extensions(f: Graph, sem: Semantics): set<set<nat>> {
    set S | S <= Args(f) && Extension(f, sem, S)
  }

  lemma CountExtensions(f: Graph, sem: Semantics, exts: seq<set<nat>>)
    requires forall S :: S in exts <==> Extension(f, sem, S)
    requires forall i, j | 0 <= i < j < |exts| :: exts[i] != exts[j]
    requires sem == PR || sem == ST
    ensures |Extensions(f, sem)| == |exts|
  {
    assert Members(exts) == Extensions(f, sem);
    CountMembers(exts);
  }

  lemma {:induction false} CountMembers(exts: seq<set<nat>>)
    requires forall i, j | 0 <= i < j < |exts| :: exts[i] != exts[j]
    ensures |Members(exts)| == |exts|
  {
    if exts != [] {
      var last := |exts| - 1;
      CountMembers(exts[..last]);
      assert Members(exts) == Members(exts[..last]) + {exts[last]};
    }
  }

  /** The clause against all supersets of a stable extension removes that extension only. */
  lemma BlocksOnlyItself(f: Graph, m: Assignment, E: set<nat>)
    requires StableModel(f, m) && Stable(f, E)
    ensures Holds(m, Pick(Size(f), E, 0, true)) <==> In(m, Size(f)) != E
  {
    PickHolds(m, Size(f), E, 0, true);
    assert forall i: nat :: Acc(m, 0, i) <==> Chosen(m, i);
    assert Holds(m, Pick(Size(f), E, 0, true)) <==> !(E <= In(m, Size(f)));
    StableModelIsStable(f, m);
    if E <= In(m, Size(f)) {
      StableAntichain(f, E, In(m, Size(f)));
    }
  }

  method EeeSkep(af: AF, sem: Semantics, ghost tally: Tally) returns (r: Answer)
    requires af.Ready()
    modifies tally
    ensures sem == ST ==> tally.calls == old(tally.calls) + |Extensions(af.Graph(), ST)| + 1
    ensures sem == PR ==>
              tally.calls <= old(tally.calls) + |InSets(af.Graph(), af.perfEnc)| + |Extensions(af.Graph(), PR)| + 1
    ensures r.Unsupported? <==> sem != PR && sem != ST
    ensures r.Listed? ==> Increasing(r.args) && Elements(r.args) == SkepticalSet(af.Graph(), sem)
  {
    var included: seq<bool>;
    ghost var exts: seq<set<nat>>;
    if sem == PR {
      included, exts := PreferredExtensions(af, tally);
      CountExtensions(af.Graph(), PR, exts);
    } else if sem == ST {
      included, exts := StableExtensions(af, tally);
      CountExtensions(af.Graph(), ST, exts);
    } else {
      return Unsupported;
    }
    var result := Indices(included);
    r := Listed(result);
  }
}
