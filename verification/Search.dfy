/** What the enumeration loops share: the semantics they are asked for, the clauses and
    assumptions they build from a set of arguments, and the measure by which they end. */
module Search {
  import opened Sat
  import opened SatSolver
  import opened Frameworks
  import opened ArgumentationFramework
  import opened Encodings
  import opened Correspondence

  datatype Semantics = CO | ST | PR | UNKNOWN_SEM

  /** The answer of an algorithm; `Unsupported` stands for its exit with an error message. */
  datatype Answer = Listed(args: seq<nat>) | Unsupported

  ghost predicate Extension(f: Graph, sem: Semantics, S: set<nat>) {
    match sem
    case CO => Complete(f, S)
    case ST => Stable(f, S)
    case PR => Preferred(f, S)
    case UNKNOWN_SEM => false
  }

  ghost predicate Credulous(f: Graph, sem: Semantics, a: nat) {
    exists S :: Extension(f, sem, S) && a in S
  }

  ghost predicate Skeptical(f: Graph, sem: Semantics, a: nat) {
    forall S | Extension(f, sem, S) :: a in S
  }

  ghost function CredulousSet(f: Graph, sem: Semantics): set<nat> {
    set a | a in Args(f) && Credulous(f, sem, a)
  }

  ghost function SkepticalSet(f: Graph, sem: Semantics): set<nat> {
    set a | a in Args(f) && Skeptical(f, sem, a)
  }

  function Elements(xs: seq<nat>): set<nat> {
    set x | x in xs
  }

  ghost predicate Distinct(xs: seq<nat>) {
    forall i, j | 0 <= i < j < |xs| :: xs[i] != xs[j]
  }

  ghost predicate Increasing(xs: seq<nat>) {
    forall i, j | 0 <= i < j < |xs| :: xs[i] < xs[j]
  }

  lemma IncreasingAppend(xs: seq<nat>, x: nat)
    requires Increasing(xs) && forall y | y in xs :: y < x
    ensures Increasing(xs + [x])
  {
    forall i | 0 <= i < |xs| ensures xs[i] < x {
      assert xs[i] in xs;
    }
  }

  lemma AppendNew(xs: seq<nat>, x: nat)
    requires Distinct(xs) && x !in xs
    ensures Distinct(xs + [x]) && Elements(xs + [x]) == Elements(xs) + {x}
  {}

  lemma {:induction false} DistinctSize(xs: seq<nat>)
    requires Distinct(xs)
    ensures |Elements(xs)| == |xs|
  {
    if xs != [] {
      var last := |xs| - 1;
      DistinctSize(xs[..last]);
      assert Elements(xs) == Elements(xs[..last]) + {xs[last]};
    }
  }

  // ----- The encoding chosen for a semantics -----

  ghost predicate BaseModel(f: Graph, perf: bool, sem: Semantics, m: Assignment) {
    if sem == ST then StableModel(f, m) else CompleteModel(f, perf, m)
  }

  method Encode(af: AF, solver: Solver, sem: Semantics)
    requires af.Ready() && sem != UNKNOWN_SEM
    modifies solver`clauses
    ensures forall m :: Models(m, solver.clauses) <==>
                        Models(m, old(solver.clauses)) && BaseModel(af.Graph(), af.perfEnc, sem, m)
  {
    if sem == CO || sem == PR {
      AddComplete(af, solver);
    } else {
      AddStable(af, solver);
    }
  }

  lemma CredulousByModel(f: Graph, perf: bool, sem: Semantics, a: nat)
    requires sem != UNKNOWN_SEM && a in Args(f)
    ensures Credulous(f, sem, a) <==> exists m :: BaseModel(f, perf, sem, m) && a in In(m, Size(f))
  {
    if sem == ST {
      if S :| Stable(f, S) && a in S {
        var m := StableHasModel(f, S);
        assert BaseModel(f, perf, sem, m);
      }
      if m :| BaseModel(f, perf, sem, m) && a in In(m, Size(f)) {
        StableModelIsStable(f, m);
        assert Extension(f, sem, In(m, Size(f)));
      }
    } else {
      CredulousAgree(f, perf, a);
      if Credulous(f, sem, a) {
        var S :| Extension(f, sem, S) && a in S;
        assert CredulouslyComplete(f, a) || CredulouslyPreferred(f, a);
        var T :| InSet(f, perf, T) && a in T;
        var m :| CompleteModel(f, perf, m) && In(m, Size(f)) == T;
        assert BaseModel(f, perf, sem, m);
      }
      if m :| BaseModel(f, perf, sem, m) && a in In(m, Size(f)) {
        assert InSet(f, perf, In(m, Size(f)));
        if sem == CO {
          var S :| Complete(f, S) && a in S;
          assert Extension(f, sem, S);
        } else {
          var S :| Preferred(f, S) && a in S;
          assert Extension(f, sem, S);
        }
      }
    }
  }

  /** What a model accepts is credulously accepted. */
  lemma AcceptedAreCredulous(f: Graph, perf: bool, sem: Semantics, m: Assignment)
    requires sem != UNKNOWN_SEM && BaseModel(f, perf, sem, m)
    ensures In(m, Size(f)) <= CredulousSet(f, sem)
  {
    forall a | a in In(m, Size(f)) ensures a in CredulousSet(f, sem) {
      CredulousByModel(f, perf, sem, a);
    }
  }

  // ----- Clauses over the arguments of a set -----

  /** The literals of the indices below `k` in `X`: variable `shift + i + 1`, negated if asked. */
  function Pick(k: nat, X: set<nat>, shift: nat, negated: bool): (c: Clause) {
    if k == 0 then []
    else
      var v: int := shift + k;
      var l: Lit := if negated then -v else v;
      Pick(k - 1, X, shift, negated) + (if k - 1 in X then [l] else [])
  }

  lemma {:induction false} PickHolds(m: Assignment, k: nat, X: set<nat>, shift: nat, negated: bool)
    ensures Holds(m, Pick(k, X, shift, negated)) <==>
            exists i :: i in X && i < k && (Acc(m, shift, i) <==> !negated)
  {
    if k == 0 {
      assert !Holds(m, []);
    } else {
      PickHolds(m, k - 1, X, shift, negated);
      var v: int := shift + k;
      var l: Lit := if negated then -v else v;
      HoldsAppend(m, Pick(k - 1, X, shift, negated), l);
      assert Acc(m, shift, k - 1) <==> v in m;
    }
  }

  /** The positive clause over `X` asks for a member of `X`. */
  lemma PickMeets(m: Assignment, n: nat, X: set<nat>)
    ensures Holds(m, Pick(n, X, 0, false)) <==> exists i :: i in X && i in In(m, n)
  {
    PickHolds(m, n, X, 0, false);
    assert forall i: nat :: Acc(m, 0, i) <==> Chosen(m, i);
  }

  /** The positive clause over what `B` lacks asks not to be inside `B`. */
  lemma PickOutside(f: Graph, m: Assignment, B: set<nat>)
    ensures Holds(m, Pick(Size(f), Args(f) - B, 0, false)) <==> !(In(m, Size(f)) <= B)
  {
    PickMeets(m, Size(f), Args(f) - B);
    forall i | i in In(m, Size(f)) ensures i in Args(f) {}
  }

  /** The literals of `X` as assumptions ask for all of `X`. */
  lemma {:induction false} PickAllTrue(m: Assignment, k: nat, X: set<nat>, shift: nat)
    ensures AllTrue(m, Pick(k, X, shift, false)) <==> forall i | i in X && i < k :: Acc(m, shift, i)
  {
    if k > 0 {
      PickAllTrue(m, k - 1, X, shift);
      AllTrueAppend(m, Pick(k - 1, X, shift, false), shift + k);
      assert Acc(m, shift, k - 1) <==> shift + k in m;
    }
  }

  // ----- The measure of an enumeration that blocks what it has seen -----

  ghost predicate Inside(S: set<nat>, blocked: set<set<nat>>) {
    exists B | B in blocked :: S <= B
  }

  /** The sets of arguments not yet inside a blocked one. */
  ghost function Unblocked(f: Graph, blocked: set<set<nat>>): set<set<nat>> {
    set S | S <= Args(f) && !Inside(S, blocked)
  }

  /** The accepted sets of the models of the complete encoding. */
  ghost function InSets(f: Graph, perf: bool): set<set<nat>> {
    set S | S <= Args(f) && InSet(f, perf, S)
  }

  lemma AtMostInSets(f: Graph, perf: bool, blocked: set<set<nat>>)
    requires forall B | B in blocked :: InSet(f, perf, B)
    ensures |blocked| <= |InSets(f, perf)|
  {
    forall B | B in blocked ensures B in InSets(f, perf) {
      InSetIsGrounding(f, perf, B);
    }
    SubsetSize(blocked, InSets(f, perf));
  }

  lemma NotYetBlocked(M: set<nat>, blocked: set<set<nat>>)
    requires !Inside(M, blocked)
    ensures M !in blocked && |blocked + {M}| == |blocked| + 1
  {}

  lemma InsideGrows(S: set<nat>, blocked: set<set<nat>>, B: set<nat>)
    ensures Inside(S, blocked + {B}) <==> Inside(S, blocked) || S <= B
  {
    if Inside(S, blocked) {
      var C :| C in blocked && S <= C;
      assert C in blocked + {B};
    }
    assert B in blocked + {B};
  }

  lemma BlockingShrinks(f: Graph, blocked: set<set<nat>>, B: set<nat>)
    requires B <= Args(f) && !Inside(B, blocked)
    ensures Unblocked(f, blocked + {B}) < Unblocked(f, blocked)
  {
    forall S: set<nat> ensures Inside(S, blocked + {B}) <==> Inside(S, blocked) || S <= B {
      InsideGrows(S, blocked, B);
    }
    assert B in Unblocked(f, blocked) && B !in Unblocked(f, blocked + {B});
  }

  lemma BlockingMonotone(f: Graph, blocked: set<set<nat>>, blocked': set<set<nat>>)
    requires blocked <= blocked'
    ensures Unblocked(f, blocked') <= Unblocked(f, blocked)
  {
    forall S | Inside(S, blocked) ensures Inside(S, blocked') {
      var B :| B in blocked && S <= B;
    }
  }

  /** The clauses describe the base models whose accepted set is not inside a blocked one. */
  ghost predicate Describes(f: Graph, perf: bool, sem: Semantics, clauses: seq<Clause>, blocked: set<set<nat>>) {
    forall m :: Models(m, clauses) <==>
                BaseModel(f, perf, sem, m) && !Inside(In(m, Size(f)), blocked)
  }

  lemma NothingBlocked(f: Graph, perf: bool, clauses: seq<Clause>)
    requires forall m :: Models(m, clauses) <==> CompleteModel(f, perf, m)
    ensures Describes(f, perf, PR, clauses, {})
  {}

  lemma DescribesGrows(f: Graph, perf: bool, sem: Semantics, clauses: seq<Clause>, blocked: set<set<nat>>, B: set<nat>)
    requires Describes(f, perf, sem, clauses, blocked)
    ensures Describes(f, perf, sem, clauses + [Pick(Size(f), Args(f) - B, 0, false)], blocked + {B})
  {
    var c := Pick(Size(f), Args(f) - B, 0, false);
    forall m
      ensures Models(m, clauses + [c]) <==>
              BaseModel(f, perf, sem, m) && !Inside(In(m, Size(f)), blocked + {B})
    {
      ModelsAppend(m, clauses, c);
      PickOutside(f, m, B);
      InsideGrows(In(m, Size(f)), blocked, B);
    }
  }

  /** The indices that are set, in ascending order. */
  method Indices(bits: seq<bool>) returns (xs: seq<nat>)
    ensures Increasing(xs) && Elements(xs) == Trues(bits)
  {
    xs := [];
    for i := 0 to |bits|
      invariant Increasing(xs) && forall x | x in xs :: x < i
      invariant forall x: nat :: x in xs <==> x < i && bits[x]
    {
      if bits[i] {
        IncreasingAppend(xs, i);
        xs := xs + [i];
      }
    }
  }

  // ----- Narrowing down what all stable extensions share -----

  ghost predicate AllDroppedFail(f: Graph, I: set<nat>) {
    forall i | i in Args(f) && i !in I :: exists S :: Stable(f, S) && i !in S
  }

  lemma DroppedAreNotSkeptical(f: Graph, M: set<nat>, I: set<nat>, I': set<nat>)
    requires Stable(f, M) && I' == I * M && AllDroppedFail(f, I)
    ensures AllDroppedFail(f, I')
  {}

  /** `I` is the intersection of the stable extensions when each keeps all of it and every
      argument outside is missing from one of them. */
  lemma SharedIsSkeptical(f: Graph, I: set<nat>)
    requires I <= Args(f) && AllDroppedFail(f, I)
    requires forall S | Stable(f, S) :: I <= S
    ensures I == SkepticalSet(f, ST)
  {
    forall i | i in I ensures Skeptical(f, ST, i) {
      forall S | Extension(f, ST, S) ensures i in S {}
    }
    forall i | i in Args(f) && i !in I ensures !Skeptical(f, ST, i) {
      var S :| Stable(f, S) && i !in S;
      assert Extension(f, ST, S);
    }
  }

  lemma SizeOfArgs(f: Graph)
    ensures |Args(f)| == Size(f)
  {
    SizeOfRange(Size(f));
    assert Args(f) == (set i: nat | i < Size(f) && IsArg(f, i));
    assert Args(f) == Range0(Size(f));
  }

  function Range0(n: nat): (s: set<nat>)
    ensures forall i: nat :: i in s <==> i < n
  {
    if n == 0 then {} else Range0(n - 1) + {n - 1}
  }

  lemma {:induction false} SizeOfRange(n: nat)
    ensures |Range0(n)| == n
  {
    if n > 0 {
      SizeOfRange(n - 1);
    }
  }
}
