/** The incremental solver object.  Its contract leaves open which model `Solve`
    finds, so whatever is proved of a client holds for every solver behind it. */
module SatSolver {
  import opened Sat

  /** Decision variable `i + 1` stands for index `i`. */
  predicate Chosen(m: Assignment, i: nat) {
    i + 1 in m
  }

  /** The indices below `n` whose decision variable is true. */
  function In(m: Assignment, n: nat): (s: set<nat>)
  {
    set i: nat | i < n && Chosen(m, i)
  }

  function Trues(bits: seq<bool>): (s: set<nat>) {
    set i: nat | i < |bits| && bits[i]
  }

  /** Counts the queries to all solvers that share it. */
  class Tally {
    ghost var calls: nat

    constructor ()
      ensures calls == 0
    {
      calls := 0;
    }
  }

  class Solver {
    const decisionVars: nat
    ghost const tally: Tally
    var clauses: seq<Clause>
    var assumptions: seq<Lit>
    var model: seq<bool>
    var extension: seq<nat>
    ghost var found: Assignment  // the full assignment behind `model`
    var soft: set<Lit>           // soft literals of weight one
    var softBound: nat           // no soft literal lies above this variable
    var cost: nat

    ghost predicate Valid()
      reads this
    {
      forall l | l in soft :: Abs(l) <= softBound
    }

    constructor (decisionVars: nat, ghost tally: Tally)
      ensures this.decisionVars == decisionVars && this.tally == tally
      ensures clauses == [] && assumptions == []
      ensures forall m :: Models(m, clauses)
      ensures Valid() && soft == {}
    {
      this.decisionVars, this.tally := decisionVars, tally;
      clauses, assumptions := [], [];
      model, extension := [], [];
      found := {};
      soft, softBound, cost := {}, 0, 0;
    }

    method AddClause(c: Clause)
      modifies this`clauses
      ensures clauses == old(clauses) + [c]
      ensures forall m :: Models(m, clauses) <==> Models(m, old(clauses)) && Holds(m, c)
    {
      clauses := clauses + [c];
      forall m ensures Models(m, clauses) <==> Models(m, old(clauses)) && Holds(m, c) {
        ModelsAppend(m, old(clauses), c);
      }
    }

    method AddClause1(a: Lit)
      modifies this`clauses
      ensures clauses == old(clauses) + [[a]]
      ensures forall m :: Models(m, clauses) <==> Models(m, old(clauses)) && True(m, a)
    {
      AddClause([a]);
      assert forall m :: Holds(m, [a]) <==> True(m, a) by { assert a in [a]; }
    }

    method AddClause2(a: Lit, b: Lit)
      modifies this`clauses
      ensures clauses == old(clauses) + [[a, b]]
      ensures forall m :: Models(m, clauses) <==> Models(m, old(clauses)) && (True(m, a) || True(m, b))
    {
      AddClause([a, b]);
      assert forall m :: Holds(m, [a, b]) <==> True(m, a) || True(m, b) by {
        assert a in [a, b] && b in [a, b];
      }
    }

    method AddClause3(a: Lit, b: Lit, c: Lit)
      modifies this`clauses
      ensures clauses == old(clauses) + [[a, b, c]]
      ensures forall m :: Models(m, clauses) <==>
                          Models(m, old(clauses)) && (True(m, a) || True(m, b) || True(m, c))
    {
      AddClause([a, b, c]);
      assert forall m :: Holds(m, [a, b, c]) <==> True(m, a) || True(m, b) || True(m, c) by {
        assert a in [a, b, c] && b in [a, b, c] && c in [a, b, c];
      }
    }

    method Assume(l: Lit)
      modifies this`assumptions
      ensures assumptions == old(assumptions) + [l]
      ensures forall m :: AllTrue(m, assumptions) <==> AllTrue(m, old(assumptions)) && True(m, l)
    {
      assumptions := assumptions + [l];
      forall m ensures AllTrue(m, assumptions) <==> AllTrue(m, old(assumptions)) && True(m, l) {
        AllTrueAppend(m, old(assumptions), l);
      }
    }

    /** Decide the clauses under the pending assumptions, which are then dropped.
        On success `model` and `extension` show the decision variables of some model. */
    method Solve() returns (sat: bool)
      modifies this`assumptions, this`model, this`extension, this`found, tally
      ensures assumptions == [] && tally.calls == old(tally.calls) + 1
      ensures sat <==> Satisfiable(clauses, old(assumptions))
      ensures sat ==> Models(found, clauses) && AllTrue(found, old(assumptions))
      ensures sat ==> |model| == decisionVars && Trues(model) == In(found, decisionVars)
      ensures sat ==> (forall i :: i in extension <==> i in In(found, decisionVars))
      ensures sat ==> forall i, j :: 0 <= i < j < |extension| ==> extension[i] < extension[j]
      ensures !sat ==> model == old(model) && extension == old(extension)
    {
      tally.calls := tally.calls + 1;
      FindModelDecides(clauses, assumptions);
      var r := FindModel(clauses, assumptions, MaxVars(clauses + [assumptions]), {});
      assumptions := [];
      sat := r.Some?;
      if sat {
        found := r.value;
        model, extension := [], [];
        for i := 1 to decisionVars + 1
          invariant found == r.value && assumptions == [] && tally.calls == old(tally.calls) + 1
          invariant |model| == i - 1
          invariant forall k :: 0 <= k < i - 1 ==> (model[k] <==> Chosen(found, k))
          invariant forall k: nat :: k in extension <==> k < i - 1 && Chosen(found, k)
          invariant forall a, b :: 0 <= a < b < |extension| ==> extension[a] < extension[b]
        {
          if i in r.value {
            assert forall a :: 0 <= a < |extension| ==> extension[a] in extension;
            model, extension := model + [true], extension + [i - 1];
          } else {
            model := model + [false];
          }
        }
      }
    }

    /** Give the literal weight one, whatever weight it had. */
    method AddSoftConstraint(l: Lit)
      requires Valid()
      modifies this`soft, this`softBound
      ensures Valid() && soft == old(soft) + {l}
    {
      soft := soft + {l};
      softBound := if softBound < Abs(l) then Abs(l) else softBound;
    }

    /** Give the literal weight zero. */
    method DisableSoftConstraint(l: Lit)
      requires Valid()
      modifies this`soft
      ensures Valid() && soft == old(soft) - {l}
    {
      soft := soft - {l};
    }

    /** Find a model of least cost. */
    method SolveOptimal() returns (sat: bool)
      requires Valid() && assumptions == []
      modifies this`model, this`found, this`cost, tally
      ensures tally.calls == old(tally.calls) + 1
      ensures sat <==> Satisfiable(clauses, [])
      ensures sat ==> Models(found, clauses) && cost == Cost(found, soft)
      ensures sat ==> forall m | Models(m, clauses) :: cost <= Cost(m, soft)
      ensures sat ==> |model| == decisionVars && Trues(model) == In(found, decisionVars)
      ensures !sat ==> model == old(model) && cost == old(cost)
    {
      tally.calls := tally.calls + 1;
      var bound := MaxVars(clauses);
      bound := if bound < softBound then softBound else bound;
      var r := FindCheapest(clauses, soft, bound, {});
      forall w | Models(w, clauses) ensures r.Some? && Cost(r.value, soft) <= Cost(w, soft) {
        FindCheapestOptimal(clauses, soft, bound, {}, w);
      }
      sat := r.Some?;
      if sat {
        assert AllTrue(r.value, []);
        found := r.value;
        cost := Cost(r.value, soft);
        model := [];
        for i := 1 to decisionVars + 1
          invariant found == r.value && cost == Cost(r.value, soft) && tally.calls == old(tally.calls) + 1
          invariant |model| == i - 1
          invariant forall k :: 0 <= k < i - 1 ==> (model[k] <==> Chosen(found, k))
        {
          model := model + [i in r.value];
        }
      }
    }

    /** As `Solve`, after assuming every literal of `ls`. */
    method SolveWith(ls: seq<Lit>) returns (sat: bool)
      requires assumptions == []
      modifies this`assumptions, this`model, this`extension, this`found, tally
      ensures assumptions == [] && tally.calls == old(tally.calls) + 1
      ensures sat <==> Satisfiable(clauses, ls)
      ensures sat ==> Models(found, clauses) && AllTrue(found, ls)
      ensures sat ==> |model| == decisionVars && Trues(model) == In(found, decisionVars)
      ensures !sat ==> model == old(model) && extension == old(extension)
    {
      for i := 0 to |ls|
        invariant assumptions == ls[..i]
        invariant model == old(model) && extension == old(extension) && tally.calls == old(tally.calls)
      {
        Assume(ls[i]);
      }
      assert ls[..|ls|] == ls;
      sat := Solve();
    }
  }
}
