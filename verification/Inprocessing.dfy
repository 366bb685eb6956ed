/** Clause-removing inprocessing: the simplifier's state, resolution with on-the-fly
    self-subsumption and gate-free variable elimination.  Models of the original clauses stay
    models, and every model of what is left can be extended to one of them. */
module Inprocessing {
  import opened Sat
  import opened Reconstruction

  /** No literal twice, and none together with its negation. */
  ghost predicate Proper(c: Clause, maxVar: nat) {
    && DistinctLits(c)
    && (forall l | l in c :: Neg(l) !in c && Abs(l) <= maxVar)
  }

  /** Every live clause is listed under each of its literals. */
  ghost predicate Connected(db: Formula, occs: map<Lit, seq<nat>>) {
    && (forall i: nat, l {:trigger Live(db, i), l in db.lits[i]} | Live(db, i) && l in db.lits[i] ::
          l in occs && i in occs[l])
    && (forall l, i {:trigger i in occs[l]} | l in occs && i in occs[l] :: i < |db.lits| && l in db.lits[i])
  }

  ghost predicate Sane(db: Formula, maxVar: nat, removed: set<nat>) {
    && |db.lits| == |db.garbage|
    && (forall i | 0 <= i < |db.lits| :: Proper(db.lits[i], maxVar))
    && (forall l | l in db.fixed :: Neg(l) !in db.fixed)
    && (forall i: nat, l {:trigger Live(db, i), l in db.lits[i]} | Live(db, i) && l in db.lits[i] ::
          Abs(l) !in removed)
  }

  /** The value of a literal under the root-level units. */
  function ValueOf(fixed: set<Lit>, l: Lit): int {
    if l in fixed then 1 else if Neg(l) in fixed then -1 else 0
  }

  // ----- What resolution knows -----

  /** The literals of `c` other than `skip` that no unit decides. */
  ghost function Rest(fixed: set<Lit>, c: Clause, skip: Lit): set<Lit> {
    set l | l in c && l != skip && ValueOf(fixed, l) == 0
  }

  ghost predicate Unsatisfied(fixed: set<Lit>, c: Clause, skip: Lit) {
    forall l | l in c && l != skip :: ValueOf(fixed, l) <= 0
  }

  /** `r` holds exactly the undecided literals of the resolvent. */
  ghost predicate IsResolvent(fixed: set<Lit>, r: Clause, c: Clause, d: Clause, pivot: Lit) {
    Members(r) == Rest(fixed, c, pivot) + Rest(fixed, d, Neg(pivot))
  }

  lemma RestHolds(m: Assignment, fixed: set<Lit>, c: Clause, skip: Lit)
    requires Holds(m, c) && Unsatisfied(fixed, c, skip)
    requires forall l | l in fixed :: True(m, l)
    ensures True(m, skip) || exists l :: l in Rest(fixed, c, skip) && True(m, l)
  {
    var k :| k in c && True(m, k);
    if k != skip {
      if Neg(k) in fixed {
        assert True(m, Neg(k));
        SameVariable(k, k);
      }
      assert k in Rest(fixed, c, skip);
    }
  }

  /** The resolvent is implied. */
  lemma ResolventHolds(m: Assignment, fixed: set<Lit>, r: Clause, c: Clause, d: Clause, pivot: Lit)
    requires Holds(m, c) && Holds(m, d) && IsResolvent(fixed, r, c, d, pivot)
    requires Unsatisfied(fixed, c, pivot) && Unsatisfied(fixed, d, Neg(pivot))
    requires forall l | l in fixed :: True(m, l)
    ensures Holds(m, r)
  {
    RestHolds(m, fixed, c, pivot);
    RestHolds(m, fixed, d, Neg(pivot));
    SameVariable(pivot, pivot);
    if l :| l in Rest(fixed, c, pivot) && True(m, l) {
      assert l in Members(r);
    } else {
      var l :| l in Rest(fixed, d, Neg(pivot)) && True(m, l);
      assert l in Members(r);
    }
  }

  /** A true resolvent makes one of the antecedents true without the pivot. */
  lemma ResolventCovers(m: Assignment, fixed: set<Lit>, r: Clause, c: Clause, d: Clause, pivot: Lit)
    requires Holds(m, r) && IsResolvent(fixed, r, c, d, pivot)
    ensures HoldsBut(m, c, pivot) || HoldsBut(m, d, Neg(pivot))
  {
    var l :| l in r && True(m, l);
    assert l in Members(r);
  }

  /** A model of the units and of the live clauses free of the pivot. */
  ghost predicate ModelWithout(db: Formula, pivot: Lit, m: Assignment) {
    && (forall i: nat {:trigger Live(db, i)} | Live(db, i) && pivot !in db.lits[i] && Neg(pivot) !in db.lits[i] ::
          Holds(m, db.lits[i]))
    && (forall l | l in db.fixed :: True(m, l))
  }

  /** The pair needs no further resolvent: one clause is garbage, or every model of the rest
      makes one of them true without the pivot. */
  ghost predicate Handled(db: Formula, c: nat, pivot: Lit, d: nat) {
    Live(db, c) && Live(db, d) ==>
      forall m | ModelWithout(db, pivot, m) ::
        HoldsBut(m, db.lits[c], pivot) || HoldsBut(m, db.lits[d], Neg(pivot))
  }

  /** What a resolution on `pivot` may do to the formula. */
  ghost predicate Evolves(db: Formula, db': Formula, pivot: Lit) {
    && |db.lits| == |db.garbage| <= |db'.lits| == |db'.garbage|
    && (forall i | 0 <= i < |db.lits| :: db'.lits[i] == db.lits[i])
    && (forall i: nat {:trigger Live(db', i)} | i < |db.lits| && Live(db', i) :: Live(db, i))
    && (forall i: nat {:trigger Live(db, i)} | Live(db, i) && pivot !in db.lits[i] && Neg(pivot) !in db.lits[i] ::
          Live(db', i))
    && (forall i: nat {:trigger Live(db', i)} | |db.lits| <= i && Live(db', i) ::
          pivot !in db'.lits[i] && Neg(pivot) !in db'.lits[i])
    && db.fixed <= db'.fixed
    && (ValueOf(db.fixed, pivot) == 0 ==> ValueOf(db'.fixed, pivot) == 0)
  }

  lemma EvolvesTransitive(db: Formula, db': Formula, db'': Formula, pivot: Lit)
    requires Evolves(db, db', pivot) && Evolves(db', db'', pivot)
    ensures Evolves(db, db'', pivot)
  {
    forall i: nat | i < |db.lits| && Live(db'', i) ensures Live(db, i) {
      assert Live(db', i);
    }
    forall i: nat | Live(db, i) && pivot !in db.lits[i] && Neg(pivot) !in db.lits[i] ensures Live(db'', i) {
      assert Live(db', i);
    }
    forall i: nat | |db.lits| <= i && Live(db'', i) ensures pivot !in db''.lits[i] && Neg(pivot) !in db''.lits[i] {
      if i < |db'.lits| {
        assert Live(db', i);
      }
    }
  }

  lemma HandledStays(db: Formula, db': Formula, c: nat, pivot: Lit, d: nat)
    requires Evolves(db, db', pivot) && c < |db.lits| && d < |db.lits| && Handled(db, c, pivot, d)
    ensures Handled(db', c, pivot, d)
  {
    if Live(db', c) && Live(db', d) {
      assert Live(db, c) && Live(db, d);
      forall m | ModelWithout(db', pivot, m)
        ensures HoldsBut(m, db'.lits[c], pivot) || HoldsBut(m, db'.lits[d], Neg(pivot))
      {
        forall i: nat | Live(db, i) && pivot !in db.lits[i] && Neg(pivot) !in db.lits[i]
          ensures Holds(m, db.lits[i])
        {
          assert Live(db', i);
        }
        assert ModelWithout(db, pivot, m);
      }
    }
  }

  /** The indices are those of clauses with the literal. */
  ghost predicate Listed(db: Formula, xs: seq<nat>, l: Lit) {
    forall x | x in xs :: x < |db.lits| && l in db.lits[x]
  }

  lemma ListedStays(db: Formula, db': Formula, xs: seq<nat>, l: Lit, pivot: Lit)
    requires Listed(db, xs, l) && Evolves(db, db', pivot)
    ensures Listed(db', xs, l)
  {}

  lemma HandledSwaps(db: Formula, c: nat, pivot: Lit, d: nat)
    requires c < |db.lits| && d < |db.lits| && Handled(db, d, Neg(pivot), c)
    ensures Handled(db, c, pivot, d)
  {
    SameVariable(pivot, pivot);
    forall m | ModelWithout(db, pivot, m) ensures ModelWithout(db, Neg(pivot), m) {}
  }

  lemma EvolvesSwaps(db: Formula, db': Formula, pivot: Lit)
    requires Evolves(db, db', Neg(pivot))
    ensures Evolves(db, db', pivot)
  {
    SameVariable(pivot, pivot);
  }

  lemma EvolvesReflexive(db: Formula, pivot: Lit)
    requires |db.lits| == |db.garbage|
    ensures Evolves(db, db, pivot) && Equivalent(db, db)
  {}

  lemma DistinctMembers(ls: seq<Lit>, l: Lit)
    ensures Members(ls + [l]) == Members(ls) + {l}
  {}

  /** The resolvent is shorter than one antecedent exactly when the other antecedent adds
      nothing, and then that antecedent holds without its pivot. */
  lemma SelfSubsumes(fixed: set<Lit>, c: Clause, d: Clause, pivot: Lit)
    requires Unsatisfied(fixed, c, pivot) && Unsatisfied(fixed, d, Neg(pivot))
    ensures var A, B := Rest(fixed, c, pivot), Rest(fixed, d, Neg(pivot));
            && (|A| + 1 > |A + B| <==> B <= A)
            && (|A| + 1 > |A + B| ==> forall m | Holds(m, c) && Holds(m, d) && (forall l | l in fixed :: True(m, l)) ::
                  exists l :: l in A && True(m, l))
  {
    var A, B := Rest(fixed, c, pivot), Rest(fixed, d, Neg(pivot));
    SubsetSize(A, A + B);
    if B <= A {
      assert A + B == A;
      forall m | Holds(m, c) && Holds(m, d) && (forall l | l in fixed :: True(m, l))
        ensures exists l :: l in A && True(m, l)
      {
        RestHolds(m, fixed, c, pivot);
        RestHolds(m, fixed, d, Neg(pivot));
        SameVariable(pivot, pivot);
      }
    }
  }

  // ----- Elementary changes -----

  /** Learn an implied clause. */
  function Learn(db: Formula, r: Clause): Formula {
    db.(lits := db.lits + [r], garbage := db.garbage + [false])
  }

  lemma LearnEquivalent(db: Formula, r: Clause)
    requires |db.lits| == |db.garbage|
    requires forall m | IsModel(db, m) :: Holds(m, r)
    ensures Equivalent(db, Learn(db, r))
  {
    var db' := Learn(db, r);
    forall m ensures IsModel(db, m) <==> IsModel(db', m) {
      if IsModel(db, m) {
        forall i: nat | Live(db', i) ensures Holds(m, db'.lits[i]) {
          if i < |db.lits| { assert Live(db, i); }
        }
      }
      if IsModel(db', m) {
        forall i: nat | Live(db, i) ensures Holds(m, db.lits[i]) {
          assert Live(db', i);
        }
      }
    }
  }

  /** Drop a clause implied by the rest. */
  lemma TrashEquivalent(db: Formula, i: nat)
    requires |db.lits| == |db.garbage| && Live(db, i)
    requires forall m | IsModel(Trash(db, i), m) :: Holds(m, db.lits[i])
    ensures Equivalent(db, Trash(db, i))
  {
    var db' := Trash(db, i);
    forall m ensures IsModel(db, m) <==> IsModel(db', m) {
      if IsModel(db, m) {
        forall j: nat | Live(db', j) ensures Holds(m, db'.lits[j]) {
          assert Live(db, j);
        }
      }
      if IsModel(db', m) {
        forall j: nat | Live(db, j) ensures Holds(m, db.lits[j]) {
          if j != i { assert Live(db', j); }
        }
      }
    }
  }

  lemma FixEquivalent(db: Formula, l: Lit)
    requires forall m | IsModel(db, m) :: True(m, l)
    ensures Equivalent(db, db.(fixed := db.fixed + {l}))
  {
    var db' := db.(fixed := db.fixed + {l});
    forall m ensures IsModel(db, m) <==> IsModel(db', m) {
      forall i: nat ensures Live(db, i) <==> Live(db', i) {}
    }
  }

  lemma EquivalentTransitive(db: Formula, db': Formula, db'': Formula)
    requires Equivalent(db, db') && Equivalent(db', db'')
    ensures Equivalent(db, db'')
  {}

  // ----- The outcome of a resolution -----

  /** The undecided literals of `c` other than `skip`, in order. */
  function Undecided(fixed: set<Lit>, c: Clause, skip: Lit): seq<Lit> {
    if c == [] then [] else
      var last := |c| - 1;
      Undecided(fixed, c[..last], skip) + if c[last] != skip && ValueOf(fixed, c[last]) == 0 then [c[last]] else []
  }

  /** The given literals, and then those that only `d` adds. */
  function Merged(fixed: set<Lit>, first: seq<Lit>, d: Clause, skip: Lit): seq<Lit> {
    if d == [] then first else
      var last := |d| - 1;
      Merged(fixed, first, d[..last], skip) +
      if d[last] != skip && ValueOf(fixed, d[last]) == 0 && d[last] !in first then [d[last]] else []
  }

  lemma UndecidedNext(fixed: set<Lit>, c: Clause, skip: Lit, i: nat)
    requires i < |c|
    ensures Undecided(fixed, c[..i + 1], skip) == Undecided(fixed, c[..i], skip) +
              if c[i] != skip && ValueOf(fixed, c[i]) == 0 then [c[i]] else []
  {
    assert c[..i + 1][..i] == c[..i];
  }

  lemma MergedNext(fixed: set<Lit>, first: seq<Lit>, d: Clause, skip: Lit, i: nat)
    requires i < |d|
    ensures Merged(fixed, first, d[..i + 1], skip) == Merged(fixed, first, d[..i], skip) +
              if d[i] != skip && ValueOf(fixed, d[i]) == 0 && d[i] !in first then [d[i]] else []
  {
    assert d[..i + 1][..i] == d[..i];
  }

  lemma CollectsNothing(fixed: set<Lit>, first: seq<Lit>, c: Clause, skip: Lit)
    ensures Undecided(fixed, c[..0], skip) == [] && Merged(fixed, first, c[..0], skip) == first
  {}

  lemma {:induction false} UndecidedAre(fixed: set<Lit>, c: Clause, skip: Lit)
    requires DistinctLits(c)
    ensures Members(Undecided(fixed, c, skip)) == Rest(fixed, c, skip) && DistinctLits(Undecided(fixed, c, skip))
  {
    if c == [] {
      assert Rest(fixed, c, skip) == {};
    } else {
      var last := |c| - 1;
      var l, front := c[last], Undecided(fixed, c[..last], skip);
      UndecidedAre(fixed, c[..last], skip);
      assert c[..last + 1] == c;
      RestStep(fixed, c, skip, last);
      if l != skip && ValueOf(fixed, l) == 0 {
        assert Undecided(fixed, c, skip) == AddDistinct(front, l);
      } else {
        assert Undecided(fixed, c, skip) == front;
      }
    }
  }

  lemma {:induction false} MergedAre(fixed: set<Lit>, first: seq<Lit>, d: Clause, skip: Lit)
    requires DistinctLits(first) && DistinctLits(d)
    ensures Members(Merged(fixed, first, d, skip)) == Members(first) + Rest(fixed, d, skip)
    ensures DistinctLits(Merged(fixed, first, d, skip))
  {
    if d == [] {
      assert Rest(fixed, d, skip) == {};
    } else {
      var last := |d| - 1;
      var l, front := d[last], Merged(fixed, first, d[..last], skip);
      MergedAre(fixed, first, d[..last], skip);
      assert d[..last + 1] == d;
      RestStep(fixed, d, skip, last);
      assert l in Members(first) <==> l in first;
      if l != skip && ValueOf(fixed, l) == 0 && l !in first {
        assert Merged(fixed, first, d, skip) == AddDistinct(front, l);
      } else {
        assert Merged(fixed, first, d, skip) == front;
      }
    }
  }

  /** A literal that ends the collection: it is true, or clashes with a marked one. */
  predicate Decisive(fixed: set<Lit>, l: Lit, skip: Lit, marks: set<Lit>) {
    l != skip && (ValueOf(fixed, l) > 0 || (ValueOf(fixed, l) == 0 && Neg(l) in marks))
  }

  /** The place of the first one from place `i` on. */
  function Stop(fixed: set<Lit>, d: Clause, skip: Lit, marks: set<Lit>, i: nat): (k: nat)
    requires i <= |d|
    ensures i <= k <= |d|
    decreases |d| - i
  {
    if i == |d| || Decisive(fixed, d[i], skip, marks) then i else Stop(fixed, d, skip, marks, i + 1)
  }

  /** The formula with its occurrence lists. */
  datatype Stage = Stage(db: Formula, occs: map<Lit, seq<nat>>)

  function LearnIn(s: Stage, r: Clause): Stage {
    Stage(Learn(s.db, r), Connect(s.occs, r, |s.db.lits|))
  }

  /** What becomes of the formula, and the resolvent if one has still to be added. */
  datatype Outcome = Outcome(ok: bool, stage: Stage, clause: seq<Lit>)

  ghost predicate Ready(s: Stage, c: nat, d: nat) {
    |s.db.lits| == |s.db.garbage| && c < |s.db.lits| && d < |s.db.lits|
  }

  ghost function Dropped(s: Stage, c: nat): Stage
    requires c < |s.db.garbage|
  {
    s.(db := Trash(s.db, c))
  }

  /** The literals `c` and `d` are replaced by, when the resolvent subsumes one of them. */
  ghost function Strengthened(s: Stage, c: nat, pivot: Lit): Stage
    requires Ready(s, c, c)
  {
    Dropped(LearnIn(s, Undecided(s.db.fixed, s.db.lits[c], pivot)), c)
  }

  /** Neither antecedent is satisfied, and the resolvent `r` is no tautology. */
  ghost function Used(s: Stage, c: nat, pivot: Lit, d: nat, r: seq<Lit>): Outcome
    requires Ready(s, c, d)
  {
    var A, B := Rest(s.db.fixed, s.db.lits[c], pivot), Rest(s.db.fixed, s.db.lits[d], Neg(pivot));
    if |r| == 0 then Outcome(false, s.(db := s.db.(unsat := true)), [])
    else if |r| == 1 then Outcome(false, s.(db := s.db.(fixed := s.db.fixed + {r[0]})), [])
    else if B <= A then
      Outcome(false, if A <= B then Dropped(Strengthened(s, c, pivot), d) else Strengthened(s, c, pivot), [])
    else if A <= B then Outcome(false, Strengthened(s, d, Neg(pivot)), [])
    else Outcome(true, s, r)
  }

  /** Resolving `c` on `pivot` with `d` on its negation. */
  ghost function OrderedTo(s: Stage, c: nat, pivot: Lit, d: nat): Outcome
    requires Ready(s, c, d)
  {
    var first := Undecided(s.db.fixed, s.db.lits[c], pivot);
    var k := Stop(s.db.fixed, s.db.lits[d], Neg(pivot), Members(first), 0);
    if exists l :: l in s.db.lits[c] && l in s.db.fixed then Outcome(false, Dropped(s, c), [])
    else if k < |s.db.lits[d]| then
      Outcome(false, if ValueOf(s.db.fixed, s.db.lits[d][k]) > 0 then Dropped(s, d) else s, [])
    else Used(s, c, pivot, d, Merged(s.db.fixed, first, s.db.lits[d], Neg(pivot)))
  }

  /** The same with the shorter clause first; garbage is left alone. */
  ghost function ResolvedTo(s: Stage, c: nat, pivot: Lit, d: nat): Outcome
    requires Ready(s, c, d)
  {
    if s.db.garbage[c] || s.db.garbage[d] then Outcome(false, s, [])
    else if |s.db.lits[c]| > |s.db.lits[d]| then OrderedTo(s, d, Neg(pivot), c)
    else OrderedTo(s, c, pivot, d)
  }

  /** The formula after resolving one pair, with the resolvent added if there is one. */
  ghost function AddedTo(s: Stage, c: nat, pivot: Lit, d: nat): Stage {
    if !Ready(s, c, d) then s else
      var o := ResolvedTo(s, c, pivot, d);
      if o.ok then LearnIn(o.stage, o.clause) else o.stage
  }

  /** One clause with all of a list, until the empty clause is learned. */
  ghost function RowTo(s: Stage, c: nat, pivot: Lit, ns: seq<nat>): Stage {
    if ns == [] then s else
      var last := |ns| - 1;
      var t := RowTo(s, c, pivot, ns[..last]);
      if t.db.unsat then t else AddedTo(t, c, pivot, ns[last])
  }

  ghost function AllTo(s: Stage, ps: seq<nat>, pivot: Lit, ns: seq<nat>): Stage {
    if ps == [] then s else
      var last := |ps| - 1;
      var t := AllTo(s, ps[..last], pivot, ns);
      if t.db.unsat then t else RowTo(t, ps[last], pivot, ns)
  }

  lemma RowFirst(s: Stage, c: nat, pivot: Lit, ns: seq<nat>)
    ensures RowTo(s, c, pivot, ns[..0]) == s
  {}

  lemma RowNext(s: Stage, c: nat, pivot: Lit, ns: seq<nat>, j: nat)
    requires j < |ns| && !RowTo(s, c, pivot, ns[..j]).db.unsat
    ensures RowTo(s, c, pivot, ns[..j + 1]) == AddedTo(RowTo(s, c, pivot, ns[..j]), c, pivot, ns[j])
  {
    assert ns[..j + 1][..j] == ns[..j];
  }

  lemma AllFirst(s: Stage, ps: seq<nat>, pivot: Lit, ns: seq<nat>)
    ensures AllTo(s, ps[..0], pivot, ns) == s
  {}

  lemma AllNext(s: Stage, ps: seq<nat>, pivot: Lit, ns: seq<nat>, i: nat)
    requires i < |ps| && !AllTo(s, ps[..i], pivot, ns).db.unsat
    ensures AllTo(s, ps[..i + 1], pivot, ns) == RowTo(AllTo(s, ps[..i], pivot, ns), ps[i], pivot, ns)
  {
    assert ps[..i + 1][..i] == ps[..i];
  }

  lemma {:induction false} RowStops(s: Stage, c: nat, pivot: Lit, ns: seq<nat>, j: nat)
    requires j <= |ns| && RowTo(s, c, pivot, ns[..j]).db.unsat
    ensures RowTo(s, c, pivot, ns) == RowTo(s, c, pivot, ns[..j])
  {
    if j == |ns| {
      assert ns[..j] == ns;
    } else {
      assert ns[..|ns| - 1][..j] == ns[..j];
      RowStops(s, c, pivot, ns[..|ns| - 1], j);
    }
  }

  lemma {:induction false} AllStops(s: Stage, ps: seq<nat>, pivot: Lit, ns: seq<nat>, i: nat)
    requires i <= |ps| && AllTo(s, ps[..i], pivot, ns).db.unsat
    ensures AllTo(s, ps, pivot, ns) == AllTo(s, ps[..i], pivot, ns)
  {
    if i == |ps| {
      assert ps[..i] == ps;
    } else {
      assert ps[..|ps| - 1][..i] == ps[..i];
      AllStops(s, ps[..|ps| - 1], pivot, ns, i);
    }
  }

  // ----- When there is a resolvent to add -----

  ghost predicate Satisfied(fixed: set<Lit>, c: Clause) {
    exists l :: l in c && l in fixed
  }

  /** The pair is to be resolved: two live clauses, not satisfied, clashing on the pivot alone, and
      with at least two other literals. */
  ghost predicate Resolvable(s: Stage, c: nat, pivot: Lit, d: nat)
    requires Ready(s, c, d)
  {
    var A, B := Rest(s.db.fixed, s.db.lits[c], pivot), Rest(s.db.fixed, s.db.lits[d], Neg(pivot));
    && Live(s.db, c) && Live(s.db, d)
    && !Satisfied(s.db.fixed, s.db.lits[c]) && !Satisfied(s.db.fixed, s.db.lits[d])
    && NoClash(A, B) && |A + B| >= 2
  }

  lemma {:induction false} StopsNever(fixed: set<Lit>, d: Clause, skip: Lit, marks: set<Lit>, i: nat)
    requires i <= |d|
    ensures Stop(fixed, d, skip, marks, i) == |d| <==> forall k | i <= k < |d| :: !Decisive(fixed, d[k], skip, marks)
    decreases |d| - i
  {
    if i < |d| {
      StopsNever(fixed, d, skip, marks, i + 1);
    }
  }

  /** Nothing ends the collection exactly if the clause is not satisfied and does not clash. */
  lemma StopsNeverIff(fixed: set<Lit>, d: Clause, skip: Lit, marks: set<Lit>)
    requires ValueOf(fixed, skip) == 0
    ensures Stop(fixed, d, skip, marks, 0) == |d| <==>
            !Satisfied(fixed, d) && NoClash(Rest(fixed, d, skip), marks)
  {
    StopsNever(fixed, d, skip, marks, 0);
    if forall k | 0 <= k < |d| :: !Decisive(fixed, d[k], skip, marks) {
      forall l | l in d ensures !Decisive(fixed, l, skip, marks) {
        var k :| 0 <= k < |d| && d[k] == l;
      }
    } else {
      var k :| 0 <= k < |d| && Decisive(fixed, d[k], skip, marks);
      assert d[k] in fixed || d[k] in Rest(fixed, d, skip);
    }
  }

  lemma OrderedOutcome(s: Stage, c: nat, pivot: Lit, d: nat)
    requires Ready(s, c, d) && DistinctLits(s.db.lits[c]) && DistinctLits(s.db.lits[d])
    requires Live(s.db, c) && Live(s.db, d) && ValueOf(s.db.fixed, pivot) == 0
    ensures var A, B := Rest(s.db.fixed, s.db.lits[c], pivot), Rest(s.db.fixed, s.db.lits[d], Neg(pivot));
            && (OrderedTo(s, c, pivot, d).ok <==> Resolvable(s, c, pivot, d) && !(A <= B) && !(B <= A))
            && (Resolvable(s, c, pivot, d) ==>
                  exists r :: Members(r) == A + B && OrderedTo(s, c, pivot, d) == Used(s, c, pivot, d, r))
  {
    hide Used, Undecided, Merged, Rest, NoClash;
    var fixed, first := s.db.fixed, Undecided(s.db.fixed, s.db.lits[c], pivot);
    var A, B := Rest(fixed, s.db.lits[c], pivot), Rest(fixed, s.db.lits[d], Neg(pivot));
    var r := Merged(fixed, first, s.db.lits[d], Neg(pivot));
    SameVariable(pivot, pivot);
    UndecidedAre(fixed, s.db.lits[c], pivot);
    MergedAre(fixed, first, s.db.lits[d], Neg(pivot));
    MembersCount(r);
    StopsNeverIff(fixed, s.db.lits[d], Neg(pivot), A);
    ClashesBothWays(A, B);
    assert Members(r) == A + B;
    UsedOk(s, c, pivot, d, r);
  }

  lemma UsedOk(s: Stage, c: nat, pivot: Lit, d: nat, r: seq<Lit>)
    requires Ready(s, c, d)
    ensures var A, B := Rest(s.db.fixed, s.db.lits[c], pivot), Rest(s.db.fixed, s.db.lits[d], Neg(pivot));
            Used(s, c, pivot, d, r).ok <==> |r| >= 2 && !(A <= B) && !(B <= A)
  {}

  lemma ClashesBothWays(A: set<Lit>, B: set<Lit>)
    ensures NoClash(A, B) <==> NoClash(B, A)
  {
    forall l: Lit ensures Neg(Neg(l)) == l {
      SameVariable(l, l);
    }
    if NoClash(A, B) {
      forall l | l in B ensures Neg(l) !in A {
        assert Neg(l) in A ==> Neg(Neg(l)) !in B;
      }
    }
    if NoClash(B, A) {
      forall l | l in A ensures Neg(l) !in B {
        assert Neg(l) in B ==> Neg(Neg(l)) !in A;
      }
    }
  }

  /** A resolvent has to be added exactly if the pair is resolvable and neither clause without its
      pivot is part of the other.  If one is, the longer one is replaced by just its rest. */
  lemma ResolvedOutcome(s: Stage, c: nat, pivot: Lit, d: nat)
    requires Ready(s, c, d) && DistinctLits(s.db.lits[c]) && DistinctLits(s.db.lits[d]) && c != d
    requires ValueOf(s.db.fixed, pivot) == 0
    ensures var A, B := Rest(s.db.fixed, s.db.lits[c], pivot), Rest(s.db.fixed, s.db.lits[d], Neg(pivot));
            var db' := ResolvedTo(s, c, pivot, d).stage.db;
            && (ResolvedTo(s, c, pivot, d).ok <==> Resolvable(s, c, pivot, d) && !(A <= B) && !(B <= A))
            && (Resolvable(s, c, pivot, d) && B <= A ==> !Live(db', c) && HasExactly(db', A))
            && (Resolvable(s, c, pivot, d) && A <= B ==> !Live(db', d) && HasExactly(db', B))
  {
    SameVariable(pivot, pivot);
    if Live(s.db, c) && Live(s.db, d) {
      if |s.db.lits[c]| > |s.db.lits[d]| {
        OrderedOutcome(s, d, Neg(pivot), c);
        SwappedResolvable(s, c, pivot, d);
        if Resolvable(s, c, pivot, d) {
          UsedReplaces(s, d, Neg(pivot), c);
        }
      } else {
        OrderedOutcome(s, c, pivot, d);
        if Resolvable(s, c, pivot, d) {
          UsedReplaces(s, c, pivot, d);
        }
      }
    }
  }

  lemma SwappedResolvable(s: Stage, c: nat, pivot: Lit, d: nat)
    requires Ready(s, c, d)
    ensures Resolvable(s, c, pivot, d) <==> Resolvable(s, d, Neg(pivot), c)
  {
    SameVariable(pivot, pivot);
    var A, B := Rest(s.db.fixed, s.db.lits[c], pivot), Rest(s.db.fixed, s.db.lits[d], Neg(pivot));
    ClashesBothWays(A, B);
    assert A + B == B + A;
  }

  ghost predicate HasExactly(db: Formula, A: set<Lit>) {
    exists r: nat :: Live(db, r) && Members(db.lits[r]) == A
  }

  lemma UsedReplaces(s: Stage, c: nat, pivot: Lit, d: nat)
    requires Ready(s, c, d) && DistinctLits(s.db.lits[c]) && DistinctLits(s.db.lits[d]) && c != d
    ensures var A, B := Rest(s.db.fixed, s.db.lits[c], pivot), Rest(s.db.fixed, s.db.lits[d], Neg(pivot));
            forall r | Members(r) == A + B && |A + B| >= 2 ::
              var db' := Used(s, c, pivot, d, r).stage.db;
              && (B <= A ==> !Live(db', c) && HasExactly(db', A))
              && (A <= B ==> !Live(db', d) && HasExactly(db', B))
  {
    var A, B := Rest(s.db.fixed, s.db.lits[c], pivot), Rest(s.db.fixed, s.db.lits[d], Neg(pivot));
    UndecidedAre(s.db.fixed, s.db.lits[c], pivot);
    UndecidedAre(s.db.fixed, s.db.lits[d], Neg(pivot));
    forall r | Members(r) == A + B && |A + B| >= 2
      ensures var db' := Used(s, c, pivot, d, r).stage.db;
              && (B <= A ==> !Live(db', c) && HasExactly(db', A))
              && (A <= B ==> !Live(db', d) && HasExactly(db', B))
    {
      var db' := Used(s, c, pivot, d, r).stage.db;
      MembersAtMost(r);
      if B <= A || A <= B {
        assert Live(db', |s.db.lits|);
        assert Members(db'.lits[|s.db.lits|]) == if B <= A then A else B;
      }
    }
  }

  lemma {:induction false} MembersAtMost(ls: seq<Lit>)
    ensures |Members(ls)| <= |ls|
  {
    if ls != [] {
      var last := |ls| - 1;
      MembersAtMost(ls[..last]);
      assert ls == ls[..last] + [ls[last]];
      DistinctMembers(ls[..last], ls[last]);
    }
  }

  // ----- What goes to the extension stack -----

  /** The clauses of a list that are live in `db` and no longer in `db'`, as entries: in the
      order of the list, each once, with the literals as they are in `db'`. */
  ghost function Moved(db: Formula, db': Formula, os: seq<nat>, pivot: Lit): seq<Entry> {
    if os == [] then [] else
      var front, c := os[..|os| - 1], os[|os| - 1];
      Moved(db, db', front, pivot) +
      if Live(db, c) && !Live(db', c) && c < |db'.lits| && c !in front then [Entry([pivot], c, db'.lits[c])] else []
  }

  lemma MovedNext(db: Formula, db': Formula, os: seq<nat>, c: nat, pivot: Lit)
    requires c < |db'.lits|
    ensures Moved(db, db', os + [c], pivot) == Moved(db, db', os, pivot) +
              if Live(db, c) && !Live(db', c) && c !in os then [Entry([pivot], c, db'.lits[c])] else []
  {
    assert (os + [c])[..|os|] == os;
  }

  /** Only the listed clauses matter. */
  lemma {:induction false} MovedSame(db: Formula, db0: Formula, db': Formula, db'': Formula, os: seq<nat>, pivot: Lit)
    requires |db'.lits| == |db''.lits|
    requires forall x | x in os :: Live(db, x) == Live(db0, x) && Live(db', x) == Live(db'', x)
    requires forall x | x in os && x < |db'.lits| :: db'.lits[x] == db''.lits[x]
    ensures Moved(db, db', os, pivot) == Moved(db0, db'', os, pivot)
  {
    if os != [] {
      MovedSame(db, db0, db', db'', os[..|os| - 1], pivot);
    }
  }

  /** One more clause leaves. */
  lemma MovedOne(db0: Formula, db: Formula, db': Formula, os: seq<nat>, c: nat, pivot: Lit, base: seq<Entry>)
    requires |db.lits| == |db'.lits| && Live(db0, c) && c !in os && c < |db'.lits| && !Live(db', c)
    requires forall x | x in os :: Live(db, x) == Live(db', x) && (x < |db.lits| ==> db.lits[x] == db'.lits[x])
    ensures base + Moved(db0, db', os + [c], pivot) ==
            base + Moved(db0, db, os, pivot) + [Entry([pivot], c, db'.lits[c])]
  {
    MovedSame(db0, db0, db, db', os, pivot);
    MovedNext(db0, db', os, c, pivot);
  }

  // ----- The solver state -----

  class Simplifier {
    var lits: seq<Clause>
    var garbage: seq<bool>
    var fixed: set<Lit>            // literals assigned true at the root level
    var unsat: bool
    var occs: map<Lit, seq<nat>>
    var removed: set<nat>          // eliminated and pure variables
    var clause: seq<Lit>           // buffer for a resolvent
    const external: External
    ghost var original: seq<Clause>

    ghost function Db(): Formula
      reads this
    {
      Formula(lits, garbage, fixed, unsat)
    }

    ghost function State(): Stage
      reads this
    {
      Stage(Db(), occs)
    }

    /** Nothing of the original formula is out of reach. */
    ghost predicate Valid()
      reads this, external
    {
      && external.Valid()
      && Sane(Db(), external.maxVar, removed)
      && Connected(Db(), occs)
      && Reconstructs(original, Db(), external.stack)
    }

    constructor (clauses: seq<Clause>, units: seq<Lit>, external: External)
      requires external.Valid() && external.stack == []
      requires forall c | c in clauses :: Proper(c, external.maxVar)
      requires forall l | l in units :: Neg(l) !in units
      ensures Valid() && this.external == external && !unsat && removed == {}
      ensures Db() == Fresh(clauses, set l | l in units)
      ensures original == clauses + Units(units)
    {
      lits := clauses;
      garbage := seq(|clauses|, i => false);
      fixed := set l | l in units;
      unsat := false;
      removed, clause := {}, [];
      var lists := Occurrences(Fresh(clauses, set l | l in units));
      occs := lists;
      this.external := external;
      original := clauses + Units(units);
      FreshReconstructs(clauses, units);
    }

    /** Go on with a formula that other steps have simplified before. */
    constructor Resume(db: Formula, removed: set<nat>, external: External, ghost original: seq<Clause>)
      requires external.Valid() && Sane(db, external.maxVar, removed)
      requires Reconstructs(original, db, external.stack)
      ensures Valid() && this.external == external && this.removed == removed && this.original == original
      ensures Db() == db
    {
      lits, garbage, fixed, unsat := db.lits, db.garbage, db.fixed, db.unsat;
      this.removed, this.external, this.original, clause := removed, external, original, [];
      var lists := Occurrences(db);
      occs := lists;
    }

    function Val(l: Lit): int
      reads this
    {
      ValueOf(fixed, l)
    }

    function Occs(l: Lit): seq<nat>
      reads this
    {
      ListIn(occs, l)
    }

    /** Give up a clause that the rest implies. */
    method MarkGarbage(i: nat)
      requires Valid() && Live(Db(), i)
      requires forall m | IsModel(Trash(Db(), i), m) :: Holds(m, lits[i])
      modifies this`garbage
      ensures Valid() && Db() == Trash(old(Db()), i) && Equivalent(old(Db()), Db())
    {
      ghost var db := Db();
      TrashEquivalent(db, i);
      garbage := garbage[i := true];
      EquivalentReconstructs(original, db, Db(), external.stack);
      assert forall j: nat :: Live(Db(), j) <==> Live(db, j) && j != i;
    }

    /** Enter the resolvent in the buffer as a clause and connect its literals. */
    method AddResolvent()
      requires Valid() && Proper(clause, external.maxVar)
      requires forall l | l in clause :: Abs(l) !in removed
      requires forall m | IsModel(Db(), m) :: Holds(m, clause)
      modifies this`lits, this`garbage, this`occs
      ensures Valid() && State() == LearnIn(old(State()), clause) && Equivalent(old(Db()), Db())
    {
      hide Reconstructs, Connected, Connect;
      ghost var db := Db();
      LearnEquivalent(db, clause);
      var r := |lits|;
      lits := lits + [clause];
      garbage := garbage + [false];
      EquivalentReconstructs(original, db, Db(), external.stack);
      occs := Connect(occs, clause, r);
      ConnectedLearn(db, clause, old(occs), occs);
      assert forall i: nat :: Live(Db(), i) <==> Live(db, i) || i == r;
    }

    /** A unit implied by the formula. */
    method AssignUnit(l: Lit)
      requires Valid() && Val(l) == 0
      requires forall m | IsModel(Db(), m) :: True(m, l)
      modifies this`fixed
      ensures Valid() && Db() == old(Db()).(fixed := old(fixed) + {l}) && Equivalent(old(Db()), Db())
    {
      ghost var db := Db();
      FixEquivalent(db, l);
      SameVariable(l, l);
      fixed := fixed + {l};
      EquivalentReconstructs(original, db, Db(), external.stack);
      assert forall i: nat :: Live(Db(), i) <==> Live(db, i);
    }

    method LearnEmptyClause()
      requires Valid() && forall m :: !IsModel(Db(), m)
      modifies this`unsat
      ensures Valid() && Db() == old(Db()).(unsat := true) && Equivalent(old(Db()), Db())
    {
      ghost var db := Db();
      unsat := true;
      EquivalentReconstructs(original, db, Db(), external.stack);
      assert forall i: nat :: Live(Db(), i) <==> Live(db, i);
    }

    /** Move a clause to the extension stack with the literal that repairs it. */
    method WeakenClause(i: nat, pivot: Lit)
      requires Valid() && Live(Db(), i) && Repairable(Db(), i, pivot)
      modifies this`garbage, external`extension, external`stack
      ensures Valid() && Db() == Trash(old(Db()), i)
      ensures external.stack == old(external.stack) + [Entry([pivot], i, lits[i])]
    {
      ghost var db := Db();
      Weaken(original, db, external.stack, i, pivot, i);
      external.PushClauseWithPivot(lits[i], pivot, i);
      garbage := garbage[i := true];
      assert forall j: nat :: Live(Db(), j) <==> Live(db, j) && j != i;
    }

    // ----- Resolution -----

    /** Collect the undecided literals of a clause but for the pivot; they are marked. */
    method CollectFirst(c: Clause, pivot: Lit) returns (satisfied: bool, buffer: seq<Lit>, s: nat)
      requires pivot in c && Val(pivot) == 0 && DistinctLits(c)
      ensures satisfied <==> exists l :: l in c && l in fixed
      ensures !satisfied ==> Unsatisfied(fixed, c, pivot) && Members(buffer) == Rest(fixed, c, pivot)
      ensures !satisfied ==> s == |Rest(fixed, c, pivot)| + 1
      ensures DistinctLits(buffer) && (!satisfied ==> buffer == Undecided(fixed, c, pivot))
    {
      hide Collected, NoClash, Unsatisfied, Rest, Undecided;
      satisfied, buffer, s := false, [], 0;
      CollectsNothing(fixed, [], c, pivot);
      CollectStart(fixed, c, pivot, []);
      for i := 0 to |c|
        invariant !satisfied && Collected(fixed, c, pivot, i, {}, buffer, s)
        invariant buffer == Undecided(fixed, c[..i], pivot)
      {
        UndecidedNext(fixed, c, pivot, i);
        CollectStep(fixed, c, pivot, i, {}, buffer, s);
        if c[i] == pivot {
          s := s + 1;
        } else if Val(c[i]) > 0 {
          satisfied := true;
          return;
        } else if Val(c[i]) == 0 {
          buffer := AddUnmarked(buffer, c[i], {});
          s := s + 1;
        }
      }
      CollectEnd(fixed, c, pivot, {}, buffer, s);
      assert c[..|c|] == c;
    }

    /** Add the undecided literals of the second clause, unless one clashes with a mark. */
    method CollectSecond(d: Clause, skip: Lit, first: seq<Lit>)
        returns (satisfied: bool, tautological: bool, buffer: seq<Lit>, t: nat)
      requires skip in d && Val(skip) == 0 && DistinctLits(d) && DistinctLits(first)
      ensures var k := Stop(fixed, d, skip, Members(first), 0);
              && (satisfied <==> k < |d| && ValueOf(fixed, d[k]) > 0)
              && (tautological <==> k < |d| && ValueOf(fixed, d[k]) <= 0)
              && (!satisfied && !tautological ==> buffer == Merged(fixed, first, d, skip))
      ensures satisfied ==> exists l :: l in d && l in fixed
      ensures tautological ==> exists l :: l in d && l != skip && Neg(l) in Members(first)
      ensures !satisfied && !tautological ==>
                && Unsatisfied(fixed, d, skip)
                && Members(buffer) == Members(first) + Rest(fixed, d, skip)
                && t == |Rest(fixed, d, skip)| + 1
                && NoClash(Rest(fixed, d, skip), Members(first))
      ensures DistinctLits(buffer)
    {
      hide Collected, NoClash, Unsatisfied, Rest, Merged;
      CollectsNothing(fixed, first, d, skip);
      var marks := Members(first);
      satisfied, tautological, buffer, t := false, false, first, 0;
      CollectStart(fixed, d, skip, first);
      for i := 0 to |d|
        invariant Collected(fixed, d, skip, i, marks, buffer, t)
        invariant buffer == Merged(fixed, first, d[..i], skip)
        invariant Stop(fixed, d, skip, marks, 0) == Stop(fixed, d, skip, marks, i)
      {
        MergedNext(fixed, first, d, skip, i);
        var lit := d[i];
        CollectStep(fixed, d, skip, i, marks, buffer, t);
        if lit == skip {
          t := t + 1;
        } else if Val(lit) > 0 {
          satisfied := true;
          return;
        } else if Val(lit) == 0 {
          if Neg(lit) in marks {
            tautological := true;
            return;
          }
          t := t + 1;
          buffer := AddUnmarked(buffer, lit, marks);
        }
      }
      CollectEnd(fixed, d, skip, marks, buffer, t);
      assert d[..|d|] == d;
    }

    /** `c` without its pivot is implied: enter it as a new clause and give up `c`. */
    method OnTheFlySelfSubsumption(c: nat, pivot: Lit) returns (r: nat)
      requires Valid() && Live(Db(), c) && pivot in lits[c] && Val(pivot) == 0
      requires Unsatisfied(fixed, lits[c], pivot)
      requires forall m | IsModel(Db(), m) :: exists l :: l in Rest(fixed, lits[c], pivot) && True(m, l)
      modifies this`clause, this`lits, this`garbage, this`occs
      ensures Valid() && clause == []
      ensures Equivalent(old(Db()), Db()) && Evolves(old(Db()), Db(), pivot)
      ensures r == |old(lits)| && Live(Db(), r) && Members(lits[r]) == Rest(fixed, old(lits)[c], pivot)
      ensures Db() == Trash(Learn(old(Db()), lits[r]), c)
      ensures State() == Strengthened(old(State()), c, pivot)
    {
      hide Reconstructs, Connected, Undecided, Connect;
      ghost var db, before := Db(), lits[c];
      var satisfied, buffer, s := CollectFirst(lits[c], pivot);
      clause := buffer;
      StrengthenedIsProper(fixed, before, pivot, buffer, external.maxVar);
      forall m | IsModel(Db(), m) ensures Holds(m, clause) {
        var l :| l in Rest(fixed, lits[c], pivot) && True(m, l);
        assert l in Members(clause);
      }
      assert forall l | l in clause :: l in Members(clause);
      r := |lits|;
      AddResolvent();
      ghost var db' := Db();
      assert Live(db', c) && Live(db', r);
      forall m | IsModel(Trash(db', c), m) ensures Holds(m, lits[c]) {
        assert Live(Trash(db', c), r);
        var l :| l in lits[r] && True(m, l);
        assert l in Members(buffer);
      }
      MarkGarbage(c);
      EquivalentTransitive(db, db', Db());
      StrengtheningEvolves(db, c, pivot, buffer);
      clause := [];
    }

    /** A clause satisfied by a unit is garbage. */
    method GiveUpSatisfied(c: nat, pivot: Lit)
      requires Valid() && Live(Db(), c) && (pivot in lits[c] || Neg(pivot) in lits[c])
      requires exists l :: l in lits[c] && l in fixed
      modifies this`garbage
      ensures Valid() && !Live(Db(), c) && State() == Dropped(old(State()), c)
      ensures Equivalent(old(Db()), Db()) && Evolves(old(Db()), Db(), pivot)
    {
      ghost var db := Db();
      MarkGarbage(c);
      assert forall j: nat :: Live(Db(), j) <==> Live(db, j) && j != c;
    }

    /** Resolve `c` on `pivot` with `d` on its negation.  True means that the buffer holds a
        resolvent that still has to be added. */
    method ResolveOrdered(c: nat, pivot: Lit, d: nat) returns (ok: bool)
      requires Valid() && !unsat && Live(Db(), c) && Live(Db(), d)
      requires pivot in lits[c] && Neg(pivot) in lits[d] && Val(pivot) == 0
      modifies this`clause, this`lits, this`garbage, this`occs, this`fixed, this`unsat
      ensures Valid() && Equivalent(old(Db()), Db()) && Evolves(old(Db()), Db(), pivot)
      ensures ok ==> Db() == old(Db()) && GoodResolvent(Db(), external.maxVar, removed, clause, c, pivot, d)
      ensures ok ==> |clause| >= 2
      ensures !ok && !unsat ==> Handled(Db(), c, pivot, d)
      ensures Outcome(ok, State(), if ok then clause else []) == OrderedTo(old(State()), c, pivot, d)
    {
      hide Reconstructs, Connected, GoodResolvent, Used, Undecided, Merged, Unsatisfied, NoClash;
      ghost var db := Db();
      SameVariable(pivot, pivot);
      EvolvesReflexive(db, pivot);
      clause, ok := [], false;
      var satisfied, first, s := CollectFirst(lits[c], pivot);
      if satisfied {
        GiveUpSatisfied(c, pivot);
        return;
      }
      var tautological, buffer, t;
      satisfied, tautological, buffer, t := CollectSecond(lits[d], Neg(pivot), first);
      if satisfied {
        GiveUpSatisfied(d, pivot);
        return;
      }
      if tautological {
        TautologyHandled(db, c, pivot, d);
        return;
      }
      ok := UseCollected(c, pivot, d, first, buffer, s, t);
    }

    /** Neither clause is satisfied, and they clash on the pivot alone: `s` and `t` count their
        undecided literals. */
    method UseCollected(c: nat, pivot: Lit, d: nat, ghost first: seq<Lit>, buffer: seq<Lit>, s: nat, t: nat)
        returns (ok: bool)
      requires Valid() && !unsat && Live(Db(), c) && Live(Db(), d)
      requires pivot in lits[c] && Neg(pivot) in lits[d] && Val(pivot) == 0
      requires Unsatisfied(fixed, lits[c], pivot) && Unsatisfied(fixed, lits[d], Neg(pivot))
      requires Members(first) == Rest(fixed, lits[c], pivot) && DistinctLits(buffer)
      requires Members(buffer) == Members(first) + Rest(fixed, lits[d], Neg(pivot))
      requires NoClash(Rest(fixed, lits[d], Neg(pivot)), Members(first))
      requires s == |Rest(fixed, lits[c], pivot)| + 1 && t == |Rest(fixed, lits[d], Neg(pivot))| + 1
      modifies this`clause, this`lits, this`garbage, this`occs, this`fixed, this`unsat
      ensures Valid() && Equivalent(old(Db()), Db()) && Evolves(old(Db()), Db(), pivot)
      ensures ok ==> Db() == old(Db()) && GoodResolvent(Db(), external.maxVar, removed, clause, c, pivot, d)
      ensures ok ==> |clause| >= 2
      ensures !ok && !unsat ==> Handled(Db(), c, pivot, d)
      ensures Outcome(ok, State(), if ok then clause else []) == Used(old(State()), c, pivot, d, buffer)
    {
      hide Reconstructs, Connected, GoodResolvent, Used, Rest, Unsatisfied, NoClash, Handled, Evolves, Equivalent;
      CollectedIsGood(Db(), external.maxVar, removed, first, buffer, c, pivot, d);
      MembersCount(buffer);
      SameVariable(pivot, pivot);
      SelfSubsumes(fixed, lits[c], lits[d], pivot);
      SelfSubsumes(fixed, lits[d], lits[c], Neg(pivot));
      assert Rest(fixed, lits[d], Neg(pivot)) + Rest(fixed, lits[c], pivot) == Members(buffer);
      ok := UseResolvent(c, pivot, d, buffer, s > |buffer|, t > |buffer|);
    }

    /** What becomes of the resolvent, by its size and by what it subsumes. */
    method UseResolvent(c: nat, pivot: Lit, d: nat, buffer: seq<Lit>, insteadOfC: bool, insteadOfD: bool)
        returns (ok: bool)
      requires Valid() && !unsat && Live(Db(), c) && Live(Db(), d)
      requires pivot in lits[c] && Neg(pivot) in lits[d] && Val(pivot) == 0
      requires GoodResolvent(Db(), external.maxVar, removed, buffer, c, pivot, d)
      requires Unsatisfied(fixed, lits[c], pivot) && Unsatisfied(fixed, lits[d], Neg(pivot))
      requires insteadOfC <==> Rest(fixed, lits[d], Neg(pivot)) <= Rest(fixed, lits[c], pivot)
      requires insteadOfD <==> Rest(fixed, lits[c], pivot) <= Rest(fixed, lits[d], Neg(pivot))
      modifies this`clause, this`lits, this`garbage, this`occs, this`fixed, this`unsat
      ensures Valid() && Equivalent(old(Db()), Db()) && Evolves(old(Db()), Db(), pivot)
      ensures ok ==> Db() == old(Db()) && GoodResolvent(Db(), external.maxVar, removed, clause, c, pivot, d)
      ensures ok ==> |clause| >= 2
      ensures !ok && !unsat ==> Handled(Db(), c, pivot, d)
      ensures Outcome(ok, State(), if ok then clause else []) == Used(old(State()), c, pivot, d, buffer)
    {
      hide Reconstructs, Connected;
      ghost var db := Db();
      EvolvesReflexive(db, pivot);
      ok := false;
      if |buffer| == 0 {
        LearnEmptyClause();
      } else if |buffer| == 1 {
        LearnUnit(buffer[0], buffer, c, pivot, d);
      } else if insteadOfC {
        assert Members(buffer) == Rest(fixed, lits[c], pivot);
        ReplaceFirst(c, pivot, d, insteadOfD, buffer);
      } else if insteadOfD {
        SameVariable(pivot, pivot);
        assert Members(buffer) == Rest(fixed, lits[d], Neg(pivot));
        GoodIsImplied(db, external.maxVar, removed, buffer, c, pivot, d, lits[d], Neg(pivot));
        var r := OnTheFlySelfSubsumption(d, Neg(pivot));
        EvolvesSwaps(db, Db(), pivot);
      } else {
        clause := buffer;
        ok := true;
      }
    }

    /** The resolvent replaces `c`, and `d` as well if it is part of both. */
    method ReplaceFirst(c: nat, pivot: Lit, d: nat, both: bool, ghost buffer: seq<Lit>)
      requires Valid() && Live(Db(), c) && Live(Db(), d) && c != d
      requires pivot in lits[c] && Neg(pivot) in lits[d] && Val(pivot) == 0
      requires GoodResolvent(Db(), external.maxVar, removed, buffer, c, pivot, d)
      requires Unsatisfied(fixed, lits[c], pivot) && Members(buffer) == Rest(fixed, lits[c], pivot)
      requires both ==> Members(buffer) <= Rest(fixed, lits[d], Neg(pivot))
      modifies this`clause, this`lits, this`garbage, this`occs
      ensures Valid() && Equivalent(old(Db()), Db()) && Evolves(old(Db()), Db(), pivot)
      ensures !Live(Db(), c)
      ensures var s := Strengthened(old(State()), c, pivot);
              State() == if both then Dropped(s, d) else s
    {
      hide Reconstructs, Connected;
      ghost var db := Db();
      GoodIsImplied(db, external.maxVar, removed, buffer, c, pivot, d, lits[c], pivot);
      var r := OnTheFlySelfSubsumption(c, pivot);
      if both {
        assert forall l | l in lits[r] :: l in Members(lits[r]);
        assert Live(Db(), d);
        GiveUpSubsumed(db, d, r, pivot);
        assert !Live(Db(), c);
      }
    }

    method LearnUnit(unit: Lit, buffer: seq<Lit>, c: nat, pivot: Lit, d: nat)
      requires Valid() && Live(Db(), c) && Live(Db(), d)
      requires GoodResolvent(Db(), external.maxVar, removed, buffer, c, pivot, d) && buffer == [unit]
      requires Val(pivot) == 0
      modifies this`fixed
      ensures Valid() && unit in fixed && unsat == old(unsat)
      ensures Db() == old(Db()).(fixed := old(fixed) + {unit})
      ensures Equivalent(old(Db()), Db()) && Evolves(old(Db()), Db(), pivot)
      ensures Handled(Db(), c, pivot, d)
    {
      hide Reconstructs, Connected;
      ghost var db := Db();
      assert unit in buffer && unit in Members(buffer);
      SameVariable(unit, pivot);
      forall m | IsModel(db, m) ensures True(m, unit) {
        var l :| l in buffer && True(m, l);
      }
      AssignUnit(unit);
      assert forall j: nat :: Live(Db(), j) <==> Live(db, j);
      forall m | ModelWithout(Db(), pivot, m)
        ensures HoldsBut(m, lits[c], pivot) || HoldsBut(m, lits[d], Neg(pivot))
      {
        assert True(m, unit);
        assert Holds(m, buffer);
        ResolventCovers(m, db.fixed, buffer, lits[c], lits[d], pivot);
      }
    }

    /** `d` is subsumed by the strengthened clause `r`. */
    method GiveUpSubsumed(ghost db0: Formula, d: nat, r: nat, pivot: Lit)
      requires Valid() && Live(Db(), d) && Live(Db(), r) && r != d
      requires (forall l | l in lits[r] :: l in lits[d]) && Neg(pivot) in lits[d]
      requires Equivalent(db0, Db()) && Evolves(db0, Db(), pivot)
      modifies this`garbage
      ensures Valid() && Db() == Trash(old(Db()), d) && unsat == old(unsat)
      ensures Equivalent(db0, Db()) && Evolves(db0, Db(), pivot)
    {
      ghost var db := Db();
      forall m | IsModel(Trash(db, d), m) ensures Holds(m, lits[d]) {
        assert Live(Trash(db, d), r);
        var l :| l in lits[r] && True(m, l);
        assert l in lits[d];
      }
      MarkGarbage(d);
      assert forall j: nat :: Live(Db(), j) <==> Live(db, j) && j != d;
      assert Evolves(db, Db(), pivot);
      EvolvesTransitive(db0, db, Db(), pivot);
    }

    /** Resolve two clauses, the shorter one first; garbage needs no resolvent. */
    method ResolveClauses(c: nat, pivot: Lit, d: nat) returns (ok: bool)
      requires Valid() && !unsat && c < |lits| && d < |lits|
      requires pivot in lits[c] && Neg(pivot) in lits[d] && Val(pivot) == 0
      modifies this`clause, this`lits, this`garbage, this`occs, this`fixed, this`unsat
      ensures Valid() && Equivalent(old(Db()), Db()) && Evolves(old(Db()), Db(), pivot)
      ensures ok ==> Db() == old(Db()) && GoodResolvent(Db(), external.maxVar, removed, clause, c, pivot, d)
      ensures ok ==> |clause| >= 2
      ensures !ok && !unsat ==> Handled(Db(), c, pivot, d)
      ensures Outcome(ok, State(), if ok then clause else []) == ResolvedTo(old(State()), c, pivot, d)
    {
      hide OrderedTo, Reconstructs, Connected;
      ghost var db := Db();
      EvolvesReflexive(db, pivot);
      if garbage[c] || garbage[d] {
        return false;
      }
      if |lits[c]| > |lits[d]| {
        SameVariable(pivot, pivot);
        ok := ResolveOrdered(d, Neg(pivot), c);
        EvolvesSwaps(db, Db(), pivot);
        if ok {
          assert IsResolvent(fixed, clause, lits[c], lits[d], pivot);
        } else if !unsat {
          HandledSwaps(Db(), c, pivot, d);
        }
      } else {
        ok := ResolveOrdered(c, pivot, d);
      }
    }

    // ----- Variable elimination without gates -----

    /** Resolve and, if need be, add the resolvent of one pair. */
    method AddOneResolvent(c: nat, pivot: Lit, d: nat)
      requires Valid() && !unsat && c < |lits| && d < |lits|
      requires pivot in lits[c] && Neg(pivot) in lits[d] && Val(pivot) == 0
      modifies this`clause, this`lits, this`garbage, this`occs, this`fixed, this`unsat
      ensures Valid() && Equivalent(old(Db()), Db()) && Evolves(old(Db()), Db(), pivot)
      ensures !unsat ==> Handled(Db(), c, pivot, d)
      ensures State() == AddedTo(old(State()), c, pivot, d)
    {
      hide ResolvedTo, Reconstructs, Connected, Connect, Handled, GoodResolvent, Evolves, Equivalent;
      ghost var db0 := Db();
      var ok := ResolveClauses(c, pivot, d);
      if ok {
        ghost var db, r := Db(), clause;
        LearnGood(db, r, external.maxVar, removed, c, pivot, d);
        AddResolvent();
        clause := [];
        EvolvesTransitive(db0, db, Db(), pivot);
        EquivalentTransitive(db0, db, Db());
        AddedHandles(db, r, external.maxVar, removed, c, pivot, d);
      }
    }

    /** Every pair of the two occurrence lists is handled. */
    ghost predicate PairsHandled(pivot: Lit, ps: seq<nat>, ns: seq<nat>)
      reads this
    {
      forall c, d | c in ps && d in ns :: Handled(Db(), c, pivot, d)
    }

    /** Add all resolvents on the pivot. */
    method AddResolvents(pivot: Lit)
      requires Valid() && !unsat && Val(pivot) == 0
      modifies this`clause, this`lits, this`garbage, this`occs, this`fixed, this`unsat
      ensures Valid() && Equivalent(old(Db()), Db()) && Evolves(old(Db()), Db(), pivot)
      ensures !unsat ==> PairsHandled(pivot, old(Occs(pivot)), old(Occs(Neg(pivot))))
      ensures State() == AllTo(old(State()), old(Occs(pivot)), pivot, old(Occs(Neg(pivot))))
    {
      hide RowTo, AllTo, Reconstructs;
      ghost var db, s := Db(), State();
      EvolvesReflexive(db, pivot);
      var ps, ns := Occs(pivot), Occs(Neg(pivot));
      AllFirst(s, ps, pivot, ns);
      for i := 0 to |ps|
        invariant Valid() && !unsat && Equivalent(db, Db()) && Evolves(db, Db(), pivot) && Val(pivot) == 0
        invariant Listed(Db(), ps, pivot) && Listed(Db(), ns, Neg(pivot))
        invariant State() == AllTo(s, ps[..i], pivot, ns)
        invariant forall c, d | c in ps[..i] && d in ns :: Handled(Db(), c, pivot, d)
      {
        ghost var before := Db();
        assert ps[i] in ps && forall c | c in ps[..i] :: c in ps;
        AllNext(s, ps, pivot, ns, i);
        ResolveRow(ps[i], pivot, ns, ps[..i], db);
        if unsat {
          AllStops(s, ps, pivot, ns, i + 1);
          return;
        }
        ListedStays(before, Db(), ps, pivot, pivot);
        ListedStays(before, Db(), ns, Neg(pivot), pivot);
        assert ps[..i + 1] == ps[..i] + [ps[i]];
      }
      assert ps[..|ps|] == ps;
    }

    /** One clause against all clauses with the negated pivot. */
    method ResolveRow(c: nat, pivot: Lit, ns: seq<nat>, ghost done: seq<nat>, ghost db: Formula)
      requires Valid() && !unsat && Val(pivot) == 0
      requires c < |lits| && pivot in lits[c]
      requires Listed(Db(), ns, Neg(pivot))
      requires forall x | x in done :: x < |lits|
      requires forall x, d | x in done && d in ns :: Handled(Db(), x, pivot, d)
      requires Equivalent(db, Db()) && Evolves(db, Db(), pivot)
      modifies this`clause, this`lits, this`garbage, this`occs, this`fixed, this`unsat
      ensures Valid() && Equivalent(db, Db()) && Evolves(db, Db(), pivot) && Evolves(old(Db()), Db(), pivot)
      ensures !unsat ==> Val(pivot) == 0
      ensures !unsat ==> forall x, d | x in done + [c] && d in ns :: Handled(Db(), x, pivot, d)
      ensures State() == RowTo(old(State()), c, pivot, ns)
    {
      hide RowTo, AddedTo, Reconstructs, Connected;
      ghost var s := State();
      RowFirst(s, c, pivot, ns);
      EvolvesReflexive(Db(), pivot);
      for j := 0 to |ns|
        invariant Valid() && !unsat && Val(pivot) == 0
        invariant Equivalent(db, Db()) && Evolves(db, Db(), pivot) && Evolves(old(Db()), Db(), pivot)
        invariant forall x, d | x in done && d in ns :: Handled(Db(), x, pivot, d)
        invariant Listed(Db(), ns, Neg(pivot))
        invariant forall d | d in ns[..j] :: Handled(Db(), c, pivot, d)
        invariant State() == RowTo(s, c, pivot, ns[..j])
      {
        RowNext(s, c, pivot, ns, j);
        ghost var before := Db();
        assert ns[j] in ns;
        AddOneResolvent(c, pivot, ns[j]);
        EvolvesTransitive(db, before, Db(), pivot);
        EvolvesTransitive(old(Db()), before, Db(), pivot);
        ListedStays(before, Db(), ns, Neg(pivot), pivot);
        if unsat {
          RowStops(s, c, pivot, ns, j + 1);
          return;
        }
        forall x, d | x in done && d in ns ensures Handled(Db(), x, pivot, d) {
          HandledStays(before, Db(), x, pivot, d);
        }
        forall d | d in ns[..j] ensures Handled(Db(), c, pivot, d) {
          assert d in ns;
          HandledStays(before, Db(), c, pivot, d);
        }
        assert ns[..j + 1] == ns[..j] + [ns[j]];
      }
      assert ns[..|ns|] == ns;
    }

    /** Move every clause with the pivot, then every clause with its negation, to the
        extension stack, and retire the variable. */
    method MarkEliminatedClausesAsGarbage(pivot: Lit)
      requires Valid() && !unsat && Val(pivot) == 0 && AllHandled(Db(), pivot)
      modifies this`garbage, this`occs, this`removed, external`extension, external`stack
      ensures Valid() && !unsat
      ensures forall i: nat | Live(Db(), i) :: pivot !in lits[i] && Neg(pivot) !in lits[i]
      ensures forall i: nat | Live(Db(), i) :: Live(old(Db()), i)
      ensures forall i: nat | Live(old(Db()), i) && pivot !in lits[i] && Neg(pivot) !in lits[i] :: Live(Db(), i)
      ensures removed == old(removed) + {Abs(pivot)}
      ensures occs == old(occs)[pivot := []][Neg(pivot) := []]
      ensures external.stack == old(external.stack) + Moved(old(Db()), Db(), old(Occs(pivot)), pivot)
                                + Moved(old(Db()), Db(), old(Occs(Neg(pivot))), Neg(pivot))
    {
      hide Reconstructs, Moved, AllHandled;
      SameVariable(pivot, pivot);
      ghost var db := Db();
      WeakenAll(pivot);
      ghost var db' := Db();
      WeakenAll(Neg(pivot));
      MovedSame(db, db, db', Db(), Occs(pivot), pivot);
      MovedSame(db, db', Db(), Db(), Occs(Neg(pivot)), Neg(pivot));
      Retire(pivot);
    }

    /** Erase both lists of a variable that is in no live clause, and count it as removed. */
    method Retire(pivot: Lit)
      requires Valid() && forall i: nat | Live(Db(), i) :: pivot !in lits[i] && Neg(pivot) !in lits[i]
      modifies this`occs, this`removed
      ensures Valid() && removed == old(removed) + {Abs(pivot)}
      ensures occs == old(occs)[pivot := []][Neg(pivot) := []]
    {
      hide Reconstructs, Connected;
      ConnectedErase(Db(), occs, pivot);
      occs := occs[pivot := []];
      ConnectedErase(Db(), occs, Neg(pivot));
      occs := occs[Neg(pivot) := []];
      removed := removed + {Abs(pivot)};
      forall i: nat, l | Live(Db(), i) && l in lits[i] ensures Abs(l) !in removed {
        SameVariable(l, pivot);
      }
    }

    /** Move the clauses with one literal to the extension stack. */
    method WeakenAll(pivot: Lit)
      requires Valid() && Val(pivot) == 0 && AllHandled(Db(), pivot)
      modifies this`garbage, external`extension, external`stack
      ensures Valid() && AllHandled(Db(), pivot) && AllHandled(Db(), Neg(pivot))
      ensures forall i: nat | Live(Db(), i) :: pivot !in lits[i]
      ensures forall i: nat | Live(Db(), i) :: Live(old(Db()), i)
      ensures forall i: nat | Live(old(Db()), i) && pivot !in lits[i] :: Live(Db(), i)
      ensures external.stack == old(external.stack) + Moved(old(Db()), Db(), Occs(pivot), pivot)
    {
      hide AllHandled, Reconstructs, Sane;
      var ps := Occs(pivot);
      ghost var db0, base := Db(), external.stack;
      assert Listed(db0, ps, pivot);
      for x := 0 to |ps|
        invariant Valid() && AllHandled(Db(), pivot) && lits == db0.lits
        invariant Left(db0, Db(), ps[..x])
        invariant external.stack == base + Moved(db0, Db(), ps[..x], pivot)
      {
        assert ps[x] in ps;
        assert ps[..x + 1] == ps[..x] + [ps[x]];
        WeakenNext(ps[x], pivot, db0, base, ps[..x]);
      }
      assert ps[..|ps|] == ps;
      HandledBothWays(Db(), pivot);
    }

    /** One clause of the list. */
    method WeakenNext(c: nat, pivot: Lit, ghost db0: Formula, ghost base: seq<Entry>, ghost done: seq<nat>)
      requires Valid() && Val(pivot) == 0 && AllHandled(Db(), pivot) && c < |lits| && pivot in lits[c]
      requires Left(db0, Db(), done) && external.stack == base + Moved(db0, Db(), done, pivot)
      modifies this`garbage, external`extension, external`stack
      ensures Valid() && AllHandled(Db(), pivot)
      ensures Left(db0, Db(), done + [c]) && external.stack == base + Moved(db0, Db(), done + [c], pivot)
    {
      hide AllHandled, Moved, Reconstructs, Connected, Repairable;
      ghost var db := Db();
      if !garbage[c] {
        assert Live(db, c);
        HandledIsRepairable(db, c, pivot);
        WeakenClause(c, pivot);
        assert forall j: nat :: Live(Db(), j) <==> Live(db, j) && j != c;
        HandledAfterTrash(db, c, pivot);
        MovedOne(db0, db, Db(), done, c, pivot, base);
      } else {
        MovedNext(db0, db, done, c, pivot);
      }
    }

    /** Eliminate a variable: all resolvents in, all its clauses out.  Models of the old
        formula stay models, and models of the new one can be repaired; the new formula is the
        old one after all resolutions, without the clauses of the variable, which are pushed, and
        nothing else is touched. */
    method EliminateVariable(pivot: Lit)
      requires Valid() && !unsat && Val(pivot) == 0
      modifies this`clause, this`lits, this`garbage, this`occs, this`fixed, this`unsat, this`removed,
               external`extension, external`stack
      ensures Valid()
      ensures forall m | IsModel(old(Db()), m) :: IsModel(Db(), m)
      ensures forall i: nat | Live(old(Db()), i) && !OnVariable(old(lits)[i], pivot) ::
                Live(Db(), i) && lits[i] == old(lits)[i]
      ensures var s := AllTo(old(State()), old(Occs(pivot)), pivot, old(Occs(Neg(pivot))));
              if unsat then State() == s && removed == old(removed) && external.stack == old(external.stack)
              else Eliminates(s, State(), pivot, old(external.stack), external.stack)
                   && removed == old(removed) + {Abs(pivot)}
      ensures unsat ==> !Satisfiable(original, [])
    {
      hide Reconstructs, AllTo, Moved, Handled;
      ghost var db := Db();
      ghost var ps, ns := Occs(pivot), Occs(Neg(pivot));
      AddResolvents(pivot);
      if !unsat {
        EverythingHandled(db, pivot, ps, ns);
        ghost var s := State();
        MarkEliminatedClausesAsGarbage(pivot);
        FewerKeepModels(s.db, Db());
      }
      SameSatisfiability(original, Db(), external.stack);
    }

    lemma EverythingHandled(db: Formula, pivot: Lit, ps: seq<nat>, ns: seq<nat>)
      requires Evolves(db, Db(), pivot) && PairsHandled(pivot, ps, ns)
      requires forall i: nat | Live(db, i) && pivot in db.lits[i] :: i in ps
      requires forall i: nat | Live(db, i) && Neg(pivot) in db.lits[i] :: i in ns
      ensures AllHandled(Db(), pivot)
    {
      forall c: nat, d: nat | Live(Db(), c) && Live(Db(), d) && pivot in lits[c] && Neg(pivot) in lits[d]
        ensures Handled(Db(), c, pivot, d)
      {
        assert Live(db, c) && Live(db, d);
        assert c in ps && d in ns;
      }
    }
  }

  ghost predicate OnVariable(c: Clause, pivot: Lit) {
    pivot in c || Neg(pivot) in c
  }

  function ListIn(occs: map<Lit, seq<nat>>, l: Lit): seq<nat> {
    if l in occs then occs[l] else []
  }

  /** Exactly the live clauses of the variable leave and are pushed, those with the literal first;
      its two lists are emptied. */
  ghost predicate Eliminates(s: Stage, s': Stage, pivot: Lit, stack: seq<Entry>, stack': seq<Entry>) {
    && s'.db == s.db.(garbage := s'.db.garbage) && |s'.db.garbage| == |s.db.garbage|
    && (forall i: nat | i < |s.db.lits| :: Live(s'.db, i) <==> Live(s.db, i) && !OnVariable(s.db.lits[i], pivot))
    && s'.occs == s.occs[pivot := []][Neg(pivot) := []]
    && stack' == stack + Moved(s.db, s'.db, ListIn(s.occs, pivot), pivot)
                       + Moved(s.db, s'.db, ListIn(s.occs, Neg(pivot)), Neg(pivot))
  }

  lemma FewerKeepModels(db: Formula, db': Formula)
    requires db'.lits == db.lits && db'.fixed == db.fixed && db'.unsat == db.unsat
    requires forall i: nat | Live(db', i) :: Live(db, i)
    ensures forall m | IsModel(db, m) :: IsModel(db', m)
  {
    forall m | IsModel(db, m) ensures IsModel(db', m) {
      forall i: nat | Live(db', i) ensures Holds(m, db'.lits[i]) {
        assert Live(db, i);
      }
    }
  }

  /** From a model of what is left to a model of the original formula. */
  method ExtendModel(s: Simplifier, values: seq<bool>)
    requires s.Valid() && IsModel(s.Db(), TrueVars(values))
    modifies s.external`vals
    ensures Models(TrueVars(s.external.vals), s.original)
    ensures TrueVars(s.external.vals) == RepairAll(TrueVars(values), s.external.stack)
  {
    s.external.vals := values;
    s.external.Extend();
  }

  /** Of the clauses live in `db` those in `gone` are no longer live in `db'`. */
  ghost predicate Left(db: Formula, db': Formula, gone: seq<nat>) {
    forall i: nat {:trigger Live(db', i)} :: Live(db', i) <==> Live(db, i) && i !in gone
  }

  /** Every pair of live clauses on the pivot is handled. */
  ghost predicate AllHandled(db: Formula, pivot: Lit) {
    forall c: nat, d: nat {:trigger Handled(db, c, pivot, d)} |
      Live(db, c) && Live(db, d) && pivot in db.lits[c] && Neg(pivot) in db.lits[d] :: Handled(db, c, pivot, d)
  }

  lemma HandledIsRepairable(db: Formula, i: nat, pivot: Lit)
    requires |db.lits| == |db.garbage| && Live(db, i) && pivot in db.lits[i] && ValueOf(db.fixed, pivot) == 0
    requires AllHandled(db, pivot)
    ensures Repairable(db, i, pivot)
  {
    forall j: nat, m |
      Live(db, j) && j != i && Neg(pivot) in db.lits[j] && IsModel(Trash(db, i), m) && !Holds(m, db.lits[i])
      ensures HoldsBut(m, db.lits[j], Neg(pivot))
    {
      assert Handled(db, i, pivot, j);
      forall k: nat | Live(db, k) && pivot !in db.lits[k] && Neg(pivot) !in db.lits[k] ensures Holds(m, db.lits[k]) {
        assert Live(Trash(db, i), k);
      }
      assert ModelWithout(db, pivot, m);
      assert !HoldsBut(m, db.lits[i], pivot);
    }
  }

  lemma HandledAfterTrash(db: Formula, i: nat, pivot: Lit)
    requires |db.lits| == |db.garbage| && Live(db, i) && pivot in db.lits[i]
    requires AllHandled(db, pivot)
    ensures AllHandled(Trash(db, i), pivot)
  {
    var db' := Trash(db, i);
    assert forall j: nat :: Live(db', j) <==> Live(db, j) && j != i;
    assert Evolves(db, db', pivot);
    forall c: nat, d: nat | Live(db', c) && Live(db', d) && pivot in db'.lits[c] && Neg(pivot) in db'.lits[d]
      ensures Handled(db', c, pivot, d)
    {
      assert Handled(db, c, pivot, d);
      HandledStays(db, db', c, pivot, d);
    }
  }

  lemma HandledBothWays(db: Formula, pivot: Lit)
    requires AllHandled(db, pivot)
    ensures AllHandled(db, Neg(pivot))
  {
    SameVariable(pivot, pivot);
    forall c: nat, d: nat | Live(db, c) && Live(db, d) && Neg(pivot) in db.lits[c] && pivot in db.lits[d]
      ensures Handled(db, c, Neg(pivot), d)
    {
      assert Handled(db, d, pivot, c);
      HandledSwaps(db, c, Neg(pivot), d);
    }
  }

  /** A good resolvent may be learned. */
  lemma LearnGood(db: Formula, r: Clause, maxVar: nat, removed: set<nat>, c: nat, pivot: Lit, d: nat)
    requires |db.lits| == |db.garbage| && c < |db.lits| && d < |db.lits|
    requires GoodResolvent(db, maxVar, removed, r, c, pivot, d)
    ensures Proper(r, maxVar) && (forall l | l in r :: Abs(l) !in removed) && forall m | IsModel(db, m) :: Holds(m, r)
    ensures Evolves(db, Learn(db, r), pivot)
  {
    var db' := Learn(db, r);
    SameVariable(pivot, pivot);
    assert forall l | l in r :: Abs(l) != Abs(pivot);
    assert forall j: nat :: Live(db', j) <==> Live(db, j) || j == |db.lits|;
  }

  lemma AddedHandles(db: Formula, r: Clause, maxVar: nat, removed: set<nat>, c: nat, pivot: Lit, d: nat)
    requires |db.lits| == |db.garbage| && c < |db.lits| && d < |db.lits|
    requires GoodResolvent(db, maxVar, removed, r, c, pivot, d)
    ensures Handled(Learn(db, r), c, pivot, d)
  {
    var db' := Learn(db, r);
    SameVariable(pivot, pivot);
    forall m | ModelWithout(db', pivot, m)
      ensures HoldsBut(m, db'.lits[c], pivot) || HoldsBut(m, db'.lits[d], Neg(pivot))
    {
      assert Live(db', |db.lits|);
      assert Holds(m, r);
      ResolventCovers(m, db.fixed, r, db.lits[c], db.lits[d], pivot);
    }
  }

  /** `r` is the resolvent without decided literals: proper, implied, free of the pivot. */
  ghost predicate GoodResolvent(db: Formula, maxVar: nat, removed: set<nat>, r: Clause, c: nat, pivot: Lit, d: nat)
    requires c < |db.lits| && d < |db.lits|
  {
    && Proper(r, maxVar)
    && IsResolvent(db.fixed, r, db.lits[c], db.lits[d], pivot)
    && (forall l | l in r :: Abs(l) !in removed && Abs(l) != Abs(pivot) && ValueOf(db.fixed, l) == 0)
    && (forall m | IsModel(db, m) :: Holds(m, r))
  }

  lemma CollectedIsGood(db: Formula, maxVar: nat, removed: set<nat>, first: Clause, r: Clause,
                        c: nat, pivot: Lit, d: nat)
    requires Sane(db, maxVar, removed) && Live(db, c) && Live(db, d)
    requires pivot in db.lits[c] && Neg(pivot) in db.lits[d]
    requires Unsatisfied(db.fixed, db.lits[c], pivot) && Unsatisfied(db.fixed, db.lits[d], Neg(pivot))
    requires Members(first) == Rest(db.fixed, db.lits[c], pivot) && DistinctLits(r)
    requires Members(r) == Members(first) + Rest(db.fixed, db.lits[d], Neg(pivot))
    requires NoClash(Rest(db.fixed, db.lits[d], Neg(pivot)), Members(first))
    ensures GoodResolvent(db, maxVar, removed, r, c, pivot, d)
  {
    var C, D := Rest(db.fixed, db.lits[c], pivot), Rest(db.fixed, db.lits[d], Neg(pivot));
    assert Proper(db.lits[c], maxVar) && Proper(db.lits[d], maxVar);
    forall l | l in r
      ensures Neg(l) !in r && Abs(l) <= maxVar && Abs(l) !in removed
      ensures Abs(l) != Abs(pivot) && ValueOf(db.fixed, l) == 0
    {
      assert l in Members(r);
      SameVariable(l, pivot);
      SameVariable(pivot, pivot);
      SameVariable(l, l);
      assert l in C ==> Neg(l) !in C;
      assert l in D ==> Neg(l) !in D;
      assert Neg(l) !in Members(r);
    }
    forall m | IsModel(db, m) ensures Holds(m, r) {
      ResolventHolds(m, db.fixed, r, db.lits[c], db.lits[d], pivot);
    }
  }

  lemma TautologyHandled(db: Formula, c: nat, pivot: Lit, d: nat)
    requires c < |db.lits| && d < |db.lits|
    requires exists l :: l in db.lits[d] && l != Neg(pivot) && Neg(l) in Rest(db.fixed, db.lits[c], pivot)
    ensures Handled(db, c, pivot, d)
  {
    var l :| l in db.lits[d] && l != Neg(pivot) && Neg(l) in Rest(db.fixed, db.lits[c], pivot);
    SameVariable(l, l);
    forall m ensures True(m, l) || True(m, Neg(l)) {}
  }

  /** A good resolvent that is part of one antecedent makes it hold without its pivot. */
  lemma GoodIsImplied(db: Formula, maxVar: nat, removed: set<nat>, r: Clause, c: nat, pivot: Lit, d: nat,
                      target: Clause, skip: Lit)
    requires c < |db.lits| && d < |db.lits| && GoodResolvent(db, maxVar, removed, r, c, pivot, d)
    requires Members(r) == Rest(db.fixed, target, skip)
    ensures forall m | IsModel(db, m) :: exists l :: l in Rest(db.fixed, target, skip) && True(m, l)
  {
    forall m | IsModel(db, m) ensures exists l :: l in Rest(db.fixed, target, skip) && True(m, l) {
      var l :| l in r && True(m, l);
      assert l in Members(r);
    }
  }

  lemma StrengthenedIsProper(fixed: set<Lit>, c: Clause, pivot: Lit, buffer: seq<Lit>, maxVar: nat)
    requires Proper(c, maxVar) && DistinctLits(buffer) && Members(buffer) == Rest(fixed, c, pivot) && pivot in c
    ensures Proper(buffer, maxVar) && pivot !in buffer && Neg(pivot) !in buffer
    ensures forall l | l in buffer :: l in c
  {
    assert forall l | l in buffer :: l in Members(buffer);
  }

  lemma StrengtheningEvolves(db: Formula, c: nat, pivot: Lit, r: Clause)
    requires |db.lits| == |db.garbage| && Live(db, c) && pivot in db.lits[c]
    requires pivot !in r && Neg(pivot) !in r
    ensures Evolves(db, Trash(Learn(db, r), c), pivot)
  {
    var db' := Trash(Learn(db, r), c);
    forall i: nat | i < |db.lits| && Live(db', i) ensures Live(db, i) {}
    forall i: nat | Live(db, i) && i != c ensures Live(db', i) {}
  }

  /** The first `i` literals of `d` are collected on top of the marked ones. */
  ghost predicate Collected(fixed: set<Lit>, d: Clause, skip: Lit, i: nat, marks: set<Lit>, buffer: seq<Lit>, t: nat)
    requires i <= |d|
  {
    && DistinctLits(d) && DistinctLits(buffer)
    && (forall a | 0 <= a < i :: d[a] !in fixed)
    && Members(buffer) == marks + Rest(fixed, d[..i], skip)
    && t == |Rest(fixed, d[..i], skip)| + (if skip in d[..i] then 1 else 0)
    && NoClash(Rest(fixed, d[..i], skip), marks)
  }

  lemma CollectStart(fixed: set<Lit>, d: Clause, skip: Lit, first: seq<Lit>)
    requires DistinctLits(d) && DistinctLits(first)
    ensures Collected(fixed, d, skip, 0, Members(first), first, 0)
  {
    assert Rest(fixed, d[..0], skip) == {};
  }

  lemma CollectEnd(fixed: set<Lit>, d: Clause, skip: Lit, marks: set<Lit>, buffer: seq<Lit>, t: nat)
    requires Collected(fixed, d, skip, |d|, marks, buffer, t) && skip in d
    ensures DistinctLits(buffer) && Unsatisfied(fixed, d, skip)
    ensures Members(buffer) == marks + Rest(fixed, d, skip)
    ensures t == |Rest(fixed, d, skip)| + 1 && NoClash(Rest(fixed, d, skip), marks)
    ensures forall l | l in d :: l !in fixed
  {
    assert d[..|d|] == d;
  }

  lemma CollectStep(fixed: set<Lit>, d: Clause, skip: Lit, i: nat, marks: set<Lit>, buffer: seq<Lit>, t: nat)
    requires i < |d| && Collected(fixed, d, skip, i, marks, buffer, t) && ValueOf(fixed, skip) == 0
    ensures d[i] == skip ==> Collected(fixed, d, skip, i + 1, marks, buffer, t + 1)
    ensures d[i] != skip && ValueOf(fixed, d[i]) < 0 ==> Collected(fixed, d, skip, i + 1, marks, buffer, t)
    ensures DistinctLits(buffer) && (d[i] in marks <==> d[i] in Members(buffer))
    ensures d[i] != skip && ValueOf(fixed, d[i]) == 0 && Neg(d[i]) !in marks ==>
              Collected(fixed, d, skip, i + 1, marks, AddUnmarked(buffer, d[i], marks), t + 1)
  {
    hide Collected;
    CollectOld(fixed, d, skip, i, marks, buffer, t);
    CollectFresh(fixed, d, skip, i, marks, buffer, t);
  }

  lemma CollectOld(fixed: set<Lit>, d: Clause, skip: Lit, i: nat, marks: set<Lit>, buffer: seq<Lit>, t: nat)
    requires i < |d| && Collected(fixed, d, skip, i, marks, buffer, t) && ValueOf(fixed, skip) == 0
    ensures d[i] == skip ==> Collected(fixed, d, skip, i + 1, marks, buffer, t + 1)
    ensures d[i] != skip && ValueOf(fixed, d[i]) < 0 ==> Collected(fixed, d, skip, i + 1, marks, buffer, t)
  {
    RestStep(fixed, d, skip, i);
  }

  lemma CollectFresh(fixed: set<Lit>, d: Clause, skip: Lit, i: nat, marks: set<Lit>, buffer: seq<Lit>, t: nat)
    requires i < |d| && Collected(fixed, d, skip, i, marks, buffer, t) && ValueOf(fixed, skip) == 0
    ensures DistinctLits(buffer) && (d[i] in marks <==> d[i] in Members(buffer))
    ensures d[i] != skip && ValueOf(fixed, d[i]) == 0 && Neg(d[i]) !in marks ==>
              Collected(fixed, d, skip, i + 1, marks, AddUnmarked(buffer, d[i], marks), t + 1)
  {
    RestStep(fixed, d, skip, i);
  }

  function AddUnmarked(c: seq<Lit>, l: Lit, marks: set<Lit>): (c': seq<Lit>)
    requires DistinctLits(c) && (l in marks <==> l in Members(c))
    ensures DistinctLits(c') && Members(c') == Members(c) + {l}
  {
    if l in marks then c else AddDistinct(c, l)
  }

  ghost predicate NoClash(A: set<Lit>, B: set<Lit>) {
    forall l {:trigger l in A} | l in A :: Neg(l) !in B
  }

  function AddDistinct(c: seq<Lit>, l: Lit): (c': seq<Lit>)
    requires DistinctLits(c) && l !in Members(c)
    ensures DistinctLits(c') && Members(c') == Members(c) + {l}
  {
    DistinctMembers(c, l);
    assert forall a | 0 <= a < |c| :: c[a] in Members(c);
    c + [l]
  }

  lemma RestStep(fixed: set<Lit>, c: Clause, skip: Lit, i: nat)
    requires i < |c| && DistinctLits(c)
    ensures c[i] !in c[..i]
    ensures Rest(fixed, c[..i + 1], skip)
            == Rest(fixed, c[..i], skip) + (if c[i] != skip && ValueOf(fixed, c[i]) == 0 then {c[i]} else {})
    ensures skip in c[..i + 1] <==> skip in c[..i] || c[i] == skip
  {
    assert c[..i + 1] == c[..i] + [c[i]];
  }

  function Fresh(clauses: seq<Clause>, fixed: set<Lit>): Formula {
    Formula(clauses, seq(|clauses|, i => false), fixed, false)
  }

  /** The occurrence lists of the live clauses. */
  method Occurrences(db: Formula) returns (occs: map<Lit, seq<nat>>)
    requires |db.lits| == |db.garbage|
    ensures Connected(db, occs)
  {
    hide Connected;
    occs := map[];
    ConnectedNothing(First(db, 0));
    for r := 0 to |db.lits|
      invariant Connected(First(db, r), occs)
    {
      ConnectedNext(db, r, occs);
      if !db.garbage[r] {
        occs := Connect(occs, db.lits[r], r);
      }
    }
    assert First(db, |db.lits|) == db;
  }

  /** The formula of the first clauses. */
  ghost function First(db: Formula, n: nat): Formula
    requires n <= |db.lits| == |db.garbage|
  {
    db.(lits := db.lits[..n], garbage := db.garbage[..n])
  }

  lemma ConnectedNothing(db: Formula)
    requires db.lits == []
    ensures Connected(db, map[])
  {}

  lemma ConnectedNext(db: Formula, r: nat, occs: map<Lit, seq<nat>>)
    requires r < |db.lits| == |db.garbage| && Connected(First(db, r), occs)
    ensures Connected(First(db, r + 1), if db.garbage[r] then occs else Connect(occs, db.lits[r], r))
  {
    var before, after := First(db, r), First(db, r + 1);
    if db.garbage[r] {
      assert forall i: nat {:trigger Live(after, i)} | Live(after, i) ::
               Live(before, i) && after.lits[i] == before.lits[i];
    } else {
      assert after == Learn(before, db.lits[r]);
      ConnectedLearn(before, db.lits[r], occs, Connect(occs, db.lits[r], r));
    }
  }

  /** The units of the input as clauses. */
  function Units(units: seq<Lit>): seq<Clause> {
    seq(|units|, i requires 0 <= i < |units| => [units[i]])
  }

  /** At first what is left is the original formula. */
  lemma FreshReconstructs(clauses: seq<Clause>, units: seq<Lit>)
    ensures Reconstructs(clauses + Units(units), Fresh(clauses, set l | l in units), [])
  {
    var original, db := clauses + Units(units), Fresh(clauses, set l | l in units);
    forall m ensures IsModel(db, m) <==> Models(m, original) {
      if IsModel(db, m) {
        forall c | c in original ensures Holds(m, c) {
          var i :| 0 <= i < |original| && original[i] == c;
          if i < |clauses| {
            assert Live(db, i);
          } else {
            assert original[i] == [units[i - |clauses|]] && units[i - |clauses|] in db.fixed;
            assert units[i - |clauses|] in c;
          }
        }
      }
      if Models(m, original) {
        forall l | l in db.fixed ensures True(m, l) {
          var i :| 0 <= i < |units| && units[i] == l;
          assert original[|clauses| + i] == [l];
          assert Holds(m, [l]);
        }
        forall i: nat | Live(db, i) ensures Holds(m, db.lits[i]) {
          assert original[i] == db.lits[i];
        }
      }
      NothingToRepair(m);
    }
  }

  /** Append `r` to the list of each literal of `c`. */
  function Connect(occs: map<Lit, seq<nat>>, c: Clause, r: nat): (occs': map<Lit, seq<nat>>)
    ensures forall l :: l in occs' <==> l in occs || l in c
    ensures forall l, i | l in occs' :: i in occs'[l] <==> (l in occs && i in occs[l]) || (l in c && i == r)
    ensures forall l | l in occs && l !in c :: occs'[l] == occs[l]
  {
    if c == [] then occs
    else
      var l, before := c[0], Connect(occs, c[1..], r);
      before[l := (if l in before then before[l] else []) + [r]]
  }

  lemma ConnectedErase(db: Formula, occs: map<Lit, seq<nat>>, l: Lit)
    requires Connected(db, occs) && forall i: nat | Live(db, i) :: l !in db.lits[i]
    ensures Connected(db, occs[l := []])
  {
    var occs' := occs[l := []];
    forall k, i | k in occs' && i in occs'[k] ensures i < |db.lits| && k in db.lits[i] {
      assert k != l && k in occs && i in occs[k];
    }
  }

  lemma ConnectedLearn(db: Formula, c: Clause, occs: map<Lit, seq<nat>>, occs': map<Lit, seq<nat>>)
    requires |db.lits| == |db.garbage| && Connected(db, occs) && occs' == Connect(occs, c, |db.lits|)
    ensures Connected(Learn(db, c), occs')
  {
    var db' := Learn(db, c);
    forall i: nat, l | Live(db', i) && l in db'.lits[i] ensures l in occs' && i in occs'[l] {
      if i < |db.lits| {
        assert Live(db, i);
      }
    }
    forall l, i | l in occs' && i in occs'[l] ensures i < |db'.lits| && l in db'.lits[i] {
      if l in occs && i in occs[l] {
        assert i < |db.lits| && l in db.lits[i];
      } else {
        assert l in c && i == |db.lits|;
      }
    }
  }
}
