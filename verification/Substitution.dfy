/** The second half of equivalent literal detection: literals are replaced by their
    representatives in all clauses, and the extension stack learns to restore them. */
module Substitution {
  import opened Sat
  import opened Reconstruction
  import opened Inprocessing
  import Decompose
  import BinaryGraph

  // ----- Representatives -----

  predicate Moves(reprs: map<Lit, Lit>, l: Lit) {
    l in reprs && reprs[l] != l
  }

  ghost predicate MapsWell(reprs: map<Lit, Lit>, l: Lit) {
    && l in reprs && Neg(l) in reprs && reprs[Neg(l)] == Neg(reprs[l])
    && reprs[l] in reprs && reprs[reprs[l]] == reprs[l]
  }

  /** They commute with negation and represent themselves. */
  ghost predicate Mapping(reprs: map<Lit, Lit>, maxVar: nat) {
    forall l {:trigger MapsWell(reprs, l)} | l in reprs :: MapsWell(reprs, l) && Abs(l) <= maxVar
  }

  /** Every literal has the value of its representative. */
  ghost predicate Agrees(reprs: map<Lit, Lit>, m: Assignment) {
    forall l | l in reprs :: True(m, l) <==> True(m, reprs[l])
  }

  /** The two formulas have the same models among those that agree. */
  ghost predicate SameAgreeing(reprs: map<Lit, Lit>, db: Formula, db': Formula) {
    forall m | Agrees(reprs, m) :: IsModel(db, m) <==> IsModel(db', m)
  }

  // ----- Restoring the replaced literals -----

  /** The two clauses that make `v` equivalent to its representative, as entries. */
  function Pair(v: Lit, other: Lit, id: int): seq<Entry> {
    [Entry([Neg(v)], id + 1, [Neg(v), other]), Entry([v], id + 2, [v, Neg(other)])]
  }

  /** The pairs of all replaced variables up to `n`, numbered from `id` on. */
  function Pairs(reprs: map<Lit, Lit>, n: nat, id: int): seq<Entry> {
    if n == 0 then [] else
      var front := Pairs(reprs, n - 1, id);
      if Moves(reprs, n) then front + Pair(n, reprs[n], id + |front|) else front
  }

  lemma {:induction false} RepairAllConcat(m: Assignment, stack: seq<Entry>, es: seq<Entry>)
    ensures RepairAll(m, stack + es) == RepairAll(RepairAll(m, es), stack)
  {
    if stack == [] {
      assert stack + es == es;
    } else {
      assert (stack + es)[1..] == stack[1..] + es;
      RepairAllConcat(m, stack[1..], es);
    }
  }

  /** A pair gives its variable the value of the representative. */
  lemma RepairPair(m: Assignment, v: Lit, other: Lit, id: int)
    requires v > 0 && Abs(other) != v
    ensures forall x: int :: x in RepairAll(m, Pair(v, other, id)) <==> if x == v then True(m, other) else x in m
  {
    var e1, e2 := Pair(v, other, id)[0], Pair(v, other, id)[1];
    var m1 := Repair(m, e2);
    SetAllOne(m, v);
    SetAllOne(m1, Neg(v));
    SetTrueKeeps(m, v);
    BinaryHolds(m, v, Neg(other));
    BinaryHolds(m1, Neg(v), other);
    assert RepairAll(m, []) == m;
    assert Pair(v, other, id)[1..] == [e2] && [e2][1..] == [];
    assert RepairAll(m, [e2]) == m1;
    assert RepairAll(m, Pair(v, other, id)) == Repair(m1, e1);
  }

  lemma BinaryHolds(m: Assignment, a: Lit, b: Lit)
    ensures Holds(m, [a, b]) <==> True(m, a) || True(m, b)
  {
    assert a in [a, b] && b in [a, b];
  }

  lemma OtherVariable(reprs: map<Lit, Lit>, maxVar: nat, l: Lit)
    requires Mapping(reprs, maxVar) && Moves(reprs, l)
    ensures Abs(reprs[l]) != Abs(l) && !Moves(reprs, reprs[l]) && !Moves(reprs, Neg(reprs[l]))
    ensures Moves(reprs, Neg(l))
  {
    assert MapsWell(reprs, l);
    assert MapsWell(reprs, reprs[l]);
    SameVariable(l, reprs[l]);
    SameVariable(reprs[l], reprs[l]);
  }

  /** `m'` is `m` with the replaced variables up to `n` set like their representatives. */
  ghost predicate Restored(reprs: map<Lit, Lit>, n: nat, m: Assignment, m': Assignment) {
    forall v: int :: v in m' <==> if 0 < v <= n && Moves(reprs, v) then True(m, reprs[v]) else v in m
  }

  lemma RestoredNext(reprs: map<Lit, Lit>, maxVar: nat, n: Lit, m: Assignment, m1: Assignment, m': Assignment)
    requires n > 0 && Mapping(reprs, maxVar) && Moves(reprs, n)
    requires forall x: int :: x in m1 <==> if x == n then True(m, reprs[n]) else x in m
    requires Restored(reprs, n - 1, m1, m')
    ensures Restored(reprs, n, m, m')
  {
    forall v: int ensures v in m' <==> if 0 < v <= n && Moves(reprs, v) then True(m, reprs[v]) else v in m {
      if 0 < v < n && Moves(reprs, v) {
        SameRepr(reprs, maxVar, n, v, m, m1);
      }
    }
  }

  lemma RestoredNothing(reprs: map<Lit, Lit>, m: Assignment)
    ensures Restored(reprs, 0, m, m)
  {}

  lemma RestoredSkip(reprs: map<Lit, Lit>, n: nat, m: Assignment, m': Assignment)
    requires n > 0 && !Moves(reprs, n) && Restored(reprs, n - 1, m, m')
    ensures Restored(reprs, n, m, m')
  {}

  /** Setting one replaced variable changes no representative. */
  lemma SameRepr(reprs: map<Lit, Lit>, maxVar: nat, n: Lit, v: Lit, m: Assignment, m': Assignment)
    requires Mapping(reprs, maxVar) && Moves(reprs, n) && Moves(reprs, v)
    requires forall x: int | x != n :: x in m' <==> x in m
    ensures n > 0 ==> (True(m', reprs[v]) <==> True(m, reprs[v]))
  {
    OtherVariable(reprs, maxVar, n);
    OtherVariable(reprs, maxVar, v);
    SameVariable(reprs[v], n);
  }

  /** Repairing all pairs sets the replaced variables like their representatives and
      leaves the others alone. */
  lemma {:induction false} RepairPairs(reprs: map<Lit, Lit>, maxVar: nat, n: nat, id: int, m: Assignment)
    requires Mapping(reprs, maxVar)
    ensures Restored(reprs, n, m, RepairAll(m, Pairs(reprs, n, id)))
  {
    hide Mapping, RepairAll, Pair, Restored;
    if n == 0 {
      NothingToRepair(m);
      RestoredNothing(reprs, m);
    } else if Moves(reprs, n) {
      var front := Pairs(reprs, n - 1, id);
      var pair := Pair(n, reprs[n], id + |front|);
      var m1 := RepairAll(m, pair);
      OtherVariable(reprs, maxVar, n);
      RepairPair(m, n, reprs[n], id + |front|);
      RepairAllConcat(m, front, pair);
      RepairPairs(reprs, maxVar, n - 1, id, m1);
      RestoredNext(reprs, maxVar, n, m, m1, RepairAll(m1, front));
    } else {
      RepairPairs(reprs, maxVar, n - 1, id, m);
      RestoredSkip(reprs, n, m, RepairAll(m, Pairs(reprs, n - 1, id)));
    }
  }

  /** After that all literals have the value of their representative, and what does not move
      is as before. */
  lemma RepairedAgrees(reprs: map<Lit, Lit>, maxVar: nat, id: int, m: Assignment)
    requires Mapping(reprs, maxVar)
    ensures var m' := RepairAll(m, Pairs(reprs, maxVar, id));
            && Agrees(reprs, m')
            && forall l: Lit | !Moves(reprs, l) && !Moves(reprs, Neg(l)) :: True(m', l) <==> True(m, l)
  {
    RepairPairs(reprs, maxVar, maxVar, id, m);
    var m' := RepairAll(m, Pairs(reprs, maxVar, id));
    forall l: Lit | !Moves(reprs, l) && !Moves(reprs, Neg(l)) ensures True(m', l) <==> True(m, l) {}
    forall l | l in reprs ensures True(m', l) <==> True(m', reprs[l]) {
      if Moves(reprs, l) {
        assert MapsWell(reprs, l);
        OtherVariable(reprs, maxVar, l);
        SameVariable(reprs[l], reprs[l]);
      }
    }
  }

  // ----- Replacing in a clause -----

  /** The representatives of the undecided literals that are undecided themselves. */
  ghost function Image(fixed: set<Lit>, reprs: map<Lit, Lit>, c: Clause): set<Lit> {
    set l | l in c && l in reprs && ValueOf(fixed, l) == 0 && ValueOf(fixed, reprs[l]) == 0 :: reprs[l]
  }

  /** A literal or its representative is true, or two representatives are complementary. */
  ghost predicate Trivial(fixed: set<Lit>, reprs: map<Lit, Lit>, c: Clause) {
    || (exists l :: l in c && (l in fixed || (l in reprs && ValueOf(fixed, l) == 0 && reprs[l] in fixed)))
    || (exists x :: x in Image(fixed, reprs, c) && Neg(x) in Image(fixed, reprs, c))
  }

  lemma TrivialGrows(fixed: set<Lit>, reprs: map<Lit, Lit>, c: Clause, k: nat)
    requires k <= |c| && Trivial(fixed, reprs, c[..k])
    ensures Trivial(fixed, reprs, c)
  {
    assert Image(fixed, reprs, c[..k]) <= Image(fixed, reprs, c);
  }

  /** What one more literal adds. */
  lemma ImageNext(fixed: set<Lit>, reprs: map<Lit, Lit>, c: Clause, k: nat)
    requires k < |c|
    ensures Image(fixed, reprs, c[..k + 1]) == Image(fixed, reprs, c[..k]) +
              if c[k] in reprs && ValueOf(fixed, c[k]) == 0 && ValueOf(fixed, reprs[c[k]]) == 0
              then {reprs[c[k]]} else {}
  {
    assert c[..k + 1] == c[..k] + [c[k]];
  }

  lemma TrivialNext(fixed: set<Lit>, reprs: map<Lit, Lit>, c: Clause, k: nat, marks: set<Lit>)
    requires k < |c| && !Trivial(fixed, reprs, c[..k]) && marks == Image(fixed, reprs, c[..k])
    requires forall l | l in fixed :: Neg(l) !in fixed
    ensures Trivial(fixed, reprs, c[..k + 1]) <==>
              || ValueOf(fixed, c[k]) > 0
              || (ValueOf(fixed, c[k]) == 0 && c[k] in reprs &&
                  (ValueOf(fixed, reprs[c[k]]) > 0 || (ValueOf(fixed, reprs[c[k]]) == 0 && Neg(reprs[c[k]]) in marks)))
  {
    ImageNext(fixed, reprs, c, k);
    assert c[..k + 1] == c[..k] + [c[k]];
    assert c[k] in c[..k + 1];
    if c[k] in reprs {
      SameVariable(reprs[c[k]], reprs[c[k]]);
    }
  }

  /** Each literal is decided or has a representative, and there are at least two. */
  ghost predicate Placed(fixed: set<Lit>, reprs: map<Lit, Lit>, c: Clause) {
    |c| >= 2 && forall l | l in c :: l in reprs || ValueOf(fixed, l) != 0
  }

  /** What the replaced clause means where all literals agree. */
  lemma ImageHolds(fixed: set<Lit>, reprs: map<Lit, Lit>, c: Clause, c': Clause, m: Assignment)
    requires Agrees(reprs, m) && (forall l | l in fixed :: True(m, l)) && Placed(fixed, reprs, c)
    ensures Trivial(fixed, reprs, c) ==> Holds(m, c)
    ensures !Trivial(fixed, reprs, c) && Members(c') == Image(fixed, reprs, c) ==> (Holds(m, c) <==> Holds(m, c'))
  {
    var image := Image(fixed, reprs, c);
    if Trivial(fixed, reprs, c) {
      if x :| x in image && Neg(x) in image {
        assert True(m, x) || True(m, Neg(x));
      }
    } else if Members(c') == image {
      if Holds(m, c) {
        var l :| l in c && True(m, l);
        TrueIsUndecided(fixed, reprs, m, l);
        assert reprs[l] in Members(c');
      }
      if Holds(m, c') {
        var x :| x in c' && True(m, x);
        assert x in Members(c');
      }
    }
  }

  lemma TrueIsUndecided(fixed: set<Lit>, reprs: map<Lit, Lit>, m: Assignment, l: Lit)
    requires Agrees(reprs, m) && (forall k | k in fixed :: True(m, k)) && True(m, l)
    requires l !in fixed && (l in reprs || ValueOf(fixed, l) != 0)
    requires l in reprs && ValueOf(fixed, l) == 0 ==> reprs[l] !in fixed
    ensures l in reprs && ValueOf(fixed, l) == 0 && ValueOf(fixed, reprs[l]) == 0
  {
    SameVariable(l, l);
    assert Neg(l) !in fixed;
    SameVariable(reprs[l], reprs[l]);
    assert Neg(reprs[l]) !in fixed;
  }

  // ----- Replacing in the formula -----

  /** Only literals that represent themselves. */
  ghost predicate Plain(reprs: map<Lit, Lit>, c: Clause) {
    forall l | l in c :: !Moves(reprs, l)
  }

  ghost predicate AlwaysHolds(db: Formula, reprs: map<Lit, Lit>, c: Clause) {
    forall m | Agrees(reprs, m) && (forall l | l in db.fixed :: True(m, l)) :: Holds(m, c)
  }

  /** What stays true of the formula while clauses are replaced. */
  ghost predicate Sound(db: Formula, reprs: map<Lit, Lit>) {
    && |db.lits| == |db.garbage|
    && (forall l | l in db.fixed :: Neg(l) !in db.fixed)
    && (forall l | Moves(reprs, l) :: l !in db.fixed && Neg(l) !in db.fixed)
    && (forall i: nat {:trigger Live(db, i)} | Live(db, i) :: Placed(db.fixed, reprs, db.lits[i]))
  }

  /** The first `n` clauses have been visited: what still moves in them is always true and
      waits for becoming garbage. */
  ghost predicate Visited(db: Formula, reprs: map<Lit, Lit>, n: nat, postponed: seq<nat>) {
    && (forall i: nat {:trigger Live(db, i)} | Live(db, i) && i < n && i !in postponed :: Plain(reprs, db.lits[i]))
    && (forall i | i in postponed :: i < n && Live(db, i) && AlwaysHolds(db, reprs, db.lits[i]))
  }

  /** Clause `i` becomes `c`, whatever is added as garbage. */
  ghost predicate Rewrites(db: Formula, db': Formula, i: nat, c: Clause) {
    && Live(db, i) && |db.lits| == |db.garbage| <= |db'.lits| == |db'.garbage|
    && db'.fixed == db.fixed && db'.unsat == db.unsat
    && (forall j: nat {:trigger Live(db', j)} :: Live(db', j) <==> Live(db, j))
    && (forall j | 0 <= j < |db.lits| :: db'.lits[j] == if j == i then c else db.lits[j])
  }

  /** Its replacement for clause `i`. */
  ghost predicate IsImage(db: Formula, reprs: map<Lit, Lit>, i: nat, c: Clause) {
    && Live(db, i) && !Trivial(db.fixed, reprs, db.lits[i])
    && Members(c) == Image(db.fixed, reprs, db.lits[i]) && DistinctLits(c)
  }

  /** The literals of a replacement are undecided and represent themselves. */
  lemma ImageIsPlain(fixed: set<Lit>, reprs: map<Lit, Lit>, maxVar: nat, c: Clause, c': Clause)
    requires Mapping(reprs, maxVar) && Members(c') == Image(fixed, reprs, c)
    ensures Plain(reprs, c') && forall l | l in c' :: l in reprs && ValueOf(fixed, l) == 0
  {
    forall x | x in c' ensures x in reprs && !Moves(reprs, x) && ValueOf(fixed, x) == 0 {
      assert x in Members(c');
      var l :| l in c && l in reprs && reprs[l] == x && ValueOf(fixed, x) == 0;
      assert MapsWell(reprs, l);
    }
  }

  lemma RewriteKeeps(db: Formula, db': Formula, reprs: map<Lit, Lit>, maxVar: nat, i: nat, c: Clause,
                     postponed: seq<nat>)
    requires Mapping(reprs, maxVar) && Sound(db, reprs) && IsImage(db, reprs, i, c) && Rewrites(db, db', i, c)
    requires |c| >= 2 && Visited(db, reprs, i, postponed)
    ensures Sound(db', reprs) && Visited(db', reprs, i + 1, postponed) && SameAgreeing(reprs, db, db')
  {
    ImageIsPlain(db.fixed, reprs, maxVar, db.lits[i], c);
    forall m | Agrees(reprs, m) ensures IsModel(db, m) <==> IsModel(db', m) {
      if forall l | l in db.fixed :: True(m, l) {
        ImageHolds(db.fixed, reprs, db.lits[i], c, m);
        assert forall j: nat {:trigger Live(db, j)} | Live(db, j) && j != i ::
                 Live(db', j) && db'.lits[j] == db.lits[j];
        assert Live(db', i) && db'.lits[i] == c;
      }
    }
  }

  lemma UnitKeeps(db: Formula, db': Formula, reprs: map<Lit, Lit>, maxVar: nat, i: nat, u: Lit, postponed: seq<nat>)
    requires Mapping(reprs, maxVar) && Sound(db, reprs) && IsImage(db, reprs, i, [u])
    requires db' == Trash(db, i).(fixed := db.fixed + {u}) && Visited(db, reprs, i, postponed)
    ensures Sound(db', reprs) && Visited(db', reprs, i + 1, postponed) && SameAgreeing(reprs, db, db')
    ensures u !in db.fixed
  {
    assert u in [u];
    ImageIsPlain(db.fixed, reprs, maxVar, db.lits[i], [u]);
    SameVariable(u, u);
    assert forall j: nat :: Live(db', j) <==> Live(db, j) && j != i;
    forall l | Moves(reprs, l) ensures l !in db'.fixed && Neg(l) !in db'.fixed {
      OtherVariable(reprs, maxVar, l);
      SameVariable(l, u);
    }
    forall m | Agrees(reprs, m) ensures IsModel(db, m) <==> IsModel(db', m) {
      if forall l | l in db.fixed :: True(m, l) {
        ImageHolds(db.fixed, reprs, db.lits[i], [u], m);
        assert Holds(m, [u]) <==> True(m, u);
        assert forall j: nat | Live(db, j) && j != i :: Live(db', j);
      }
    }
  }

  lemma EmptyKeeps(db: Formula, reprs: map<Lit, Lit>, i: nat)
    requires Sound(db, reprs) && IsImage(db, reprs, i, [])
    ensures SameAgreeing(reprs, db, db.(unsat := true))
  {
    forall m | Agrees(reprs, m) ensures !IsModel(db, m) {
      if forall l | l in db.fixed :: True(m, l) {
        ImageHolds(db.fixed, reprs, db.lits[i], [], m);
      }
    }
  }

  lemma TrivialWaits(db: Formula, reprs: map<Lit, Lit>, i: nat, postponed: seq<nat>)
    requires Sound(db, reprs) && Live(db, i) && Trivial(db.fixed, reprs, db.lits[i])
    requires Visited(db, reprs, i, postponed)
    ensures Visited(db, reprs, i + 1, postponed + [i])
  {
    forall m | Agrees(reprs, m) && (forall l | l in db.fixed :: True(m, l)) ensures Holds(m, db.lits[i]) {
      ImageHolds(db.fixed, reprs, db.lits[i], [], m);
    }
    forall j: nat | Live(db, j) && j < i + 1 && j !in postponed + [i] ensures Plain(reprs, db.lits[j]) {
      assert j !in postponed;
    }
  }

  /** Whether a clause always holds depends only on the units. */
  lemma FixedDecides(db: Formula, db': Formula, reprs: map<Lit, Lit>, c: Clause)
    requires db.fixed == db'.fixed
    ensures AlwaysHolds(db, reprs, c) <==> AlwaysHolds(db', reprs, c)
  {}

  /** Giving up a clause that is always true. */
  lemma TrashWaiting(db: Formula, reprs: map<Lit, Lit>, i: nat)
    requires Sound(db, reprs) && i < |db.lits| && AlwaysHolds(db, reprs, db.lits[i])
    ensures Sound(Trash(db, i), reprs) && SameAgreeing(reprs, db, Trash(db, i))
  {
    var db' := Trash(db, i);
    assert forall j: nat :: Live(db', j) <==> Live(db, j) && j != i;
    forall m | Agrees(reprs, m) ensures IsModel(db, m) <==> IsModel(db', m) {
      assert forall j: nat | Live(db, j) && j != i :: Live(db', j);
    }
  }

  // ----- Just what the replacement does -----

  /** The representatives of the undecided literals that are undecided themselves, each where it
      occurs first. */
  function ReplacedLits(fixed: set<Lit>, reprs: map<Lit, Lit>, c: Clause): seq<Lit> {
    if c == [] then [] else
      var last := |c| - 1;
      var front, l := ReplacedLits(fixed, reprs, c[..last]), c[last];
      if l in reprs && ValueOf(fixed, l) == 0 && ValueOf(fixed, reprs[l]) == 0 && reprs[l] !in front
      then front + [reprs[l]] else front
  }

  lemma ReplacedNext(fixed: set<Lit>, reprs: map<Lit, Lit>, c: Clause, k: nat)
    requires k < |c|
    ensures ReplacedLits(fixed, reprs, c[..0]) == []
    ensures var front, l := ReplacedLits(fixed, reprs, c[..k]), c[k];
            ReplacedLits(fixed, reprs, c[..k + 1]) ==
              if l in reprs && ValueOf(fixed, l) == 0 && ValueOf(fixed, reprs[l]) == 0 && reprs[l] !in front
              then front + [reprs[l]] else front
  {
    assert c[..k + 1][..k] == c[..k];
  }

  ghost predicate SelfOnly(reprs: map<Lit, Lit>, c: Clause) {
    forall l | l in c :: l in reprs && reprs[l] == l
  }

  /** Where the loop over the clauses stands: the formula, the clauses that wait for becoming
      garbage, what was found, and the last identifier that was given. */
  datatype Round = Round(db: Formula, waiting: seq<nat>, newUnit: bool, newBinary: bool, id: nat)

  /** Clause `i` turns into `n`: the empty clause, a unit, a new clause if one of the first two
      literals changed, or a shorter one. */
  ghost function UseTo(r: Round, i: nat, n: seq<Lit>): Round
    requires Live(r.db, i)
  {
    var c := r.db.lits[i];
    if |n| == 0 then r.(db := r.db.(unsat := true), id := r.id + 1)
    else if |n| == 1 then
      r.(db := Trash(r.db, i).(fixed := r.db.fixed + {n[0]}), newUnit := true, id := r.id + 1)
    else if |c| < 2 || c[0] != n[0] || c[1] != n[1] then
      r.(db := r.db.(lits := r.db.lits[i := n] + [c], garbage := r.db.garbage + [true]),
         newBinary := r.newBinary || |n| == 2, id := r.id + 1)
    else r.(db := r.db.(lits := r.db.lits[i := n]), newBinary := r.newBinary || (|c| != |n| && |n| == 2))
  }

  ghost function VisitTo(r: Round, reprs: map<Lit, Lit>, i: nat): Round {
    if !Live(r.db, i) || SelfOnly(reprs, r.db.lits[i]) then r
    else if Trivial(r.db.fixed, reprs, r.db.lits[i]) then r.(waiting := r.waiting + [i])
    else UseTo(r, i, ReplacedLits(r.db.fixed, reprs, r.db.lits[i]))
  }

  /** The first `n` clauses, until the empty clause is learned. */
  ghost function RoundTo(r: Round, reprs: map<Lit, Lit>, n: nat): Round {
    if n == 0 then r else
      var t := RoundTo(r, reprs, n - 1);
      if t.db.unsat then t else VisitTo(t, reprs, n - 1)
  }

  lemma {:induction false} RoundStops(r: Round, reprs: map<Lit, Lit>, i: nat, n: nat)
    requires i <= n && RoundTo(r, reprs, i).db.unsat
    ensures RoundTo(r, reprs, n) == RoundTo(r, reprs, i)
  {
    if i < n {
      RoundStops(r, reprs, i, n - 1);
    }
  }

  lemma RoundNext(r: Round, reprs: map<Lit, Lit>, i: nat)
    requires !RoundTo(r, reprs, i).db.unsat
    ensures RoundTo(r, reprs, 0) == r
    ensures RoundTo(r, reprs, i + 1) == VisitTo(RoundTo(r, reprs, i), reprs, i)
  {}

  lemma RoundStarts(r: Round, reprs: map<Lit, Lit>)
    ensures RoundTo(r, reprs, 0) == r
  {}

  ghost function TrashAll(db: Formula, ws: seq<nat>): Formula {
    if ws == [] then db else
      var front, w := TrashAll(db, ws[..|ws| - 1]), ws[|ws| - 1];
      if w < |front.garbage| then Trash(front, w) else front
  }

  lemma TrashNext(db: Formula, ws: seq<nat>, k: nat)
    requires k < |ws|
    ensures TrashAll(db, ws[..0]) == db
    ensures var front := TrashAll(db, ws[..k]);
            TrashAll(db, ws[..k + 1]) == if ws[k] < |front.garbage| then Trash(front, ws[k]) else front
  {
    assert ws[..k + 1][..k] == ws[..k];
  }

  lemma TrashNothing(db: Formula)
    ensures TrashAll(db, []) == db
  {}

  /** The outcome of a replacement that starts with identifier `id`. */
  ghost predicate Replaces(db: Formula, db': Formula, reprs: map<Lit, Lit>, substituted: nat, maxVar: nat,
                           id: nat, id': nat, success: bool) {
    var pushed := id + |Pairs(reprs, maxVar, id)|;
    var r := RoundTo(Round(db, [], false, false, pushed), reprs, if substituted == 0 then 0 else |db.lits|);
    && db' == (if r.db.unsat then r.db else TrashAll(r.db, r.waiting))
    && id' == r.id
    && (success <==> r.db.unsat || (substituted > 0 && (r.newUnit || r.newBinary)))
  }

  // ----- The main result -----

  /** All live clauses are free of what moves. */
  ghost predicate AllPlain(db: Formula, reprs: map<Lit, Lit>) {
    forall i: nat {:trigger Live(db, i)} | Live(db, i) :: Plain(reprs, db.lits[i])
  }

  /** A model of the replaced formula, repaired by the pairs, is one of the formula before. */
  lemma RepairedPairsModel(db: Formula, db': Formula, reprs: map<Lit, Lit>, maxVar: nat, id: int, m: Assignment)
    requires Mapping(reprs, maxVar) && Sound(db', reprs) && AllPlain(db', reprs)
    requires SameAgreeing(reprs, db, db') && IsModel(db', m)
    ensures IsModel(db, RepairAll(m, Pairs(reprs, maxVar, id)))
  {
    var m' := RepairAll(m, Pairs(reprs, maxVar, id));
    RepairedAgrees(reprs, maxVar, id, m);
    forall l | l in db'.fixed ensures True(m', l) {
      SameVariable(l, l);
      assert !Moves(reprs, l) && !Moves(reprs, Neg(l));
    }
    forall i: nat | Live(db', i) ensures Holds(m', db'.lits[i]) {
      var l :| l in db'.lits[i] && True(m, l);
      if Moves(reprs, Neg(l)) {
        OtherVariable(reprs, maxVar, Neg(l));
        SameVariable(l, l);
      }
    }
    assert IsModel(db', m');
  }

  /** With the pairs pushed, every model of the replaced formula leads back to the original. */
  lemma PairsReconstruct(original: seq<Clause>, db: Formula, db': Formula, reprs: map<Lit, Lit>, maxVar: nat,
                         id: int, stack: seq<Entry>)
    requires Mapping(reprs, maxVar) && Sound(db', reprs) && AllPlain(db', reprs)
    requires SameAgreeing(reprs, db, db') && Reconstructs(original, db, stack)
    requires forall m | IsModel(db, m) :: Agrees(reprs, m)
    ensures Reconstructs(original, db', stack + Pairs(reprs, maxVar, id))
  {
    forall m | Models(m, original) ensures IsModel(db', m) {
      assert IsModel(db, m);
    }
    forall m | IsModel(db', m) ensures Models(RepairAll(m, stack + Pairs(reprs, maxVar, id)), original) {
      RepairedPairsModel(db, db', reprs, maxVar, id, m);
      RepairAllConcat(m, stack, Pairs(reprs, maxVar, id));
    }
  }

  // ----- The steps -----

  class Substituter {
    var lits: seq<Clause>
    var garbage: seq<bool>
    var fixed: set<Lit>
    var unsat: bool
    var reprs: map<Lit, Lit>       // of the active literals
    var substituted: nat           // how many literals move
    var clause: seq<Lit>           // buffer for a replacement
    var marks: set<Lit>
    var postponed: seq<nat>
    var gone: set<nat>             // replaced variables
    var clauseId: nat
    const maxVar: nat
    const external: External
    ghost var original: seq<Clause>

    ghost function Db(): Formula
      reads this
    {
      Formula(lits, garbage, fixed, unsat)
    }

    /** Nothing of the original formula is out of reach. */
    ghost predicate Valid()
      reads this, external
    {
      && external.Valid() && maxVar <= external.maxVar
      && clause == [] && marks == {}
      && Reconstructs(original, Db(), external.stack)
    }

    /** What equivalent literal detection hands over. */
    ghost predicate Detected()
      reads this
    {
      && Mapping(reprs, maxVar) && Sound(Db(), reprs)
      && (substituted == 0 <==> forall l :: !Moves(reprs, l))
      && (forall m | IsModel(Db(), m) :: Agrees(reprs, m))
    }

    constructor (db: Formula, maxVar: nat, external: External, clauseId: nat, ghost original: seq<Clause>)
      requires external.Valid() && maxVar <= external.maxVar && Reconstructs(original, db, external.stack)
      ensures Valid() && Db() == db && this.external == external && this.original == original
      ensures this.maxVar == maxVar && this.clauseId == clauseId
    {
      this.lits, this.garbage, this.fixed, this.unsat := db.lits, db.garbage, db.fixed, db.unsat;
      this.maxVar, this.external, this.clauseId, this.original := maxVar, external, clauseId, original;
      reprs, substituted, clause, marks, postponed, gone := map[], 0, [], {}, [], {};
    }

    function Val(l: Lit): int
      reads this
    {
      ValueOf(fixed, l)
    }

    /** Push the equivalences of the replaced variables to their representatives. */
    method PushEquivalences()
      requires external.Valid() && Mapping(reprs, maxVar) && maxVar <= external.maxVar
      modifies this`clauseId, external`extension, external`stack
      ensures external.Valid()
      ensures external.stack == old(external.stack) + Pairs(reprs, maxVar, old(clauseId))
      ensures clauseId == old(clauseId) + |Pairs(reprs, maxVar, old(clauseId))|
    {
      ghost var id, base := clauseId, external.stack;
      for idx := 1 to maxVar + 1
        invariant external.Valid() && external.stack == base + Pairs(reprs, idx - 1, id)
        invariant clauseId == id + |Pairs(reprs, idx - 1, id)|
      {
        if idx !in reprs || reprs[idx] == idx {
          continue;
        }
        assert MapsWell(reprs, idx) && MapsWell(reprs, reprs[idx]);
        PushPair(idx, reprs[idx]);
      }
    }

    method PushPair(idx: Lit, other: Lit)
      requires external.Valid() && 0 < idx <= external.maxVar && Abs(other) <= external.maxVar
      modifies this`clauseId, external`extension, external`stack
      ensures external.Valid() && clauseId == old(clauseId) + 2
      ensures external.stack == old(external.stack) + Pair(idx, other, old(clauseId))
    {
      clauseId := clauseId + 1;
      external.PushClauseWithPivot([Neg(idx), other], Neg(idx), clauseId);
      clauseId := clauseId + 1;
      external.PushClauseWithPivot([idx, Neg(other)], idx, clauseId);
    }

    /** Whether every literal represents itself. */
    method AllSelf(c: Clause) returns (self: bool)
      ensures self <==> SelfOnly(reprs, c)
    {
      for j := 0 to |c|
        invariant forall k | 0 <= k < j :: c[k] in reprs && reprs[c[k]] == c[k]
      {
        if c[j] !in reprs || reprs[c[j]] != c[j] {
          return false;
        }
      }
      return true;
    }

    /** Collect the representatives in `clause`, without duplicates and false literals. */
    method Replace(c: Clause) returns (satisfied: bool)
      requires Placed(fixed, reprs, c) && (forall l | l in fixed :: Neg(l) !in fixed)
      requires clause == [] && marks == {}
      modifies this`clause, this`marks
      ensures marks == Members(clause) && DistinctLits(clause)
      ensures satisfied <==> Trivial(fixed, reprs, c)
      ensures !satisfied ==> Members(clause) == Image(fixed, reprs, c) && clause == ReplacedLits(fixed, reprs, c)
    {
      hide Image, Trivial, ReplacedLits;
      satisfied := false;
      ReplaceStart(fixed, reprs, c);
      for k := 0 to |c|
        invariant marks == Members(clause) == Image(fixed, reprs, c[..k]) && DistinctLits(clause)
        invariant !Trivial(fixed, reprs, c[..k]) && clause == ReplacedLits(fixed, reprs, c[..k])
      {
        ReplacedNext(fixed, reprs, c, k);
        ImageNext(fixed, reprs, c, k);
        TrivialNext(fixed, reprs, c, k, marks);
        satisfied := ReplaceLiteral(c[k]);
        if satisfied {
          TrivialGrows(fixed, reprs, c, k + 1);
          return;
        }
      }
      assert c[..|c|] == c;
    }

    lemma ReplaceStart(fixed: set<Lit>, reprs: map<Lit, Lit>, c: Clause)
      ensures Image(fixed, reprs, c[..0]) == {} && !Trivial(fixed, reprs, c[..0])
      ensures ReplacedLits(fixed, reprs, c[..0]) == []
    {}

    /** One literal: true, false, or entered by its representative. */
    method ReplaceLiteral(lit: Lit) returns (satisfied: bool)
      requires lit in reprs || Val(lit) != 0
      requires marks == Members(clause) && DistinctLits(clause)
      modifies this`clause, this`marks
      ensures marks == Members(clause) && DistinctLits(clause)
      ensures satisfied <==>
                || Val(lit) > 0
                || (Val(lit) == 0 && lit in reprs &&
                    (Val(reprs[lit]) > 0 || (Val(reprs[lit]) == 0 && Neg(reprs[lit]) in old(marks))))
      ensures !satisfied ==>
                marks == old(marks) +
                  if lit in reprs && Val(lit) == 0 && Val(reprs[lit]) == 0 then {reprs[lit]} else {}
      ensures !satisfied ==>
                clause == old(clause) +
                  if lit in reprs && Val(lit) == 0 && Val(reprs[lit]) == 0 && reprs[lit] !in old(clause)
                  then [reprs[lit]] else []
    {
      satisfied := false;
      if Val(lit) > 0 {
        satisfied := true;
      } else if Val(lit) == 0 {
        var other := reprs[lit];
        if Val(other) > 0 {
          satisfied := true;
        } else if Val(other) == 0 {
          if Neg(other) in marks {
            satisfied := true;
          } else if other !in marks {
            marks := marks + {other};
            clause := AddDistinct(clause, other);
          }
        }
      }
    }

    method ClearClause()
      requires marks == Members(clause) && DistinctLits(clause)
      modifies this`clause, this`marks
      ensures clause == [] && marks == {}
    {
      while clause != []
        invariant marks == Members(clause) && DistinctLits(clause)
        decreases |clause|
      {
        var last := |clause| - 1;
        assert clause == clause[..last] + [clause[last]];
        DistinctMembers(clause[..last], clause[last]);
        marks := marks - {clause[last]};
        clause := clause[..last];
      }
    }

    /** Between two clauses of the main loop; `size` is the number of clauses before it. */
    ghost predicate Working(db0: Formula, size: nat, i: nat)
      reads this
    {
      && Mapping(reprs, maxVar) && Sound(Db(), reprs) && SameAgreeing(reprs, db0, Db())
      && Visited(Db(), reprs, i, postponed) && !unsat
      && size <= |lits| && forall j: nat | Live(Db(), j) :: j < size
    }

    /** Replace in one clause: it waits for becoming garbage, is the empty clause, a unit, a
        new clause in its place, or shrinks. */
    method VisitClause(ghost db0: Formula, ghost size: nat, i: nat, newUnit: bool, newBinary: bool)
        returns (newUnit': bool, newBinary': bool)
      requires Working(db0, size, i) && i < size && clause == [] && marks == {}
      modifies this`lits, this`garbage, this`fixed, this`unsat, this`clause, this`marks, this`postponed, this`clauseId
      ensures Round(Db(), postponed, newUnit', newBinary', clauseId) ==
              VisitTo(Round(old(Db()), old(postponed), newUnit, newBinary, old(clauseId)), reprs, i)
      ensures clause == [] && marks == {}
      ensures if unsat then SameAgreeing(reprs, db0, Db()) else Working(db0, size, i + 1)
      ensures old(fixed) <= fixed && (newUnit' <==> newUnit || fixed != old(fixed))
      ensures OthersKept(old(Db()), Db(), size, i)
      ensures !unsat ==> (newBinary' <==> newBinary || NewBinary(old(Db()), Db(), i))
      ensures postponed == old(postponed) || (postponed == old(postponed) + [i] && lits == old(lits))
    {
      newUnit', newBinary' := newUnit, newBinary;
      if garbage[i] {
        return;
      }
      var self := AllSelf(lits[i]);
      if self {
        return;
      }
      assert Live(Db(), i);
      var satisfied := Replace(lits[i]);
      if satisfied {
        TrivialWaits(Db(), reprs, i, postponed);
        postponed := postponed + [i];
      } else {
        newUnit', newBinary' := UseClause(db0, size, i, newUnit, newBinary);
      }
      ClearClause();
    }

    method UseClause(ghost db0: Formula, ghost size: nat, i: nat, newUnit: bool, newBinary: bool)
        returns (newUnit': bool, newBinary': bool)
      requires Working(db0, size, i) && i < size && IsImage(Db(), reprs, i, clause)
      modifies this`lits, this`garbage, this`fixed, this`unsat, this`clauseId
      ensures Round(Db(), postponed, newUnit', newBinary', clauseId) ==
              UseTo(Round(old(Db()), postponed, newUnit, newBinary, old(clauseId)), i, clause)
      ensures if unsat then SameAgreeing(reprs, db0, Db()) else Working(db0, size, i + 1)
      ensures old(fixed) <= fixed && (newUnit' <==> newUnit || fixed != old(fixed))
      ensures OthersKept(old(Db()), Db(), size, i)
      ensures !unsat ==> (newBinary' <==> newBinary || NewBinary(old(Db()), Db(), i))
    {
      newUnit', newBinary' := newUnit, newBinary;
      if |clause| == 0 {
        EmptyKeeps(Db(), reprs, i);
        unsat := true;
        clauseId := clauseId + 1;
      } else if |clause| == 1 {
        UseUnit(db0, size, i);
        newUnit' := true;
      } else {
        var short := UseLonger(db0, size, i, newUnit, newBinary);
        newBinary' := newBinary || short;
      }
    }

    method UseUnit(ghost db0: Formula, ghost size: nat, i: nat)
      requires Working(db0, size, i) && i < size && IsImage(Db(), reprs, i, clause) && |clause| == 1
      modifies this`garbage, this`fixed, this`clauseId
      ensures Db() == Trash(old(Db()), i).(fixed := old(fixed) + {clause[0]}) && clauseId == old(clauseId) + 1
      ensures Working(db0, size, i + 1) && old(fixed) < fixed
      ensures OthersKept(old(Db()), Db(), size, i) && !NewBinary(old(Db()), Db(), i)
    {
      hide IsModel, Agrees, Mapping, Placed, Plain, AlwaysHolds;
      ghost var db := Db();
      assert clause == [clause[0]];
      UnitKeeps(db, Trash(db, i).(fixed := db.fixed + {clause[0]}), reprs, maxVar, i, clause[0], postponed);
      fixed := fixed + {clause[0]};
      garbage := garbage[i := true];
      clauseId := clauseId + 1;
      assert forall j: nat :: Live(Db(), j) <==> Live(db, j) && j != i;
    }

    /** A new clause in its place if a watched literal changed; otherwise it shrinks. */
    method UseLonger(ghost db0: Formula, ghost size: nat, i: nat, ghost newUnit: bool, ghost newBinary: bool)
        returns (short: bool)
      requires Working(db0, size, i) && i < size && IsImage(Db(), reprs, i, clause) && |clause| >= 2
      modifies this`lits, this`garbage, this`clauseId
      ensures Round(Db(), postponed, newUnit, newBinary || short, clauseId) ==
              UseTo(Round(old(Db()), postponed, newUnit, newBinary, old(clauseId)), i, clause)
      ensures Working(db0, size, i + 1) && fixed == old(fixed)
      ensures OthersKept(old(Db()), Db(), size, i) && lits[i] == clause && Live(Db(), i)
      ensures short <==> NewBinary(old(Db()), Db(), i)
    {
      hide IsModel, Agrees, Mapping, Plain, AlwaysHolds, Trivial, Image, UseTo;
      ghost var db := Db();
      assert Live(db, i) && Placed(fixed, reprs, lits[i]);
      short := RewriteClause(i, newUnit, newBinary);
      RewriteKeeps(db, Db(), reprs, maxVar, i, clause, postponed);
    }

    method RewriteClause(i: nat, ghost newUnit: bool, ghost newBinary: bool) returns (short: bool)
      requires |lits| == |garbage| && Live(Db(), i) && |lits[i]| >= 2 && |clause| >= 2
      modifies this`lits, this`garbage, this`clauseId
      ensures Round(Db(), postponed, newUnit, newBinary || short, clauseId) ==
              UseTo(Round(old(Db()), postponed, newUnit, newBinary, old(clauseId)), i, clause)
      ensures Rewrites(old(Db()), Db(), i, clause)
      ensures short <==> |clause| == 2 && clause != old(lits)[i]
    {
      ghost var db := Db();
      var c := lits[i];
      if c[0] != clause[0] || c[1] != clause[1] {
        short := |clause| == 2;
        lits := lits[i := clause] + [c];
        garbage := garbage + [true];
        clauseId := clauseId + 1;
      } else {
        short := |c| != |clause| && |clause| == 2;
        assert c[..2] + clause[2..] == clause;
        lits := lits[i := c[..2] + clause[2..]];
      }
      assert forall j: nat :: Live(Db(), j) <==> Live(db, j);
    }

    /** Go over all clauses. */
    method ReplaceClauses() returns (newUnit: bool, newBinary: bool)
      requires Mapping(reprs, maxVar) && Sound(Db(), reprs) && !unsat && clause == [] && marks == {}
      requires substituted == 0 <==> forall l :: !Moves(reprs, l)
      modifies this`lits, this`garbage, this`fixed, this`unsat, this`clause, this`marks, this`postponed, this`clauseId
      ensures Round(Db(), postponed, newUnit, newBinary, clauseId) ==
              RoundTo(Round(old(Db()), [], false, false, old(clauseId)), reprs,
                      if substituted == 0 then 0 else |old(lits)|)
      ensures clause == [] && marks == {}
      ensures if unsat then SameAgreeing(reprs, old(Db()), Db())
              else Working(old(Db()), |old(lits)|, |old(lits)|)
      ensures newUnit <==> fixed != old(fixed)
      ensures !unsat ==> (newBinary <==> exists i :: 0 <= i < |old(lits)| && NewBinary(old(Db()), Db(), i))
      ensures !unsat ==> forall p | p in postponed :: p < |old(lits)| && lits[p] == old(lits)[p]
      ensures substituted == 0 ==> !newUnit && !newBinary
    {
      hide Mapping, Sound, IsModel, Agrees, Plain, VisitTo, RoundTo;
      ghost var db0, size := Db(), |lits|;
      ghost var start := Round(db0, [], false, false, clauseId);
      RoundStarts(start, reprs);
      var clausesSize := |lits|;
      newUnit, newBinary, postponed := false, false, [];
      var i := 0;
      WorkStarts();
      while substituted > 0 && !unsat && i < clausesSize
        invariant clause == [] && marks == {} && i <= clausesSize == size
        invariant if unsat then SameAgreeing(reprs, db0, Db()) else Working(db0, size, i)
        invariant db0.fixed <= fixed && (newUnit <==> fixed != db0.fixed)
        invariant !unsat ==> forall k | i <= k < size :: lits[k] == db0.lits[k]
        invariant !unsat ==> (newBinary <==> exists k :: 0 <= k < i && NewBinary(db0, Db(), k))
        invariant !unsat ==> forall p | p in postponed :: p < i && lits[p] == db0.lits[p]
        invariant substituted == 0 ==> !newUnit && !newBinary && i == 0
        invariant Round(Db(), postponed, newUnit, newBinary, clauseId) == RoundTo(start, reprs, i)
        decreases clausesSize - i, !unsat
      {
        ghost var before := Db();
        RoundNext(start, reprs, i);
        newUnit, newBinary := VisitClause(db0, size, i, newUnit, newBinary);
        NewBinaryNext(db0, before, Db(), size, i);
        i := i + 1;
      }
      if substituted > 0 && unsat {
        RoundStops(start, reprs, i, clausesSize);
      }
      if substituted == 0 && !unsat {
        NothingMoves(db0, size, i);
      }
    }

    /** Give up the clauses that wait for it, whatever it was that made them true. */
    method MarkPostponed(ghost db0: Formula, ghost size: nat)
      requires Working(db0, size, size)
      modifies this`garbage
      ensures Sound(Db(), reprs) && SameAgreeing(reprs, db0, Db()) && AllPlain(Db(), reprs)
      ensures Left(old(Db()), Db(), postponed) && Db() == TrashAll(old(Db()), postponed)
    {
      hide Sound, IsModel, Agrees, AlwaysHolds, Plain;
      ghost var db := Db();
      TrashNothing(db);
      assert postponed[..0] == [];
      for k := 0 to |postponed|
        invariant Db() == TrashAll(db, postponed[..k])
        invariant Sound(Db(), reprs) && SameAgreeing(reprs, db0, Db()) && |garbage| == |db.garbage|
        invariant Left(db, Db(), postponed[..k])
      {
        assert postponed[k] in postponed;
        TrashNext(db, postponed, k);
        assert postponed[..k + 1] == postponed[..k] + [postponed[k]];
        FixedDecides(db, Db(), reprs, lits[postponed[k]]);
        TrashWaiting(Db(), reprs, postponed[k]);
        ghost var before := Db();
        garbage := garbage[postponed[k] := true];
        assert forall j: nat :: Live(Db(), j) <==> Live(before, j) && j != postponed[k];
      }
      assert postponed[..|postponed|] == postponed;
    }

    /** The variables that are gone from the formula. */
    method MarkSubstituted()
      requires Mapping(reprs, maxVar) && Sound(Db(), reprs)
      modifies this`gone
      ensures gone == old(gone) + set v: nat | 0 < v <= maxVar && !unsat && Moves(reprs, v) && Val(reprs[v]) == 0
    {
      for idx := 1 to maxVar + 1
        invariant gone == old(gone) + set v: nat | 0 < v < idx && !unsat && Moves(reprs, v) && Val(reprs[v]) == 0
      {
        if unsat {
          break;
        }
        if idx !in reprs || Val(idx) != 0 || reprs[idx] == idx {
          assert !Moves(reprs, idx);
          continue;
        }
        if Val(reprs[idx]) == 0 {
          gone := gone + {idx};
        }
      }
    }

    /** Replace all moving literals.  The models of the formula before are those models of the
        formula after in which each literal has the value of its representative, and repairing
        the pushed pairs turns any model after into one before. */
    method Substitute() returns (success: bool)
      requires Valid() && Detected() && !unsat
      modifies this`lits, this`garbage, this`fixed, this`unsat, this`clause, this`marks, this`postponed, this`gone,
               this`clauseId, external`extension, external`stack
      ensures Valid()
      ensures external.stack == old(external.stack) + Pairs(reprs, maxVar, old(clauseId))
      ensures forall m :: IsModel(old(Db()), m) <==> IsModel(Db(), m) && Agrees(reprs, m)
      ensures forall m | IsModel(Db(), m) :: IsModel(old(Db()), RepairAll(m, Pairs(reprs, maxVar, old(clauseId))))
      ensures !unsat ==> AllPlain(Db(), reprs)
      ensures !unsat ==>
                gone == old(gone) + set v: nat | 0 < v <= maxVar && Moves(reprs, v) && Val(reprs[v]) == 0
      ensures unsat ==> !Satisfiable(original, [])
      ensures success <==> unsat || fixed != old(fixed) || exists i :: NewBinary(old(Db()), Db(), i)
      ensures unsat ==> gone == old(gone)
      ensures Replaces(old(Db()), Db(), reprs, substituted, maxVar, old(clauseId), clauseId, success)
    {
      hide RoundTo, TrashAll, Sound, IsModel, Agrees, Plain, Reconstructs, Mapping, NewBinary, Pairs;
      ghost var db0, base, id := Db(), external.stack, clauseId;
      PushEquivalences();
      var newUnit, newBinary := ReplaceClauses();
      if !unsat {
        ghost var db := Db();
        MarkPostponed(db0, |db0.lits|);
        forall m | IsModel(Db(), m) ensures IsModel(db0, RepairAll(m, Pairs(reprs, maxVar, id))) {
          RepairedPairsModel(db0, Db(), reprs, maxVar, id, m);
        }
        PairsReconstruct(original, db0, Db(), reprs, maxVar, id, base);
        NewBinaryMarked(db0, db, Db(), postponed);
        MarkSubstituted();
      } else {
        UnsatIsRight(reprs, db0, Db());
        NoModels(original, db0, base, Db(), external.stack);
      }
      success := unsat || (substituted > 0 && (newUnit || newBinary));
    }

    lemma WorkStarts()
      requires Mapping(reprs, maxVar) && Sound(Db(), reprs) && !unsat && postponed == []
      ensures Working(Db(), |lits|, 0)
    {}

    lemma NothingMoves(db0: Formula, size: nat, i: nat)
      requires Working(db0, size, i) && i <= size
      requires forall l :: !Moves(reprs, l)
      ensures Working(db0, size, size)
    {}
  }

  /** What is new after the visit of one more clause. */
  lemma NewBinaryNext(db0: Formula, db: Formula, db': Formula, size: nat, i: nat)
    requires i < size <= |db0.lits| && OthersKept(db, db', size, i) && db.lits[i] == db0.lits[i]
    ensures forall k | 0 <= k < size && k != i :: NewBinary(db0, db', k) <==> NewBinary(db0, db, k)
    ensures NewBinary(db0, db', i) <==> NewBinary(db, db', i)
  {}

  /** Clause `i` of two literals is new or was longer. */
  ghost predicate NewBinary(db: Formula, db': Formula, i: nat) {
    i < |db.lits| && i < |db'.lits| && Live(db', i) && |db'.lits[i]| == 2 && db'.lits[i] != db.lits[i]
  }

  /** Giving up unchanged clauses gives up no new one. */
  lemma NewBinaryMarked(db0: Formula, db: Formula, db': Formula, postponed: seq<nat>)
    requires Left(db, db', postponed) && db'.lits == db.lits && |db0.lits| <= |db.lits|
    requires forall p | p in postponed :: p < |db0.lits| && db.lits[p] == db0.lits[p]
    ensures (exists i :: NewBinary(db0, db', i)) <==> exists i :: 0 <= i < |db0.lits| && NewBinary(db0, db, i)
  {
    assert forall i :: NewBinary(db0, db', i) <==> NewBinary(db0, db, i);
  }

  lemma UnsatIsRight(reprs: map<Lit, Lit>, db: Formula, db': Formula)
    requires SameAgreeing(reprs, db, db') && db'.unsat && forall m | IsModel(db, m) :: Agrees(reprs, m)
    ensures forall m :: !IsModel(db, m)
  {}

  /** The empty clause was learned rightly. */
  lemma NoModels(original: seq<Clause>, db: Formula, stack: seq<Entry>, db': Formula, stack': seq<Entry>)
    requires Reconstructs(original, db, stack) && db'.unsat && forall m :: !IsModel(db, m)
    ensures Reconstructs(original, db', stack') && !Satisfiable(original, []) && forall m :: !IsModel(db', m)
  {
    SameSatisfiability(original, db, stack);
    assert forall m | Models(m, original) :: AllTrue(m, []);
  }

  /** The other clauses stay as they are. */
  ghost predicate OthersKept(db: Formula, db': Formula, size: nat, i: nat) {
    && size <= |db.lits| <= |db'.lits|
    && (forall j: nat {:trigger Live(db', j)} | j < size && j != i :: Live(db', j) <==> Live(db, j))
    && (forall j | 0 <= j < size && j != i :: db'.lits[j] == db.lits[j])
  }

  // ----- With the search for representatives -----

  /** What the search computes is what the replacement needs. */
  lemma RepresentedIsMapping(search: Decompose.Decomposer)
    requires search.Connected() && search.Represented() && !search.HasComplementary()
    ensures Mapping(search.reprs, search.maxVar)
    ensures search.substituted == 0 <==> forall l :: !Moves(search.reprs, l)
  {
    hide BinaryGraph.Skew, BinaryGraph.WellFormed, Decompose.Complementary, Decompose.ReprOk, MapsWell;
    search.ConnectedIsSkew();
    var g, frozen, reprs := search.g, search.frozenVars, search.reprs;
    CountedMoves(reprs);
    NodesAreLiterals(search);
    forall l | l in reprs ensures MapsWell(reprs, l) && Abs(l) <= search.maxVar {
      RepresentsItself(g, frozen, reprs, l);
    }
  }

  lemma CountedMoves(reprs: map<Lit, Lit>)
    ensures |Decompose.Substituted(reprs)| == 0 <==> forall l :: !Moves(reprs, l)
  {
    assert forall l :: Moves(reprs, l) <==> l in Decompose.Substituted(reprs);
    if l :| l in Decompose.Substituted(reprs) {
      assert Moves(reprs, l);
    }
  }

  lemma NodesAreLiterals(search: Decompose.Decomposer)
    requires search.Connected()
    ensures forall l: Lit {:trigger l in search.g.nodes} | l in search.g.nodes ::
              Neg(l) in search.g.nodes && Abs(l) <= search.maxVar
  {
    forall l: Lit | l in search.g.nodes ensures Neg(l) in search.g.nodes && Abs(l) <= search.maxVar {
      SameVariable(l, l);
      assert search.Active(l) && search.Active(Neg(l));
    }
  }

  lemma RepresentsItself(g: BinaryGraph.Graph, frozen: set<nat>, reprs: map<Lit, Lit>, l: Lit)
    requires BinaryGraph.Skew(g) && BinaryGraph.WellFormed(g) && forall x :: x in reprs <==> x in g.nodes
    requires forall x | x in g.nodes :: Decompose.ReprOk(g, frozen, reprs, x) && !Decompose.Complementary(g, x)
    requires l in g.nodes && Neg(l) in g.nodes
    ensures MapsWell(reprs, l)
  {
    hide BinaryGraph.Skew, BinaryGraph.WellFormed, BinaryGraph.Equivalent;
    Decompose.ReprsOdd(g, frozen, reprs, l);
    var r := reprs[l];
    if Abs(l) !in frozen {
      ComponentInNodes(g, l, r);
      if Abs(r) !in frozen {
        Decompose.ReprsSame(g, frozen, reprs, l, r);
      }
    }
  }

  lemma ComponentInNodes(g: BinaryGraph.Graph, l: Lit, r: Lit)
    requires BinaryGraph.WellFormed(g) && BinaryGraph.Equivalent(g, l, r) && l in g.nodes
    ensures r in g.nodes
  {
    BinaryGraph.ClosedReach(g, g.nodes, l, r);
  }

  /** Every binary clause the search saw is a live clause. */
  ghost predicate Watched(binaries: seq<Clause>, db: Formula) {
    forall b | b in binaries :: exists i: nat :: Live(db, i) && db.lits[i] == b
  }

  lemma WatchedAgree(search: Decompose.Decomposer, db: Formula)
    requires search.Connected() && search.Represented() && Watched(search.binaries, db)
    ensures forall m | IsModel(db, m) :: Agrees(search.reprs, m)
  {
    forall m | IsModel(db, m) ensures Agrees(search.reprs, m) {
      ModelsWatched(search.binaries, db, m);
      forall l | l in search.reprs ensures True(m, l) <==> True(m, search.reprs[l]) {
        search.ReprsRespectModels(m, l);
      }
    }
  }

  lemma WatchedContradict(search: Decompose.Decomposer, db: Formula)
    requires search.Connected() && search.HasComplementary() && Watched(search.binaries, db)
    ensures forall m :: !IsModel(db, m)
  {
    forall m ensures !IsModel(db, m) {
      if IsModel(db, m) {
        ModelsWatched(search.binaries, db, m);
        search.ComplementaryIsUnsatisfiable();
      }
    }
  }

  lemma ModelsWatched(binaries: seq<Clause>, db: Formula, m: Assignment)
    requires Watched(binaries, db) && IsModel(db, m)
    ensures Models(m, binaries)
  {}

  /** The literals of live clauses are active or decided, and no active one is decided. */
  ghost predicate Fits(search: Decompose.Decomposer, db: Formula) {
    && |db.lits| == |db.garbage| && (forall l | l in db.fixed :: Neg(l) !in db.fixed && !search.Active(l))
    && (forall i: nat {:trigger Live(db, i)} | Live(db, i) ::
          |db.lits[i]| >= 2 && forall l | l in db.lits[i] :: search.Active(l) || ValueOf(db.fixed, l) != 0)
  }

  lemma FitsIsSound(search: Decompose.Decomposer, db: Formula)
    requires search.Connected() && search.Represented() && Fits(search, db)
    ensures Sound(db, search.reprs)
  {
    forall l | Moves(search.reprs, l) ensures l !in db.fixed && Neg(l) !in db.fixed {
      assert l in search.g.nodes && search.Active(l);
      SameVariable(l, l);
      assert search.Active(Neg(l));
    }
    forall i: nat, l | Live(db, i) && l in db.lits[i] ensures l in search.reprs || ValueOf(db.fixed, l) != 0 {
      assert search.Active(l) ==> l in search.g.nodes;
    }
  }

  lemma NoneLeft(db: Formula, db': Formula)
    requires db'.unsat
    ensures forall m :: !IsModel(db', m)
  {}

  /** One round: find the representatives, then replace all other literals by them. */
  method DecomposeRound(search: Decompose.Decomposer, s: Substituter) returns (success: bool)
    requires search.Connected() && !search.unsat && search.maxVar == s.maxVar
    requires s.Valid() && !s.unsat && Watched(search.binaries, s.Db()) && Fits(search, s.Db())
    modifies search, s, s.external`extension, s.external`stack
    ensures s.Valid() && s.original == old(s.original)
    ensures !s.unsat ==> search.Represented() && AllPlain(s.Db(), search.reprs)
    ensures !s.unsat ==> forall m :: IsModel(old(s.Db()), m) <==> IsModel(s.Db(), m) && Agrees(search.reprs, m)
    ensures s.unsat ==> success && !Satisfiable(s.original, []) && forall m :: !IsModel(old(s.Db()), m)
    ensures success <==> s.unsat || s.fixed != old(s.fixed) || exists i :: NewBinary(old(s.Db()), s.Db(), i)
    ensures search.unsat <==> search.HasComplementary()
    ensures if search.unsat
            then
              && s.Db() == old(s.Db()).(unsat := true) && s.gone == old(s.gone) && s.clauseId == old(s.clauseId)
              && s.external.stack == old(s.external.stack)
            else
              && Replaces(old(s.Db()), s.Db(), search.reprs, search.substituted, s.maxVar, old(s.clauseId),
                          s.clauseId, success)
              && s.external.stack == old(s.external.stack) + Pairs(search.reprs, s.maxVar, old(s.clauseId))
    ensures !s.unsat ==>
              s.gone == old(s.gone) +
                        set v: nat | 0 < v <= s.maxVar && Moves(search.reprs, v) && s.Val(search.reprs[v]) == 0
  {
    hide IsModel, Agrees, AllPlain, Sound, Mapping, Fits, Watched, Reconstructs, Replaces, Pairs, NewBinary;
    ghost var db := s.Db();
    search.DecomposeRound();
    if search.unsat {
      WatchedContradict(search, db);
      NoModels(s.original, db, s.external.stack, db.(unsat := true), s.external.stack);
      s.unsat := true;
      return true;
    }
    RepresentedIsMapping(search);
    WatchedAgree(search, db);
    FitsIsSound(search, db);
    s.reprs, s.substituted := search.reprs, search.substituted;
    success := s.Substitute();
    if s.unsat {
      NoneLeft(db, s.Db());
    }
  }
}
