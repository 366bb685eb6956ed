/** Blocked clauses: the test with its move-to-front rewriting, pure literals, and the case of
    a single clause with the negated literal. */
module Blocking {
  import opened Sat
  import opened Reconstruction
  import opened Inprocessing

  // ----- Moving to the front while searching -----

  /** `xs` after its first `i` cells were shifted one to the right, a blank in front. */
  ghost function Shifted(xs: seq<int>, i: nat, blank: int): seq<int>
    requires i <= |xs|
  {
    if i == 0 then xs else [blank] + xs[..i - 1] + xs[i..]
  }

  /** `xs` with its `k`-th element in front. */
  function ToFront<T>(xs: seq<T>, k: nat): seq<T>
    requires k < |xs|
  {
    [xs[k]] + xs[..k] + xs[k + 1..]
  }

  lemma ShiftStep(xs: seq<int>, i: nat, blank: int, previous: int)
    requires i < |xs| && previous == if i == 0 then blank else xs[i - 1]
    ensures Shifted(xs, i, blank)[i] == xs[i]
    ensures Shifted(xs, i, blank)[i := previous] == Shifted(xs, i + 1, blank)
    ensures Shifted(xs, i + 1, blank)[0 := xs[i]] == ToFront(xs, i)
  {
    var s, t := Shifted(xs, i, blank), Shifted(xs, i + 1, blank);
    forall k | 0 <= k < |xs| ensures s[i := previous][k] == t[k] {}
    forall k | 0 <= k < |xs| ensures t[0 := xs[i]][k] == ToFront(xs, i)[k] {}
  }

  lemma UnshiftStep(xs: seq<int>, i: nat, blank: int)
    requires i < |xs|
    ensures Shifted(xs, i + 1, blank)[i := xs[i]] == Shifted(xs, i, blank)
    ensures i > 0 ==> Shifted(xs, i + 1, blank)[i] == xs[i - 1]
  {}

  /** Undo the shift cell by cell, from position `i` downwards. */
  method Unshift(xs': seq<int>, previous: int, ghost xs: seq<int>, ghost blank: int) returns (ys: seq<int>)
    requires |xs| > 0 && xs' == Shifted(xs, |xs|, blank) && previous == xs[|xs| - 1]
    ensures ys == xs
  {
    ys := xs';
    var i: nat := |xs'|;
    var carried := previous;
    while i != 0
      invariant i <= |xs| && ys == Shifted(xs, i, blank)
      invariant i > 0 ==> carried == xs[i - 1]
    {
      i := i - 1;
      UnshiftStep(xs, i, blank);
      var other := ys[i];
      ys := ys[i := carried];
      carried := other;
    }
  }

  /** Some literal of `d` other than `skip` clashes with a marked one. */
  ghost predicate Clashes(d: seq<int>, skip: Lit, marks: set<Lit>) {
    exists k | 0 <= k < |d| :: ClashAt(d[k], skip, marks)
  }

  predicate ClashAt(other: int, skip: Lit, marks: set<Lit>) {
    other != skip && -other in marks
  }

  /** The place of the first clashing literal from place `i` on. */
  function FirstClash(d: Clause, skip: Lit, marks: set<Lit>, i: nat): (k: nat)
    requires i <= |d|
    ensures i <= k <= |d|
    decreases |d| - i
  {
    if i == |d| || ClashAt(d[i], skip, marks) then i else FirstClash(d, skip, marks, i + 1)
  }

  /** The clause with its first clashing literal, if it has one, in front. */
  function Fronted(d: Clause, skip: Lit, marks: set<Lit>): Clause {
    var k := FirstClash(d, skip, marks, 0);
    if k < |d| then ToFront(d, k) else d
  }

  lemma {:induction false} FirstClashIs(d: Clause, skip: Lit, marks: set<Lit>, i: nat, k: nat)
    requires i <= k <= |d| && (k < |d| ==> ClashAt(d[k], skip, marks))
    requires forall x | i <= x < k :: !ClashAt(d[x], skip, marks)
    ensures FirstClash(d, skip, marks, i) == k
    decreases k - i
  {
    if i < k {
      FirstClashIs(d, skip, marks, i + 1, k);
    }
  }

  lemma FrontedTwice(d: Clause, skip: Lit, marks: set<Lit>)
    ensures Fronted(Fronted(d, skip, marks), skip, marks) == Fronted(d, skip, marks)
  {
    var k := FirstClash(d, skip, marks, 0);
    if k < |d| {
      FirstClashFound(d, skip, marks, 0);
    }
  }

  lemma {:induction false} FirstClashFound(d: Clause, skip: Lit, marks: set<Lit>, i: nat)
    requires i <= |d|
    ensures var k := FirstClash(d, skip, marks, i);
            (k < |d| ==> ClashAt(d[k], skip, marks)) && forall x | i <= x < k :: !ClashAt(d[x], skip, marks)
    decreases |d| - i
  {
    if i < |d| && !ClashAt(d[i], skip, marks) {
      FirstClashFound(d, skip, marks, i + 1);
    }
  }

  lemma FrontedReorders(d: Clause, skip: Lit, marks: set<Lit>)
    ensures multiset(Fronted(d, skip, marks)) == multiset(d)
  {
    var k := FirstClash(d, skip, marks, 0);
    if k < |d| {
      ToFrontReorders(d, ToFront(d, k), k);
    }
  }

  /** Search a clause for a clashing literal.  The first one found moves to the front; if
      there is none the order stays. */
  method FindClash(d: Clause, skip: Lit, marks: set<Lit>) returns (found: bool, d': Clause)
    requires |d| > 0
    ensures found <==> Clashes(d, skip, marks)
    ensures found ==> exists k | 0 <= k < |d| ::
              && d' == ToFront(d, k) && ClashAt(d[k], skip, marks)
              && forall x | 0 <= x < k :: !ClashAt(d[x], skip, marks)
    ensures !found ==> d' == d
    ensures multiset(d') == multiset(d) && d' == Fronted(d, skip, marks)
  {
    var cells: seq<int> := d;
    var previous := 0;
    for l := 0 to |d|
      invariant |cells| == |d| && cells == Shifted(d, l, 0) && previous == if l == 0 then 0 else d[l - 1]
      invariant forall k | 0 <= k < l :: !ClashAt(d[k], skip, marks)
    {
      ShiftStep(d, l, 0, previous);
      var other := cells[l];
      cells := cells[l := previous];
      previous := other;
      if ClashAt(other, skip, marks) {
        cells := cells[0 := other];
        ToFrontReorders(d, cells, l);
        FirstClashIs(d, skip, marks, 0, l);
        found, d' := true, cells;
        return;
      }
    }
    found := false;
    d' := Unshift(cells, previous, d, 0);
    FirstClashIs(d, skip, marks, 0, |d|);
  }

  // ----- Reordering keeps the formula -----

  /** The same formula up to the order of literals within clauses. */
  ghost predicate Reordered(db: Formula, db': Formula) {
    && |db'.lits| == |db.lits|
    && db' == db.(lits := db'.lits)
    && forall i | 0 <= i < |db.lits| :: multiset(db'.lits[i]) == multiset(db.lits[i])
  }

  lemma ProperReordered(c: Clause, c': Clause, maxVar: nat)
    requires multiset(c) == multiset(c') && Proper(c, maxVar)
    ensures Proper(c', maxVar)
  {
    SameMembers(c, c');
    DistinctByCount(c);
    DistinctByCount(c');
  }

  lemma ReorderedEquivalent(db: Formula, db': Formula)
    requires Reordered(db, db')
    ensures Equivalent(db, db')
  {
    forall i | 0 <= i < |db.lits| ensures forall m :: Holds(m, db.lits[i]) <==> Holds(m, db'.lits[i]) {
      SameMembers(db.lits[i], db'.lits[i]);
    }
    forall m ensures IsModel(db, m) <==> IsModel(db', m) {
      forall i: nat ensures Live(db, i) <==> Live(db', i) {}
    }
  }

  lemma ReorderedSane(db: Formula, db': Formula, maxVar: nat, removed: set<nat>, occs: map<Lit, seq<nat>>)
    requires Reordered(db, db') && Sane(db, maxVar, removed) && Connected(db, occs)
    ensures Sane(db', maxVar, removed) && Connected(db', occs)
  {
    forall i | 0 <= i < |db.lits|
      ensures Proper(db'.lits[i], maxVar) && forall l :: l in db.lits[i] <==> l in db'.lits[i]
    {
      SameMembers(db.lits[i], db'.lits[i]);
      ProperReordered(db.lits[i], db'.lits[i], maxVar);
    }
    forall i: nat ensures Live(db, i) <==> Live(db', i) {}
  }

  lemma ToFrontReorders(c: Clause, c': seq<int>, k: nat)
    requires k < |c| && c' == ToFront(c, k)
    ensures forall x | x in c' :: x != 0
    ensures multiset(c') == multiset(c)
  {
    assert c' == [c[k]] + c[..k] + c[k + 1..];
    assert c == c[..k] + [c[k]] + c[k + 1..];
  }

  lemma ClashesByMembers(d: Clause, d': Clause, skip: Lit, marks: set<Lit>)
    requires multiset(d) == multiset(d')
    ensures Clashes(d, skip, marks) <==> Clashes(d', skip, marks)
  {
    SameMembers(d, d');
    assert forall k | 0 <= k < |d| :: d[k] in d';
    assert forall k | 0 <= k < |d'| :: d'[k] in d;
  }

  /** Replace the order of one clause. */
  method Reorder(s: Simplifier, d: nat, d': Clause)
    requires s.Valid() && d < |s.lits| && multiset(d') == multiset(s.lits[d])
    modifies s`lits
    ensures s.Valid() && s.lits == old(s.lits)[d := d']
    ensures Reordered(old(s.Db()), s.Db()) && Equivalent(old(s.Db()), s.Db())
  {
    ghost var db := s.Db();
    s.lits := s.lits[d := d'];
    assert Reordered(db, s.Db());
    ReorderedEquivalent(db, s.Db());
    ReorderedSane(db, s.Db(), s.external.maxVar, s.removed, s.occs);
    EquivalentReconstructs(s.original, db, s.Db(), s.external.stack);
  }

  // ----- Blocked clauses -----

  /** The resolvent of clauses `c` and `d` on the literal is tautological. */
  ghost predicate Tautology(db: Formula, c: nat, lit: Lit, d: nat) {
    c < |db.lits| && d < |db.lits| && Clashes(db.lits[d], Neg(lit), Members(db.lits[c]))
  }

  /** All resolvents of clause `c` on the literal with the listed clauses are tautological. */
  ghost predicate Blocked(db: Formula, os: seq<nat>, c: nat, lit: Lit) {
    forall d | d in os :: Tautology(db, c, lit, d)
  }

  lemma OccsReordered(db: Formula, occs: map<Lit, seq<nat>>, l: Lit, k: nat)
    requires Connected(db, occs) && l in occs && k < |occs[l]|
    ensures Connected(db, occs[l := ToFront(occs[l], k)])
  {
    var os, os' := occs[l], ToFront(occs[l], k);
    assert forall i :: i in os' <==> i in os by {
      assert os == os[..k] + [os[k]] + os[k + 1..];
    }
  }

  /** One resolvent: look for a clash in `d`, which may be reordered. */
  method TestAgainst(s: Simplifier, d: nat, lit: Lit, marks: set<Lit>, ghost c: nat, ghost db: Formula)
      returns (found: bool)
    requires s.Valid() && d < |s.lits| && d < |db.lits| && Neg(lit) in s.lits[d]
    requires multiset(s.lits[d]) == multiset(db.lits[d])
    requires c < |db.lits| && marks == Members(db.lits[c])
    modifies s`lits
    ensures s.Valid()
    ensures s.lits == old(s.lits)[d := Fronted(old(s.lits)[d], Neg(lit), marks)]
    ensures found <==> Tautology(db, c, lit, d)
  {
    ClashesByMembers(db.lits[d], s.lits[d], Neg(lit), marks);
    var d';
    found, d' := FindClash(s.lits[d], Neg(lit), marks);
    if found {
      Reorder(s, d, d');
    }
  }

  /** The place of the first listed clause, from place `i` on, with a resolvent that is no tautology. */
  ghost function FirstFree(db: Formula, os: seq<nat>, c: nat, lit: Lit, i: nat): (n: nat)
    requires i <= |os|
    ensures i <= n <= |os|
    decreases |os| - i
  {
    if i == |os| || !Tautology(db, c, lit, os[i]) then i else FirstFree(db, os, c, lit, i + 1)
  }

  lemma {:induction false} FirstFreeIs(db: Formula, os: seq<nat>, c: nat, lit: Lit, i: nat, n: nat)
    requires i <= n <= |os| && (n < |os| ==> !Tautology(db, c, lit, os[n]))
    requires forall k | i <= k < n :: Tautology(db, c, lit, os[k])
    ensures FirstFree(db, os, c, lit, i) == n
    decreases n - i
  {
    if i < n {
      FirstFreeIs(db, os, c, lit, i + 1, n);
    }
  }

  /** The clauses after those of `ds` were tested. */
  ghost function TestedLits(lits: seq<Clause>, ds: seq<nat>, skip: Lit, marks: set<Lit>): (lits': seq<Clause>)
    ensures |lits'| == |lits|
  {
    seq(|lits|, j requires 0 <= j < |lits| => if j in ds then Fronted(lits[j], skip, marks) else lits[j])
  }

  lemma TestedNext(lits: seq<Clause>, ds: seq<nat>, d: nat, skip: Lit, marks: set<Lit>)
    requires d < |lits|
    ensures var before := TestedLits(lits, ds, skip, marks);
            TestedLits(lits, ds + [d], skip, marks) == before[d := Fronted(before[d], skip, marks)]
  {
    FrontedTwice(lits[d], skip, marks);
    assert forall j :: j in ds + [d] <==> j in ds || j == d;
  }

  lemma TestedMembers(lits: seq<Clause>, ds: seq<nat>, skip: Lit, marks: set<Lit>)
    ensures forall j | 0 <= j < |lits| :: multiset(TestedLits(lits, ds, skip, marks)[j]) == multiset(lits[j])
  {
    forall j | 0 <= j < |lits| ensures multiset(TestedLits(lits, ds, skip, marks)[j]) == multiset(lits[j]) {
      FrontedReorders(lits[j], skip, marks);
    }
  }

  /** The test changes the order in some clauses with the negated literal. */
  lemma TestedReordered(db: Formula, db': Formula, ds: seq<nat>, lit: Lit, marks: set<Lit>)
    requires db' == db.(lits := TestedLits(db.lits, ds, Neg(lit), marks))
    requires forall d | d in ds && d < |db.lits| :: lit !in db.lits[d]
    ensures Reordered(db, db') && Equivalent(db, db') && Untouched(db, db', lit)
  {
    TestedMembers(db.lits, ds, Neg(lit), marks);
    ReorderedEquivalent(db, db');
  }

  /** A clause without a clash stays as it was. */
  lemma TestedFree(db: Formula, ds: seq<nat>, d: nat, lit: Lit, marks: set<Lit>, c: nat)
    requires c < |db.lits| && d < |db.lits| && marks == Members(db.lits[c]) && !Tautology(db, c, lit, d)
    ensures TestedLits(db.lits, ds + [d], Neg(lit), marks) == TestedLits(db.lits, ds, Neg(lit), marks)
  {
    FirstClashFound(db.lits[d], Neg(lit), marks, 0);
    assert Fronted(db.lits[d], Neg(lit), marks) == db.lits[d];
    assert forall j :: j in ds + [d] <==> j in ds || j == d;
  }

  lemma TestedNone(lits: seq<Clause>, skip: Lit, marks: set<Lit>)
    ensures TestedLits(lits, [], skip, marks) == lits
  {}

  /** The formula after the test of clause `c`: the clauses up to the first that is not blocked have
      their clashing literals in front, and that one is first in its list. */
  ghost function TestedTo(s: Stage, c: nat, lit: Lit): Stage
    requires c < |s.db.lits|
  {
    var os := ListIn(s.occs, Neg(lit));
    var n := FirstFree(s.db, os, c, lit, 0);
    Stage(s.db.(lits := TestedLits(s.db.lits, os[..n], Neg(lit), Members(s.db.lits[c]))),
          if n < |os| then s.occs[Neg(lit) := ToFront(os, n)] else s.occs)
  }

  /** After trying a candidate. */
  ghost function CandidateTo(s: Stage, c: nat, lit: Lit): Stage {
    if c >= |s.db.lits| || c >= |s.db.garbage| then s
    else
      var t := TestedTo(s, c, lit);
      if Blocked(s.db, ListIn(s.occs, Neg(lit)), c, lit) then t.(db := Trash(t.db, c)) else t
  }

  ghost function CandidatesTo(s: Stage, cs: seq<nat>, lit: Lit): Stage {
    if cs == [] then s else CandidateTo(CandidatesTo(s, cs[..|cs| - 1], lit), cs[|cs| - 1], lit)
  }

  lemma CandidatesNext(s: Stage, cs: seq<nat>, x: nat, lit: Lit)
    requires x < |cs|
    ensures CandidatesTo(s, cs[..0], lit) == s
    ensures CandidatesTo(s, cs[..x + 1], lit) == CandidateTo(CandidatesTo(s, cs[..x], lit), cs[x], lit)
  {
    assert cs[..x + 1][..x] == cs[..x];
  }

  lemma CandidatesFirst(s: Stage, cs: seq<nat>, lit: Lit)
    ensures CandidatesTo(s, cs[..0], lit) == s
  {}

  /** Store the occurrence list with the clause at `k` moved to its front. */
  method MoveToFront(s: Simplifier, l: Lit, os: seq<int>, ghost k: nat)
    requires s.Valid() && k < |s.Occs(l)| && os == ToFront(s.Occs(l), k)
    modifies s`occs
    ensures s.Valid() && s.occs == old(s.occs)[l := ToFront(old(s.Occs(l)), k)]
  {
    OccsReordered(s.Db(), s.occs, l, k);
    s.occs := s.occs[l := os];
  }

  lemma OccursListed(s: Simplifier, l: Lit, d: nat)
    requires s.Valid() && d in s.Occs(l)
    ensures d < |s.lits| && l in s.lits[d]
  {}

  lemma NotBoth(s: Simplifier, c: nat, lit: Lit)
    requires s.Valid() && c < |s.lits| && lit in s.lits[c]
    ensures Neg(lit) !in s.lits[c]
  {}

  lemma AllTautologies(db: Formula, os: seq<nat>, c: nat, lit: Lit)
    requires forall k | 0 <= k < |os| :: Tautology(db, c, lit, os[k])
    ensures Blocked(db, os, c, lit)
  {}

  lemma FreeIsNotBlocked(db: Formula, os: seq<nat>, c: nat, lit: Lit, i: nat)
    requires i < |os| && !Tautology(db, c, lit, os[i])
    ensures !Blocked(db, os, c, lit)
  {
    assert os[i] in os;
  }

  /** The clauses with the literal are as they were, order included. */
  ghost predicate Untouched(db: Formula, db': Formula, lit: Lit) {
    |db'.lits| == |db.lits| && forall j | 0 <= j < |db.lits| && lit in db.lits[j] :: db'.lits[j] == db.lits[j]
  }

  /** Decide whether `c` is blocked on the literal.  The lists of literals and of clauses are
      only reordered; the list of clauses is as before if the answer is yes. */
  method IsBlockedClause(s: Simplifier, c: nat, lit: Lit) returns (res: bool)
    requires s.Valid() && c < |s.lits| && lit in s.lits[c]
    modifies s`lits, s`occs
    ensures s.Valid() && Reordered(old(s.Db()), s.Db()) && Equivalent(old(s.Db()), s.Db())
    ensures Untouched(old(s.Db()), s.Db(), lit)
    ensures Listed(old(s.Db()), old(s.Occs(Neg(lit))), Neg(lit))
    ensures |s.lits| == |old(s.lits)|
    ensures res <==> Blocked(old(s.Db()), old(s.Occs(Neg(lit))), c, lit)
    ensures res ==> s.occs == old(s.occs)
    ensures !res ==> exists i | 0 <= i < |old(s.Occs(Neg(lit)))| ::
              && s.occs == old(s.occs)[Neg(lit) := ToFront(old(s.Occs(Neg(lit))), i)]
              && !Tautology(old(s.Db()), c, lit, old(s.Occs(Neg(lit)))[i])
    ensures s.State() == TestedTo(old(s.State()), c, lit)
  {
    hide TestedLits, Fronted, Equivalent, Reordered, Untouched, Reconstructs, IsModel, Clashes;
    hide Connected, Sane, Blocked;
    ghost var db := s.Db();
    var marks := Members(s.lits[c]);
    var os0 := s.Occs(Neg(lit));
    var os: seq<int> := os0;
    var previous: int := -1;
    forall d | d in os0 ensures d < |s.lits| && Neg(lit) in s.lits[d] && lit !in s.lits[d] {
      OccursListed(s, Neg(lit), d);
      NotBoth(s, d, Neg(lit));
      SameVariable(lit, lit);
    }
    NotBoth(s, c, lit);
    TestedNone(db.lits, Neg(lit), marks);
    assert os0[..0] == [];
    for i := 0 to |os0|
      invariant s.Valid() && s.occs == old(s.occs)
      invariant |os| == |os0| && os == Shifted(os0, i, -1) && previous == if i == 0 then -1 else os0[i - 1]
      invariant forall k | 0 <= k < i :: Tautology(db, c, lit, os0[k])
      invariant s.lits == TestedLits(db.lits, os0[..i], Neg(lit), marks)
    {
      assert os0[i] in os0;
      TestedMembers(db.lits, os0[..i], Neg(lit), marks);
      TestedNext(db.lits, os0[..i], os0[i], Neg(lit), marks);
      assert os0[..i + 1] == os0[..i] + [os0[i]];
      ShiftStep(os0, i, -1, previous);
      var d := os0[i];
      os := os[i := previous];
      previous := d;
      assert d in os0;
      OccursListed(s, Neg(lit), d);
      var found := TestAgainst(s, d, lit, marks, c, db);
      if !found {
        FirstFreeIs(db, os0, c, lit, 0, i);
        TestedFree(db, os0[..i], os0[i], lit, marks, c);
        FreeIsNotBlocked(db, os0, c, lit, i);
        TestedReordered(db, s.Db(), os0[..i], lit, marks);
        MoveToFront(s, Neg(lit), os[0 := d], i);
        res := false;
        return;
      }
    }
    res := true;
    AllTautologies(db, os0, c, lit);
    assert os0[..|os0|] == os0;
    TestedReordered(db, s.Db(), os0, lit, marks);
    FirstFreeIs(db, os0, c, lit, 0, |os0|);
    if |os0| > 0 {
      os := Unshift(os, previous, os0, -1);
    }
  }

  /** Blocked against every live clause with the negated literal: repairable. */
  lemma BlockedIsRepairable(db: Formula, occs: map<Lit, seq<nat>>, os: seq<nat>, c: nat, lit: Lit)
    requires Connected(db, occs) && Live(db, c) && lit in db.lits[c] && ValueOf(db.fixed, lit) == 0
    requires forall j: nat | Live(db, j) && Neg(lit) in db.lits[j] :: j in os
    requires Blocked(db, os, c, lit)
    ensures Repairable(db, c, lit)
  {
    forall j: nat, m |
      Live(db, j) && j != c && Neg(lit) in db.lits[j] && IsModel(Trash(db, c), m) && !Holds(m, db.lits[c])
      ensures HoldsBut(m, db.lits[j], Neg(lit))
    {
      assert Tautology(db, c, lit, j);
      var k :| 0 <= k < |db.lits[j]| && ClashAt(db.lits[j][k], Neg(lit), Members(db.lits[c]));
      var other := db.lits[j][k];
      assert Neg(other) in db.lits[c];
      assert !True(m, Neg(other));
      SameVariable(other, other);
      assert True(m, other);
    }
  }

  /** Try every candidate: exactly the blocked ones are moved to the extension stack. */
  method BlockCandidates(s: Simplifier, lit: Lit, candidates: seq<nat>)
    requires s.Valid() && s.Val(lit) == 0
    requires forall x, y | 0 <= x < y < |candidates| :: candidates[x] != candidates[y]
    requires forall c | c in candidates :: Live(s.Db(), c) && lit in s.lits[c]
    modifies s`lits, s`occs, s`garbage, s.external`extension, s.external`stack
    ensures s.Valid() && |s.lits| == |old(s.lits)| && SameFormula(old(s.Db()), s.Db())
    ensures forall m | IsModel(old(s.Db()), m) :: IsModel(s.Db(), m)
    ensures forall i: nat | i !in candidates :: Live(s.Db(), i) <==> Live(old(s.Db()), i)
    ensures forall c | c in candidates ::
              !Live(s.Db(), c) <==> Blocked(old(s.Db()), old(s.Occs(Neg(lit))), c, lit)
    ensures Untouched(old(s.Db()), s.Db(), lit)
    ensures s.external.stack == old(s.external.stack) + Moved(old(s.Db()), s.Db(), candidates, lit)
    ensures s.State() == CandidatesTo(old(s.State()), candidates, lit)
  {
    hide CandidatesTo, CandidateTo, Blocked, IsModel, SameFormula, SameMembersOf, Reconstructs, Connected, Sane, Moved;
    ghost var db, os, base := s.Db(), s.Occs(Neg(lit)), s.external.stack;
    SameAtFirst(db, os, lit);
    CandidatesFirst(s.State(), candidates, lit);
    ghost var s0 := s.State();
    for x := 0 to |candidates|
      invariant s.Valid() && s.Val(lit) == 0 && |s.lits| == |db.lits|
      invariant SameFormula(db, s.Db()) && SameMembersOf(os, s.Occs(Neg(lit)))
      invariant forall y | x <= y < |candidates| :: Live(s.Db(), candidates[y]) && lit in s.lits[candidates[y]]
      invariant forall y | 0 <= y < x :: !Live(s.Db(), candidates[y]) <==> Blocked(db, os, candidates[y], lit)
      invariant forall m | IsModel(db, m) :: IsModel(s.Db(), m)
      invariant forall i: nat | i !in candidates :: Live(s.Db(), i) <==> Live(db, i)
      invariant Untouched(db, s.Db(), lit)
      invariant s.State() == CandidatesTo(s0, candidates[..x], lit)
      invariant s.external.stack == base + Moved(db, s.Db(), candidates[..x], lit)
    {
      ghost var before, listed := s.Db(), s.Occs(Neg(lit));
      CandidatesNext(s0, candidates, x, lit);
      BlockCandidate(s, lit, candidates[x]);
      BlockedSame(db, before, os, listed, candidates[x], lit);
      SameTransitive(db, before, s.Db(), os, listed, s.Occs(Neg(lit)));
      assert candidates[x] in candidates;
      assert candidates[..x + 1] == candidates[..x] + [candidates[x]];
      MovedAlong(db, before, s.Db(), candidates[..x], candidates[x], lit, base);
    }
    assert candidates[..|candidates|] == candidates;
  }

  lemma MovedAlong(db: Formula, db': Formula, db'': Formula, os: seq<nat>, c: nat, lit: Lit, base: seq<Entry>)
    requires |db'.lits| == |db''.lits| && c < |db'.lits| && Live(db, c) && c !in os
    requires forall x | x in os :: Live(db', x) == Live(db'', x) && (x < |db'.lits| ==> db'.lits[x] == db''.lits[x])
    ensures base + Moved(db, db'', os + [c], lit) == base + Moved(db, db', os, lit) +
              if Live(db'', c) then [] else [Entry([lit], c, db''.lits[c])]
  {
    if Live(db'', c) {
      MovedSame(db, db, db', db'', os, lit);
      MovedNext(db, db'', os, c, lit);
    } else {
      MovedOne(db, db', db'', os, c, lit, base);
    }
  }

  /** The same clauses up to the order of literals, live or not. */
  ghost predicate SameFormula(db: Formula, db': Formula) {
    && |db'.lits| == |db.lits|
    && forall i | 0 <= i < |db.lits| :: multiset(db'.lits[i]) == multiset(db.lits[i])
  }

  ghost predicate SameMembersOf(xs: seq<nat>, ys: seq<nat>) {
    forall d :: d in xs <==> d in ys
  }

  lemma SameAtFirst(db: Formula, os: seq<nat>, lit: Lit)
    ensures SameFormula(db, db) && SameMembersOf(os, os) && Moved(db, db, [], lit) == []
  {}

  lemma SameTransitive(db: Formula, db': Formula, db'': Formula, os: seq<nat>, os': seq<nat>, os'': seq<nat>)
    requires SameFormula(db, db') && SameFormula(db', db'') && SameMembersOf(os, os') && SameMembersOf(os', os'')
    ensures SameFormula(db, db'') && SameMembersOf(os, os'') && |db.lits| == |db''.lits|
  {}

  method BlockCandidate(s: Simplifier, lit: Lit, c: nat)
    requires s.Valid() && s.Val(lit) == 0 && Live(s.Db(), c) && lit in s.lits[c]
    modifies s`lits, s`occs, s`garbage, s.external`extension, s.external`stack
    ensures s.Valid() && SameFormula(old(s.Db()), s.Db()) && |s.lits| == |old(s.lits)|
    ensures SameMembersOf(old(s.Occs(Neg(lit))), s.Occs(Neg(lit)))
    ensures forall i, l | 0 <= i < |s.lits| :: l in s.lits[i] <==> l in old(s.lits)[i]
    ensures forall m | IsModel(old(s.Db()), m) :: IsModel(s.Db(), m)
    ensures forall i: nat | i != c :: Live(s.Db(), i) <==> Live(old(s.Db()), i)
    ensures !Live(s.Db(), c) <==> Blocked(old(s.Db()), old(s.Occs(Neg(lit))), c, lit)
    ensures Untouched(old(s.Db()), s.Db(), lit)
    ensures s.external.stack == old(s.external.stack) +
              if Live(s.Db(), c) then [] else [Entry([lit], c, s.lits[c])]
    ensures s.State() == CandidateTo(old(s.State()), c, lit)
  {
    hide Reconstructs, TestedTo;
    ghost var db, os := s.Db(), s.Occs(Neg(lit));
    var res := IsBlockedClause(s, c, lit);
    ghost var db' := s.Db();
    forall i | 0 <= i < |s.lits| ensures forall l :: l in s.lits[i] <==> l in db.lits[i] {
      SameMembers(db.lits[i], s.lits[i]);
    }
    assert forall i: nat :: Live(db, i) <==> Live(db', i);
    if res {
      BlockedSame(db, db', os, os, c, lit);
      BlockedIsRepairable(db', s.occs, os, c, lit);
      s.WeakenClause(c, lit);
      TrashKeepsModels(db', c);
      assert forall j: nat :: Live(s.Db(), j) <==> Live(db', j) && j != c;
    } else {
      ghost var i :| 0 <= i < |os| && s.occs == old(s.occs)[Neg(lit) := ToFront(os, i)];
      FrontSameMembers(os, i);
    }
  }

  lemma FrontSameMembers(os: seq<nat>, i: nat)
    requires i < |os|
    ensures SameMembersOf(os, ToFront(os, i))
  {
    assert os == os[..i] + [os[i]] + os[i + 1..];
  }

  /** Whether a clause is blocked does not depend on any order, nor on what is garbage. */
  lemma BlockedSame(db: Formula, db': Formula, os: seq<nat>, os': seq<nat>, c: nat, lit: Lit)
    requires SameFormula(db, db') && SameMembersOf(os, os')
    ensures Blocked(db, os, c, lit) <==> Blocked(db', os', c, lit)
  {
    forall d | d in os ensures Tautology(db, c, lit, d) <==> Tautology(db', c, lit, d) {
      if c < |db.lits| && d < |db.lits| {
        SameMembers(db.lits[c], db'.lits[c]);
        assert Members(db.lits[c]) == Members(db'.lits[c]);
        ClashesByMembers(db.lits[d], db'.lits[d], Neg(lit), Members(db.lits[c]));
      }
    }
  }

  /** The negation of the literal is in no live clause. */
  ghost predicate Pure(db: Formula, lit: Lit) {
    forall j: nat | Live(db, j) :: Neg(lit) !in db.lits[j]
  }

  /** Exactly the clauses with the literal leave. */
  ghost predicate LosesLiteral(db: Formula, db': Formula, lit: Lit) {
    db'.lits == db.lits && forall j: nat :: Live(db', j) <==> Live(db, j) && lit !in db.lits[j]
  }

  lemma PureIsHandled(db: Formula, lit: Lit)
    requires Pure(db, lit)
    ensures AllHandled(db, lit)
  {}

  /** A literal whose negation is in no live clause: all its clauses are blocked. */
  method BlockPureLiteral(s: Simplifier, lit: Lit, frozen: set<nat>)
    requires s.Valid() && s.Val(lit) == 0
    requires Pure(s.Db(), lit)
    modifies s`garbage, s`occs, s`removed, s.external`extension, s.external`stack
    ensures s.Valid()
    ensures forall m | IsModel(old(s.Db()), m) :: IsModel(s.Db(), m)
    ensures Abs(lit) in frozen ==> s.Db() == old(s.Db()) && s.removed == old(s.removed)
    ensures Abs(lit) !in frozen ==>
              && s.removed == old(s.removed) + {Abs(lit)}
              && LosesLiteral(old(s.Db()), s.Db(), lit)
              && s.external.stack == old(s.external.stack) + Moved(old(s.Db()), s.Db(), old(s.Occs(lit)), lit)
              && s.occs == old(s.occs)[lit := []][Neg(lit) := []]
    ensures Abs(lit) in frozen ==> s.external.stack == old(s.external.stack) && s.occs == old(s.occs)
  {
    hide Reconstructs, Moved, AllHandled;
    if Abs(lit) in frozen {
      return;
    }
    SameVariable(lit, lit);
    PureIsHandled(s.Db(), lit);
    ghost var db := s.Db();
    s.WeakenAll(lit);
    forall m | IsModel(db, m) ensures IsModel(s.Db(), m) {
      forall j: nat | Live(s.Db(), j) ensures Holds(m, s.lits[j]) {
        assert Live(db, j);
      }
    }
    s.Retire(lit);
  }

  /** The one live clause of a list. */
  method OnlyLive(s: Simplifier, nos: seq<nat>) returns (d: nat)
    requires |s.lits| == |s.garbage| && forall x | x in nos :: x < |s.lits|
    requires exists x :: x in nos && Live(s.Db(), x)
    ensures d in nos && Live(s.Db(), d)
  {
    for i := 0 to |nos|
      invariant forall x | 0 <= x < i :: !Live(s.Db(), nos[x])
    {
      assert nos[i] in nos;
      if !s.garbage[nos[i]] {
        return nos[i];
      }
    }
    assert false;
  }

  ghost predicate SizeAllowed(c: Clause, minSize: nat, maxSize: nat) {
    minSize <= |c| <= maxSize
  }

  lemma ClashSymmetric(c: Clause, d: Clause, lit: Lit)
    ensures Clashes(c, lit, Members(d)) ==> Clashes(d, Neg(lit), Members(c))
  {
    if Clashes(c, lit, Members(d)) {
      var k :| 0 <= k < |c| && ClashAt(c[k], lit, Members(d));
      var x := c[k];
      SameVariable(x, lit);
      assert Neg(x) in d;
      var j :| 0 <= j < |d| && d[j] == Neg(x);
      assert x in Members(c) && Neg(d[j]) == x;
      assert ClashAt(d[j], Neg(lit), Members(c));
    }
  }

  /** Clause `c` is of allowed size and its resolvent with `d` is tautological. */
  ghost predicate Removable(db: Formula, lit: Lit, d: nat, c: nat, minSize: nat, maxSize: nat) {
    && c < |db.lits| && d < |db.lits|
    && SizeAllowed(db.lits[c], minSize, maxSize)
    && Clashes(db.lits[c], lit, Members(db.lits[d]))
  }

  /** The live clauses of a list, in its order. */
  ghost function LiveOnes(db: Formula, os: seq<nat>): seq<nat> {
    if os == [] then [] else
      var front, c := os[..|os| - 1], os[|os| - 1];
      LiveOnes(db, front) + if Live(db, c) then [c] else []
  }

  lemma LiveOnesNext(db: Formula, os: seq<nat>, c: nat)
    ensures LiveOnes(db, os + [c]) == LiveOnes(db, os) + if Live(db, c) then [c] else []
  {
    assert (os + [c])[..|os|] == os;
  }

  lemma {:induction false} LiveOnesAre(db: Formula, os: seq<nat>)
    ensures forall c :: c in LiveOnes(db, os) <==> c in os && Live(db, c)
  {
    if os != [] {
      LiveOnesAre(db, os[..|os| - 1]);
    }
  }

  lemma {:induction false} LiveOnesSame(db: Formula, db': Formula, os: seq<nat>)
    requires forall x | x in os :: Live(db, x) == Live(db', x)
    ensures LiveOnes(db, os) == LiveOnes(db', os)
  {
    if os != [] {
      LiveOnesSame(db, db', os[..|os| - 1]);
    }
  }

  /** The clauses that left have their clashing literal in front, the others are as they were. */
  ghost predicate AllFronted(db: Formula, db': Formula, lit: Lit, d: nat) {
    && d < |db.lits| == |db'.lits|
    && forall i | 0 <= i < |db.lits| ::
         db'.lits[i] ==
           if Live(db, i) && !Live(db', i) then Fronted(db.lits[i], lit, Members(db.lits[d])) else db.lits[i]
  }

  lemma NoneFronted(db: Formula, lit: Lit)
    ensures SameFormula(db, db) && forall d | 0 <= d < |db.lits| :: AllFronted(db, db, lit, d)
  {}

  lemma FrontedSame(db: Formula, db': Formula, lit: Lit, d: nat)
    requires AllFronted(db, db', lit, d)
    ensures SameFormula(db, db')
  {
    forall i | 0 <= i < |db.lits| ensures multiset(db'.lits[i]) == multiset(db.lits[i]) {
      FrontedReorders(db.lits[i], lit, Members(db.lits[d]));
    }
  }

  /** The state after the clauses in `done` were tested. */
  ghost predicate Progress(s: Simplifier, db: Formula, base: seq<Entry>, lit: Lit, d: nat, minSize: nat, maxSize: nat,
                           done: seq<nat>, kept: seq<nat>)
    reads s, s.external
  {
    && s.Valid() && s.Val(lit) == 0 && Live(db, d) && |db.lits| == |db.garbage| && |s.lits| == |db.lits|
    && AllFronted(db, s.Db(), lit, d)
    && (forall j: nat | Live(s.Db(), j) && Neg(lit) in s.lits[j] :: j == d)
    && (forall m | IsModel(db, m) :: IsModel(s.Db(), m))
    && Tested(db, s.Db(), lit, d, minSize, maxSize, done, kept)
    && s.external.stack == base + Moved(db, s.Db(), done, lit)
  }

  /** Exactly the removable ones of the tested clauses are gone, and the others are kept. */
  ghost predicate Tested(db: Formula, db': Formula, lit: Lit, d: nat, minSize: nat, maxSize: nat,
                         done: seq<nat>, kept: seq<nat>) {
    && (forall c: nat :: Live(db', c) <==> Live(db, c) && !(c in done && Removable(db, lit, d, c, minSize, maxSize)))
    && kept == LiveOnes(db', done)
  }

  lemma TestedKept(db: Formula, db': Formula, lit: Lit, d: nat, minSize: nat, maxSize: nat,
                   done: seq<nat>, kept: seq<nat>, c: nat)
    requires Tested(db, db', lit, d, minSize, maxSize, done, kept) && c < |db'.lits|
    ensures !Live(db', c) ==> Tested(db, db', lit, d, minSize, maxSize, done + [c], kept)
    ensures Live(db', c) && !Removable(db, lit, d, c, minSize, maxSize) ==>
              Tested(db, db', lit, d, minSize, maxSize, done + [c], kept + [c])
    ensures Moved(db, db', done + [c], lit) == Moved(db, db', done, lit)
  {
    assert forall x :: x in done + [c] <==> x in done || x == c;
    LiveOnesNext(db', done, c);
    MovedNext(db, db', done, c, lit);
    assert Live(db', c) <==> Live(db, c) && !(c in done && Removable(db, lit, d, c, minSize, maxSize));
  }

  lemma StillLive(db: Formula, db': Formula, lit: Lit, d: nat, minSize: nat, maxSize: nat,
                  done: seq<nat>, kept: seq<nat>, c: nat)
    requires Tested(db, db', lit, d, minSize, maxSize, done, kept) && Live(db', c)
    ensures Live(db, c)
  {}

  lemma TestedDropped(db: Formula, db': Formula, db'': Formula, lit: Lit, d: nat, minSize: nat, maxSize: nat,
                      done: seq<nat>, kept: seq<nat>, c: nat, base: seq<Entry>)
    requires Tested(db, db', lit, d, minSize, maxSize, done, kept) && Removable(db, lit, d, c, minSize, maxSize)
    requires Live(db', c) && forall j: nat :: Live(db'', j) <==> Live(db', j) && j != c
    requires |db'.lits| == |db''.lits| && forall j | 0 <= j < |db'.lits| && j != c :: db''.lits[j] == db'.lits[j]
    ensures Tested(db, db'', lit, d, minSize, maxSize, done + [c], kept)
    ensures base + Moved(db, db'', done + [c], lit) ==
            base + Moved(db, db', done, lit) + [Entry([lit], c, db''.lits[c])]
  {
    assert forall x :: x in done + [c] <==> x in done || x == c;
    assert c !in done;
    LiveOnesNext(db'', done, c);
    LiveOnesSame(db', db'', done);
    MovedOne(db, db', db'', done, c, lit, base);
  }

  /** Drop the garbage from the list of the negated literal. */
  method ListOnly(s: Simplifier, l: Lit, d: nat)
    requires s.Valid() && d in s.Occs(l) && forall x | x in s.Occs(l) && Live(s.Db(), x) :: x == d
    modifies s`occs
    ensures s.Valid() && s.occs == old(s.occs)[l := [d]]
  {
    s.occs := s.occs[l := [d]];
  }

  /** Test one clause: skip garbage, keep what is too long, too short or does not clash. */
  method TestOne(s: Simplifier, ghost db: Formula, ghost base: seq<Entry>, lit: Lit, c: nat, ghost d: nat,
                 marks: set<Lit>, minSize: nat, maxSize: nat, ghost done: seq<nat>, kept: seq<nat>)
      returns (kept': seq<nat>)
    requires Progress(s, db, base, lit, d, minSize, maxSize, done, kept)
    requires c < |s.lits| && lit in s.lits[c] && c != d && marks == Members(db.lits[d])
    requires s.lits[d] == db.lits[d] && d in s.Occs(Neg(lit))
    modifies s`lits, s`garbage, s.external`extension, s.external`stack
    ensures Progress(s, db, base, lit, d, minSize, maxSize, done + [c], kept')
    ensures d < |s.lits| == |db.lits| && s.lits[d] == db.lits[d]
  {
    hide Progress, Clashes;
    ProgressKept(s, db, base, lit, d, minSize, maxSize, done, kept, c);
    if s.garbage[c] {
      return kept;
    }
    if |s.lits[c]| > maxSize || |s.lits[c]| < minSize {
      return kept + [c];
    }
    var found, c' := FindClash(s.lits[c], lit, marks);
    if !found {
      return kept + [c];
    }
    DropOne(s, db, base, lit, c, c', d, minSize, maxSize, done, kept);
    kept' := kept;
  }

  /** The clause stays as it is. */
  lemma ProgressKept(s: Simplifier, db: Formula, base: seq<Entry>, lit: Lit, d: nat, minSize: nat, maxSize: nat,
                     done: seq<nat>, kept: seq<nat>, c: nat)
    requires Progress(s, db, base, lit, d, minSize, maxSize, done, kept) && c < |s.lits|
    ensures d < |s.lits| == |db.lits| == |s.garbage| && |db.lits[c]| == |s.lits[c]|
    ensures forall marks :: Clashes(s.lits[c], lit, marks) <==> Clashes(db.lits[c], lit, marks)
    ensures s.garbage[c] ==> Progress(s, db, base, lit, d, minSize, maxSize, done + [c], kept)
    ensures !s.garbage[c] && !Removable(db, lit, d, c, minSize, maxSize) ==>
              Progress(s, db, base, lit, d, minSize, maxSize, done + [c], kept + [c])
  {
    hide Reconstructs, Connected, IsModel, Clashes, Tested, Moved;
    TestedKept(db, s.Db(), lit, d, minSize, maxSize, done, kept, c);
    FrontedSame(db, s.Db(), lit, d);
    SameMembers(db.lits[c], s.lits[c]);
    forall marks ensures Clashes(s.lits[c], lit, marks) <==> Clashes(db.lits[c], lit, marks) {
      ClashesByMembers(db.lits[c], s.lits[c], lit, marks);
    }
    assert Live(s.Db(), c) <==> !s.garbage[c];
  }

  method DropOne(s: Simplifier, ghost db: Formula, ghost base: seq<Entry>, lit: Lit, c: nat, c': Clause, ghost d: nat,
                 ghost minSize: nat, ghost maxSize: nat, ghost done: seq<nat>, ghost kept: seq<nat>)
    requires Progress(s, db, base, lit, d, minSize, maxSize, done, kept)
    requires c < |s.lits| == |s.garbage| && !s.garbage[c] && lit in s.lits[c] && c != d
    requires d < |s.lits| == |db.lits| && s.lits[d] == db.lits[d]
    requires Removable(db, lit, d, c, minSize, maxSize) && multiset(c') == multiset(s.lits[c])
    requires Clashes(s.lits[c], lit, Members(s.lits[d])) && c' == Fronted(s.lits[c], lit, Members(db.lits[d]))
    modifies s`lits, s`garbage, s.external`extension, s.external`stack
    ensures Progress(s, db, base, lit, d, minSize, maxSize, done + [c], kept)
    ensures d < |s.lits| == |db.lits| && s.lits[d] == db.lits[d]
  {
    hide Reconstructs, Connected, IsModel, Clashes, Tested, Moved, Removable, Flatten, Fronted;
    ghost var db0 := s.Db();
    assert Live(db0, c);
    StillLive(db, db0, lit, d, minSize, maxSize, done, kept, c);
    RemoveClashing(s, lit, c, c', d);
    TestedDropped(db, db0, s.Db(), lit, d, minSize, maxSize, done, kept, c, base);
  }

  method RemoveClashing(s: Simplifier, lit: Lit, c: nat, c': Clause, ghost d: nat)
    requires s.Valid() && s.Val(lit) == 0 && Live(s.Db(), c) && lit in s.lits[c] && c != d
    requires multiset(c') == multiset(s.lits[c])
    requires d < |s.lits| && Clashes(s.lits[c], lit, Members(s.lits[d]))
    requires forall j: nat | Live(s.Db(), j) && Neg(lit) in s.lits[j] :: j == d
    modifies s`lits, s`garbage, s.external`extension, s.external`stack
    ensures s.Valid() && s.lits == old(s.lits)[c := c'] && |s.garbage| == |old(s.garbage)|
    ensures forall i | 0 <= i < |s.lits| :: multiset(s.lits[i]) == multiset(old(s.lits)[i])
    ensures forall j: nat :: Live(s.Db(), j) <==> Live(old(s.Db()), j) && j != c
    ensures forall j: nat | Live(s.Db(), j) && Neg(lit) in s.lits[j] :: j == d
    ensures forall m | IsModel(old(s.Db()), m) :: IsModel(s.Db(), m)
    ensures s.external.stack == old(s.external.stack) + [Entry([lit], c, c')]
  {
    hide Reconstructs, Flatten;
    ghost var db := s.Db();
    SameMembers(s.lits[c], c');
    ClashesByMembers(s.lits[c], c', lit, Members(s.lits[d]));
    Reorder(s, c, c');
    ghost var db' := s.Db();
    assert forall j: nat :: Live(db', j) <==> Live(db, j);
    ClashSymmetric(c', s.lits[d], lit);
    assert Tautology(db', c, lit, d);
    BlockedIsRepairable(db', s.occs, [d], c, lit);
    s.WeakenClause(c, lit);
    TrashKeepsModels(db', c);
  }

  /** Against the one clause `d` with the negated literal: exactly the clauses with the literal that
      are of allowed size and clash with `d` leave, unless `d` is too long.  They are pushed in the
      order of the list, which keeps the other live ones. */
  ghost predicate BlockedAgainst(s: Stage, s': Stage, lit: Lit, d: nat, minSize: nat, maxSize: nat,
                                 stack: seq<Entry>, stack': seq<Entry>) {
    && AllFronted(s.db, s'.db, lit, d)
    && (forall c: nat :: Live(s'.db, c) <==>
          Live(s.db, c) && !(|s.db.lits[d]| <= maxSize && lit in s.db.lits[c] &&
                             Removable(s.db, lit, d, c, minSize, maxSize)))
    && if |s.db.lits[d]| > maxSize then stack' == stack && s'.occs == s.occs[Neg(lit) := [d]]
       else
         && stack' == stack + Moved(s.db, s'.db, ListIn(s.occs, lit), lit)
         && s'.occs == s.occs[Neg(lit) := [d]][lit := LiveOnes(s'.db, ListIn(s.occs, lit))]
  }

  /** Only one live clause `d` holds the negated literal: mark `d` once and test every clause
      with the literal against it.  Exactly those of allowed size that clash are moved to the
      extension stack, and only the other live ones stay listed. */
  method BlockLiteralWithOneNegativeOcc(s: Simplifier, lit: Lit, minSize: nat, maxSize: nat)
    requires s.Valid() && s.Val(lit) == 0
    requires exists d :: OneNegative(s.Db(), s.Occs(Neg(lit)), lit, d)
    modifies s`lits, s`occs, s`garbage, s.external`extension, s.external`stack
    ensures s.Valid() && SameFormula(old(s.Db()), s.Db())
    ensures forall m | IsModel(old(s.Db()), m) :: IsModel(s.Db(), m)
    ensures forall d: nat | OneNegative(old(s.Db()), old(s.Occs(Neg(lit))), lit, d) ::
              BlockedAgainst(old(s.State()), s.State(), lit, d, minSize, maxSize,
                             old(s.external.stack), s.external.stack)
  {
    hide BlockedAgainst, Reconstructs, IsModel;
    var nos := s.Occs(Neg(lit));
    var d := OnlyLive(s, nos);
    BlockAgainst(s, lit, d, minSize, maxSize);
  }

  method BlockAgainst(s: Simplifier, lit: Lit, d: nat, minSize: nat, maxSize: nat)
    requires s.Valid() && s.Val(lit) == 0 && OneNegative(s.Db(), s.Occs(Neg(lit)), lit, d)
    modifies s`lits, s`occs, s`garbage, s.external`extension, s.external`stack
    ensures s.Valid() && SameFormula(old(s.Db()), s.Db())
    ensures forall m | IsModel(old(s.Db()), m) :: IsModel(s.Db(), m)
    ensures BlockedAgainst(old(s.State()), s.State(), lit, d, minSize, maxSize,
                           old(s.external.stack), s.external.stack)
  {
    hide Reconstructs, IsModel, Moved, LiveOnes, Clashes, Fronted, SameFormula, AllFronted, Removable;
    ghost var db := s.Db();
    NoneFronted(db, lit);
    ListOnly(s, Neg(lit), d);
    if |s.lits[d]| > maxSize {
      return;
    }
    SameVariable(lit, lit);
    assert s.Occs(lit) == old(s.Occs(lit));
    var kept := TestAll(s, lit, d, minSize, maxSize);
    FrontedSame(db, s.Db(), lit, d);
    LiveOnesAre(s.Db(), s.Occs(lit));
    s.occs := s.occs[lit := kept];
  }

  method TestAll(s: Simplifier, lit: Lit, d: nat, minSize: nat, maxSize: nat) returns (kept: seq<nat>)
    requires s.Valid() && s.Val(lit) == 0 && Live(s.Db(), d) && d in s.Occs(Neg(lit)) && lit !in s.lits[d]
    requires forall j: nat | Live(s.Db(), j) && Neg(lit) in s.lits[j] :: j == d
    modifies s`lits, s`garbage, s.external`extension, s.external`stack
    ensures Progress(s, old(s.Db()), old(s.external.stack), lit, d, minSize, maxSize, s.Occs(lit), kept)
  {
    hide Progress;
    ghost var db, base := s.Db(), s.external.stack;
    ProgressStart(s, lit, d, minSize, maxSize);
    var marks := Members(s.lits[d]);
    var pos := s.Occs(lit);
    kept := [];
    for i := 0 to |pos|
      invariant Progress(s, db, base, lit, d, minSize, maxSize, pos[..i], kept)
      invariant d < |s.lits| == |db.lits| && s.lits[d] == db.lits[d]
    {
      var c := pos[i];
      ProgressListed(s, db, base, lit, d, minSize, maxSize, pos[..i], kept, c);
      kept := TestOne(s, db, base, lit, c, d, marks, minSize, maxSize, pos[..i], kept);
      assert pos[..i + 1] == pos[..i] + [c];
    }
    assert pos[..|pos|] == pos;
  }

  lemma ProgressStart(s: Simplifier, lit: Lit, d: nat, minSize: nat, maxSize: nat)
    requires s.Valid() && s.Val(lit) == 0 && Live(s.Db(), d)
    requires forall j: nat | Live(s.Db(), j) && Neg(lit) in s.lits[j] :: j == d
    ensures Progress(s, s.Db(), s.external.stack, lit, d, minSize, maxSize, [], [])
  {
    hide Reconstructs, IsModel, Removable;
  }

  lemma ProgressListed(s: Simplifier, db: Formula, base: seq<Entry>, lit: Lit, d: nat, minSize: nat, maxSize: nat,
                       done: seq<nat>, kept: seq<nat>, c: nat)
    requires Progress(s, db, base, lit, d, minSize, maxSize, done, kept) && c in s.Occs(lit)
    ensures c < |s.lits| && lit in s.lits[c] && d < |db.lits| && d < |s.lits|
  {
    OccursListed(s, lit, c);
  }

  /** `d` is the only live clause with the negated literal. */
  ghost predicate OneNegative(db: Formula, nos: seq<nat>, lit: Lit, d: nat) {
    && d in nos && Live(db, d) && Neg(lit) in db.lits[d]
    && forall x | x in nos && Live(db, x) :: x == d
  }
}
