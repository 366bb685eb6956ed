/** Rebuilding a model after clauses were removed: the extension stack, the backward pass
    over it, and the condition under which a removed clause can be repaired. */
module Reconstruction {
  import opened Sat

  // ----- Entries and their repair -----

  /** A removed clause with the literals to make true should it be falsified. */
  datatype Entry = Entry(flips: seq<Lit>, id: int, clause: Clause)

  function SetTrue(m: Assignment, l: Lit): Assignment {
    if l > 0 then m + {Abs(l)} else m - {Abs(l)}
  }

  /** Make the literals true one by one, from the last to the first. */
  function SetAll(m: Assignment, ls: seq<Lit>): Assignment {
    if ls == [] then m else SetTrue(SetAll(m, ls[1..]), ls[0])
  }

  function Repair(m: Assignment, e: Entry): Assignment {
    if Holds(m, e.clause) then m else SetAll(m, e.flips)
  }

  /** Repair entry by entry, the last one first. */
  function RepairAll(m: Assignment, stack: seq<Entry>): Assignment {
    if stack == [] then m else Repair(RepairAll(m, stack[1..]), stack[0])
  }

  lemma {:induction false} RepairAllAppend(m: Assignment, stack: seq<Entry>, e: Entry)
    ensures RepairAll(m, stack + [e]) == RepairAll(Repair(m, e), stack)
  {
    if stack == [] {
      assert RepairAll(m, [e]) == Repair(RepairAll(m, []), e);
    } else {
      assert (stack + [e])[1..] == stack[1..] + [e];
      RepairAllAppend(m, stack[1..], e);
    }
  }

  /** One literal made true: everything stays but its negation. */
  lemma SetTrueKeeps(m: Assignment, l: Lit)
    ensures True(SetTrue(m, l), l)
    ensures forall k: Lit | Abs(k) != Abs(l) :: True(SetTrue(m, l), k) <==> True(m, k)
  {}

  lemma SetAllOne(m: Assignment, l: Lit)
    ensures SetAll(m, [l]) == SetTrue(m, l)
  {
    assert SetAll(m, [l][1..]) == m;
  }

  // ----- The stack as it is stored -----

  /** One entry as stored: zeros as separators, and two words for the clause identifier. */
  function Stored(e: Entry): seq<int> {
    [0] + e.flips + [0, 0, e.id, 0] + e.clause
  }

  function Flatten(stack: seq<Entry>): seq<int> {
    if stack == [] then [] else Flatten(stack[..|stack| - 1]) + Stored(stack[|stack| - 1])
  }

  lemma FlattenAppend(stack: seq<Entry>, e: Entry)
    ensures Flatten(stack + [e]) == Flatten(stack) + Stored(e)
  {
    assert (stack + [e])[..|stack|] == stack;
  }

  ghost predicate Within(e: Entry, maxVar: nat) {
    && (forall l | l in e.flips :: Abs(l) <= maxVar)
    && (forall l | l in e.clause :: Abs(l) <= maxVar)
  }

  /** The variables whose bit is set. */
  function TrueVars(vals: seq<bool>): (m: Assignment) {
    set i | 0 <= i < |vals| && vals[i]
  }

  class External {
    var maxVar: nat
    var extension: seq<int>
    var vals: seq<bool>
    ghost var stack: seq<Entry>

    ghost predicate Valid()
      reads this
    {
      && extension == Flatten(stack)
      && forall e | e in stack :: Within(e, maxVar)
    }

    constructor (maxVar: nat)
      ensures Valid() && this.maxVar == maxVar && stack == [] && extension == [] && vals == []
    {
      this.maxVar := maxVar;
      extension, vals, stack := [], [], [];
    }

    method PushZero()
      modifies this`extension
      ensures extension == old(extension) + [0]
    {
      extension := extension + [0];
    }

    /** Two words; the high one is always zero. */
    method PushId(id: int)
      modifies this`extension
      ensures extension == old(extension) + [0, id]
    {
      extension := extension + [0];
      extension := extension + [id];
      assert extension == old(extension) + [0, id];
    }

    method PushClause(c: Clause, id: int)
      modifies this`extension
      ensures extension == old(extension) + [0, 0, id, 0] + c
    {
      PushZero();
      PushId(id);
      PushZero();
      for i := 0 to |c|
        invariant extension == old(extension) + [0, 0, id, 0] + c[..i]
      {
        assert c[..i + 1] == c[..i] + [c[i]];
        extension := extension + [c[i]];
      }
      assert c[..|c|] == c;
    }

    /** Remember a removed clause with the one literal that repairs it. */
    method PushClauseWithPivot(c: Clause, pivot: Lit, id: int)
      requires Valid()
      requires Abs(pivot) <= maxVar && forall l | l in c :: Abs(l) <= maxVar
      modifies this`extension, this`stack
      ensures Valid() && stack == old(stack) + [Entry([pivot], id, c)]
    {
      ghost var e := Entry([pivot], id, c);
      ghost var before := extension;
      FlattenAppend(stack, e);
      PushZero();
      extension := extension + [pivot];
      PushClause(c, id);
      assert extension == before + ([0] + [pivot] + [0, 0, id, 0] + c);
      assert Stored(e) == [0] + [pivot] + [0, 0, id, 0] + c;
      stack := stack + [e];
    }

    /** Positive if the literal is true. */
    function Ival(lit: Lit): (r: int)
      reads this
      ensures Abs(lit) <= maxVar ==> (r > 0 <==> True(TrueVars(vals), lit)) && (r < 0 <==> !True(TrueVars(vals), lit))
    {
      var eidx: int := Abs(lit);
      var res := if eidx > maxVar then -eidx
                 else if eidx >= |vals| then -eidx
                 else if vals[eidx] then eidx else -eidx;
      if lit < 0 then -res else res
    }

    /** Flip the literal to true unless it is true already. */
    method MakeTrue(lit: Lit)
      requires Abs(lit) <= maxVar
      modifies this`vals
      ensures TrueVars(vals) == SetTrue(TrueVars(old(vals)), lit)
    {
      var tmp := Ival(lit);
      if tmp < 0 {
        var idx := Abs(lit);
        if idx >= |vals| {
          vals := vals + seq(idx + 1 - |vals|, i => false);
          assert TrueVars(vals) == TrueVars(old(vals));
        }
        ghost var before := vals;
        vals := vals[idx := !vals[idx]];
        assert TrueVars(vals) == if before[idx] then TrueVars(before) - {idx} else TrueVars(before) + {idx};
      }
    }

    /** The backward pass over the flat stack. */
    method Extend()
      requires Valid()
      modifies this`vals
      ensures Valid() && TrueVars(vals) == RepairAll(TrueVars(old(vals)), stack)
    {
      hide Flatten, RepairAll;
      var i: nat := |extension|;
      ghost var k := |stack|;
      ghost var m0 := TrueVars(vals);
      NothingToRepair(m0);
      assert stack[..k] == stack && stack[k..] == [];
      while i != 0
        invariant k <= |stack| && i <= |extension|
        invariant extension[..i] == Flatten(stack[..k])
        invariant TrueVars(vals) == RepairAll(m0, stack[k..])
        decreases k
      {
        LastEntry(extension, i, stack, k);
        k := k - 1;
        RepairNext(m0, stack, k);
        i := ExtendEntry(i, |Flatten(stack[..k])|, stack[k]);
      }
      FlattenNothing(stack[..k]);
      assert stack[0..] == stack;
    }

    /** One entry: scan its clause, then skip its witness or make it true. */
    method ExtendEntry(start: nat, ghost base: nat, ghost e: Entry) returns (i: nat)
      requires start <= |extension| && Laid(extension, base, start, e) && Within(e, maxVar)
      modifies this`vals
      ensures i == base
      ensures TrueVars(vals) == Repair(TrueVars(old(vals)), e)
    {
      var satisfied;
      satisfied, i := ScanClause(start, base, e);
      i := i - 3; // over the two words of the identifier, to the separator
      if satisfied {
        i := SkipWitness(i, base, e);
      } else {
        i := ScanWitness(i, base, e);
      }
    }

    /** Read the clause backwards up to its separator. */
    method ScanClause(start: nat, ghost base: nat, ghost e: Entry) returns (satisfied: bool, i: nat)
      requires start <= |extension| && Laid(extension, base, start, e) && Within(e, maxVar)
      ensures i == base + |e.flips| + 4
      ensures satisfied <==> Holds(TrueVars(vals), e.clause)
    {
      ghost var w, n := |e.flips|, |e.clause|;
      satisfied := false;
      i := start - 1;
      NonZero(extension, base + w + 5, e.clause);
      while extension[i] != 0
        invariant base + w + 4 <= i < start
        invariant satisfied <==> exists x | i - base - w - 4 <= x < n :: True(TrueVars(vals), e.clause[x])
        decreases i
      {
        ghost var x := i - base - w - 5;
        assert extension[i] == e.clause[x];
        if !satisfied {
          if Ival(extension[i]) > 0 {
            satisfied := true;
          }
        }
        i := i - 1;
      }
    }

    /** Skip the witness of an entry that needs no repair. */
    method SkipWitness(start: nat, ghost base: nat, ghost e: Entry) returns (i: nat)
      requires start == base + |e.flips| + 1 <= |extension| && extension[base] == 0
      requires forall x | 0 <= x < |e.flips| :: extension[base + 1 + x] == e.flips[x]
      ensures i == base
    {
      NonZero(extension, base + 1, e.flips);
      i := start - 1;
      while extension[i] != 0
        invariant base <= i < start
        decreases i
      {
        i := i - 1;
      }
    }

    /** Read the witness backwards and make its literals true. */
    method ScanWitness(start: nat, ghost base: nat, ghost e: Entry) returns (i: nat)
      requires start == base + |e.flips| + 1 <= |extension| && Within(e, maxVar)
      requires extension[base] == 0
      requires forall x | 0 <= x < |e.flips| :: extension[base + 1 + x] == e.flips[x]
      modifies this`vals
      ensures i == base
      ensures TrueVars(vals) == SetAll(TrueVars(old(vals)), e.flips)
    {
      ghost var w, m0 := |e.flips|, TrueVars(vals);
      i := start - 1;
      NonZero(extension, base + 1, e.flips);
      assert e.flips[w..] == [];
      while extension[i] != 0
        invariant base <= i <= base + w
        invariant TrueVars(vals) == SetAll(m0, e.flips[i - base..])
        decreases i
      {
        ghost var x := i - base - 1;
        assert i > base;
        assert extension[i] == e.flips[x];
        assert e.flips[x..] == [e.flips[x]] + e.flips[x + 1..];
        MakeTrue(extension[i]);
        i := i - 1;
      }
      assert e.flips[0..] == e.flips;
    }
  }

  lemma NonZero(extension: seq<int>, from: nat, ls: seq<Lit>)
    requires from + |ls| <= |extension|
    requires forall x | 0 <= x < |ls| :: extension[from + x] == ls[x]
    ensures forall y | from <= y < from + |ls| :: extension[y] != 0
  {
    forall y | from <= y < from + |ls| ensures extension[y] != 0 {
      assert extension[from + (y - from)] == ls[y - from];
    }
  }

  /** The cells from `base` up to `end` hold exactly this entry. */
  ghost predicate Laid(extension: seq<int>, base: nat, end: nat, e: Entry) {
    var w := |e.flips|;
    && end == base + w + 5 + |e.clause| <= |extension|
    && extension[base] == 0 && extension[base + w + 1] == 0 && extension[base + w + 4] == 0
    && (forall x | 0 <= x < w :: extension[base + 1 + x] == e.flips[x])
    && (forall x | 0 <= x < |e.clause| :: extension[base + w + 5 + x] == e.clause[x])
  }

  lemma NothingToRepair(m: Assignment)
    ensures RepairAll(m, []) == m
  {}

  lemma RepairNext(m: Assignment, stack: seq<Entry>, k: nat)
    requires k < |stack|
    ensures RepairAll(m, stack[k..]) == Repair(RepairAll(m, stack[k + 1..]), stack[k])
  {
    assert stack[k..][1..] == stack[k + 1..];
  }

  lemma FlattenNothing(stack: seq<Entry>)
    requires Flatten(stack) == []
    ensures stack == []
  {}

  lemma LastEntry(extension: seq<int>, i: nat, stack: seq<Entry>, k: nat)
    requires 0 < i <= |extension| && k <= |stack| && extension[..i] == Flatten(stack[..k])
    ensures k > 0
    ensures var base := |Flatten(stack[..k - 1])|;
            base <= i && extension[..base] == Flatten(stack[..k - 1]) && Laid(extension, base, i, stack[k - 1])
  {
    var e, base := stack[k - 1], |Flatten(stack[..k - 1])|;
    assert stack[..k][..k - 1] == stack[..k - 1];
    assert extension[..i] == Flatten(stack[..k - 1]) + Stored(e);
    assert extension[..base] == extension[..i][..base];
    StoredLayout(extension, base, i, e);
  }

  lemma StoredLayout(extension: seq<int>, base: nat, end: nat, e: Entry)
    requires base <= end <= |extension|
    requires extension[..end] == extension[..base] + Stored(e)
    ensures Laid(extension, base, end, e)
  {
    hide Stored;
    var w := |e.flips|;
    StoredCells(e);
    assert extension[..end][base..] == Stored(e);
    forall y | 0 <= y < |Stored(e)| ensures extension[base + y] == Stored(e)[y] {
      assert extension[..end][base..][y] == extension[base + y];
    }
    forall x | 0 <= x < w ensures extension[base + 1 + x] == e.flips[x] {
      assert extension[base + (1 + x)] == Stored(e)[1 + x];
    }
    forall x | 0 <= x < |e.clause| ensures extension[base + w + 5 + x] == e.clause[x] {
      assert extension[base + (w + 5 + x)] == Stored(e)[w + 5 + x];
    }
  }

  lemma StoredCells(e: Entry)
    ensures var s, w := Stored(e), |e.flips|;
            && |s| == w + 5 + |e.clause| && s[0] == 0 && s[w + 1] == 0 && s[w + 4] == 0
            && (forall x | 0 <= x < w :: s[1 + x] == e.flips[x])
            && (forall x | 0 <= x < |e.clause| :: s[w + 5 + x] == e.clause[x])
  {}

  // ----- Formulas under simplification -----

  /** The irredundant clauses with their garbage marks, the root-level units, and whether
      the empty clause was learned. */
  datatype Formula = Formula(lits: seq<Clause>, garbage: seq<bool>, fixed: set<Lit>, unsat: bool)

  predicate Live(db: Formula, i: nat) {
    i < |db.lits| && i < |db.garbage| && !db.garbage[i]
  }

  ghost predicate IsModel(db: Formula, m: Assignment) {
    && !db.unsat
    && (forall i: nat {:trigger Live(db, i)} | Live(db, i) :: Holds(m, db.lits[i]))
    && (forall l | l in db.fixed :: True(m, l))
  }

  /** Every model of the original clauses is one of what is left, and every model of what is
      left, repaired backwards, satisfies all original clauses. */
  ghost predicate Reconstructs(original: seq<Clause>, db: Formula, stack: seq<Entry>) {
    && (forall m | Models(m, original) :: IsModel(db, m))
    && (forall m | IsModel(db, m) :: Models(RepairAll(m, stack), original))
  }

  /** So neither has a model without the other. */
  lemma SameSatisfiability(original: seq<Clause>, db: Formula, stack: seq<Entry>)
    requires Reconstructs(original, db, stack)
    ensures Satisfiable(original, []) <==> exists m :: IsModel(db, m)
    ensures db.unsat ==> !Satisfiable(original, [])
  {
    if Satisfiable(original, []) {
      var m :| Models(m, original);
      assert IsModel(db, m);
    }
    if m :| IsModel(db, m) {
      assert AllTrue(RepairAll(m, stack), []);
    }
  }

  ghost predicate Equivalent(db: Formula, db': Formula) {
    forall m :: IsModel(db, m) <==> IsModel(db', m)
  }

  lemma EquivalentReconstructs(original: seq<Clause>, db: Formula, db': Formula, stack: seq<Entry>)
    requires Reconstructs(original, db, stack) && Equivalent(db, db')
    ensures Reconstructs(original, db', stack)
  {
    forall m | IsModel(db', m) ensures Models(RepairAll(m, stack), original) {
      assert IsModel(db, m);
    }
  }

  function Trash(db: Formula, i: nat): Formula
    requires i < |db.garbage|
  {
    db.(garbage := db.garbage[i := true])
  }

  /** Some literal of `c` other than `skip` is true. */
  ghost predicate HoldsBut(m: Assignment, c: Clause, skip: Lit) {
    exists l | l in c :: l != skip && True(m, l)
  }

  /** Whenever a model of the rest falsifies clause `i`, every live clause with the negated
      pivot holds through another literal. */
  ghost predicate Repairable(db: Formula, i: nat, pivot: Lit)
    requires Live(db, i)
  {
    && pivot in db.lits[i]
    && pivot !in db.fixed && Neg(pivot) !in db.fixed
    && forall j: nat, m {:trigger Live(db, j), IsModel(Trash(db, i), m)} |
         Live(db, j) && j != i && Neg(pivot) in db.lits[j] && IsModel(Trash(db, i), m) && !Holds(m, db.lits[i]) ::
           HoldsBut(m, db.lits[j], Neg(pivot))
  }

  /** A clause less keeps every model. */
  lemma TrashKeepsModels(db: Formula, i: nat)
    requires i < |db.garbage|
    ensures forall m | IsModel(db, m) :: IsModel(Trash(db, i), m)
  {
    forall m | IsModel(db, m) ensures IsModel(Trash(db, i), m) {
      forall j: nat | Live(Trash(db, i), j) ensures Holds(m, db.lits[j]) {
        assert Live(db, j);
      }
    }
  }

  /** Removing a repairable clause with its pivot pushed keeps every original clause in reach. */
  lemma Weaken(original: seq<Clause>, db: Formula, stack: seq<Entry>, i: nat, pivot: Lit, id: int)
    requires Live(db, i) && Repairable(db, i, pivot)
    requires Reconstructs(original, db, stack)
    ensures Reconstructs(original, Trash(db, i), stack + [Entry([pivot], id, db.lits[i])])
  {
    var e := Entry([pivot], id, db.lits[i]);
    forall m | IsModel(Trash(db, i), m) ensures Models(RepairAll(m, stack + [e]), original) {
      RepairAllAppend(m, stack, e);
      RepairedIsModel(db, i, pivot, m);
      SetAllOne(m, pivot);
      assert IsModel(db, Repair(m, e));
    }
    TrashKeepsModels(db, i);
  }

  lemma RepairedIsModel(db: Formula, i: nat, pivot: Lit, m: Assignment)
    requires Live(db, i) && Repairable(db, i, pivot) && IsModel(Trash(db, i), m)
    ensures IsModel(db, if Holds(m, db.lits[i]) then m else SetTrue(m, pivot))
  {
    if Holds(m, db.lits[i]) {
      forall j: nat | Live(db, j) ensures Holds(m, db.lits[j]) {
        assert j != i ==> Live(Trash(db, i), j);
      }
    } else {
      var m' := SetTrue(m, pivot);
      SetTrueKeeps(m, pivot);
      forall j: nat | Live(db, j) ensures Holds(m', db.lits[j]) {
        if j != i {
          assert Live(Trash(db, i), j);
          KeptByFlip(m, pivot, db.lits[j]);
        } else {
          assert True(m', pivot);
        }
      }
      forall l | l in db.fixed ensures True(m', l) {
        SameVariable(l, pivot);
      }
    }
  }

  lemma KeptByFlip(m: Assignment, pivot: Lit, d: Clause)
    requires Holds(m, d)
    requires Neg(pivot) in d ==> HoldsBut(m, d, Neg(pivot))
    ensures Holds(SetTrue(m, pivot), d)
  {
    var k :| k in d && True(m, k) && k != Neg(pivot);
    SameVariable(k, pivot);
    SetTrueKeeps(m, pivot);
    assert True(SetTrue(m, pivot), k);
  }
}
