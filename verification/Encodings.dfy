/** The clause generators, each specified by what its clauses say about an
    assignment, and the exact correspondence of those assignments with
    admissible, complete and stable sets. */
module Encodings {
  import opened Sat
  import opened SatSolver
  import opened Frameworks
  import opened ArgumentationFramework

  // ----- Variable blocks -----

  /** Argument `i` is accepted, in the block starting after `off`. */
  predicate Acc(m: Assignment, off: nat, i: nat) {
    off + i + 1 in m
  }

  /** Argument `i` is rejected, in the block starting after `off`. */
  predicate Rej(f: Graph, m: Assignment, off: nat, i: nat) {
    off + Size(f) + i + 1 in m
  }

  predicate Und(f: Graph, m: Assignment, i: nat) {
    2 * Size(f) + i + 1 in m
  }

  /** Number of attacks on arguments below `i`. */
  function Before(f: Graph, i: nat): nat
    requires i <= Size(f)
  {
    TotalLength(f.attackers[..i])
  }

  /** The `j`-th attack on `i` is chosen. */
  predicate Att(f: Graph, m: Assignment, i: nat, j: nat)
    requires i < Size(f)
  {
    4 * Size(f) + Before(f, i) + j + 1 in m
  }

  // ----- What the clauses say -----

  ghost predicate AllRejected(f: Graph, m: Assignment, off: nat, bs: seq<nat>) {
    forall b | b in bs :: Rej(f, m, off, b)
  }

  ghost predicate SomeAccepted(m: Assignment, off: nat, bs: seq<nat>) {
    exists b | b in bs :: Acc(m, off, b)
  }

  ghost predicate AdmissibleAt(f: Graph, m: Assignment, off: nat, i: nat)
    requires i < Size(f)
  {
    && !(Acc(m, off, i) && Rej(f, m, off, i))
    && (f.attackers[i] == [] ==> Acc(m, off, i))
    && (f.attackers[i] != [] ==>
          && (Acc(m, off, i) ==> AllRejected(f, m, off, f.attackers[i]))
          && (Rej(f, m, off, i) ==> SomeAccepted(m, off, f.attackers[i])))
  }

  ghost predicate AdmissibleModel(f: Graph, m: Assignment, off: nat) {
    forall i: nat | i < Size(f) :: AdmissibleAt(f, m, off, i)
  }

  ghost predicate CompleteAt(f: Graph, m: Assignment, i: nat)
    requires i < Size(f)
  {
    && (Acc(m, 0, i) || Rej(f, m, 0, i) || Und(f, m, i))
    && !(Acc(m, 0, i) && Rej(f, m, 0, i))
    && !(Acc(m, 0, i) && Und(f, m, i))
    && !(Rej(f, m, 0, i) && Und(f, m, i))
    && (f.attackers[i] == [] ==> Acc(m, 0, i))
    && (f.attackers[i] != [] ==>
          && (Acc(m, 0, i) <==> AllRejected(f, m, 0, f.attackers[i]))
          && (Rej(f, m, 0, i) ==> SomeAccepted(m, 0, f.attackers[i])))
  }

  ghost predicate CompletePerfAt(f: Graph, m: Assignment, i: nat)
    requires i < Size(f)
  {
    && !(Acc(m, 0, i) && Rej(f, m, 0, i))
    && (f.attackers[i] == [] ==> Acc(m, 0, i))
    && (f.attackers[i] != [] ==>
          && (Acc(m, 0, i) <==> AllRejected(f, m, 0, f.attackers[i]))
          && (Rej(f, m, 0, i) <==> SomeAccepted(m, 0, f.attackers[i])))
  }

  /** Models of `complete`, in the variant chosen at compile time. */
  ghost predicate CompleteModel(f: Graph, perf: bool, m: Assignment) {
    forall i: nat | i < Size(f) :: if perf then CompletePerfAt(f, m, i) else CompleteAt(f, m, i)
  }

  ghost predicate StableAt(f: Graph, m: Assignment, i: nat)
    requires i < Size(f)
  {
    && (Acc(m, 0, i) <==> !Rej(f, m, 0, i))
    && (f.attackers[i] == [] ==> Acc(m, 0, i))
    && (f.attackers[i] != [] ==>
          && (Acc(m, 0, i) <==> AllRejected(f, m, 0, f.attackers[i]))
          && (Rej(f, m, 0, i) ==> SomeAccepted(m, 0, f.attackers[i])))
  }

  ghost predicate StableModel(f: Graph, m: Assignment) {
    forall i: nat | i < Size(f) :: StableAt(f, m, i)
  }

  ghost predicate AttackAt(f: Graph, m: Assignment, i: nat, j: nat)
    requires i < Size(f) && j < |f.attackers[i]|
  {
    Att(f, m, i, j) <==> Acc(m, 0, f.attackers[i][j]) && Acc(m, 2 * Size(f), i)
  }

  ghost predicate SomeAttack(f: Graph, m: Assignment, k: nat)
    requires k <= Size(f)
  {
    exists i: nat, j: nat | i < k && j < |f.attackers[i]| :: Att(f, m, i, j)
  }

  ghost predicate AttacksOn(f: Graph, m: Assignment, i: nat, k: nat)
    requires i < Size(f) && k <= |f.attackers[i]|
  {
    forall j: nat | j < k :: AttackAt(f, m, i, j)
  }

  ghost predicate AttacksModel(f: Graph, m: Assignment) {
    && (forall i: nat | i < Size(f) :: AttacksOn(f, m, i, |f.attackers[i]|))
    && SomeAttack(f, m, Size(f))
  }

  lemma NextAttacker(f: Graph, off: nat, i: nat, j: nat)
    requires i < Size(f) && j < |f.attackers[i]|
    ensures f.attackers[i][j] < Size(f)
    ensures forall m :: AllRejected(f, m, off, f.attackers[i][..j + 1]) <==>
                        AllRejected(f, m, off, f.attackers[i][..j]) && Rej(f, m, off, f.attackers[i][j])
    ensures forall m :: SomeAccepted(m, off, f.attackers[i][..j + 1]) <==>
                        SomeAccepted(m, off, f.attackers[i][..j]) || Acc(m, off, f.attackers[i][j])
  {
    var bs, b := f.attackers[i][..j], f.attackers[i][j];
    assert f.attackers[i][..j + 1] == bs + [b];
    assert forall x :: x in bs + [b] <==> x in bs || x == b;
  }

  /** `c` says that one of the first `j` attackers of `i` is accepted. */
  ghost predicate SaysSomeIn(f: Graph, off: nat, i: nat, j: nat, c: Clause)
    requires i < Size(f) && j <= |f.attackers[i]|
  {
    forall m :: Holds(m, c) <==> SomeAccepted(m, off, f.attackers[i][..j])
  }

  /** `c` says that one of the first `j` attackers of `i` is not rejected. */
  ghost predicate SaysSomeNotOut(f: Graph, off: nat, i: nat, j: nat, c: Clause)
    requires i < Size(f) && j <= |f.attackers[i]|
  {
    forall m :: Holds(m, c) <==> !AllRejected(f, m, off, f.attackers[i][..j])
  }

  lemma GrowSomeIn(f: Graph, off: nat, i: nat, j: nat, c: Clause)
    requires i < Size(f) && j < |f.attackers[i]| && SaysSomeIn(f, off, i, j, c)
    ensures SaysSomeIn(f, off, i, j + 1, c + [off + f.attackers[i][j] + 1])
  {
    var l: Lit := off + f.attackers[i][j] + 1;
    NextAttacker(f, off, i, j);
    forall m ensures Holds(m, c + [l]) <==> SomeAccepted(m, off, f.attackers[i][..j + 1]) {
      HoldsAppend(m, c, l);
      assert True(m, l) <==> Acc(m, off, f.attackers[i][j]);
      assert Holds(m, c) <==> SomeAccepted(m, off, f.attackers[i][..j]);
    }
  }

  lemma GrowSomeNotOut(f: Graph, off: nat, i: nat, j: nat, c: Clause)
    requires i < Size(f) && j < |f.attackers[i]| && SaysSomeNotOut(f, off, i, j, c)
    ensures SaysSomeNotOut(f, off, i, j + 1, c + [-(off + Size(f) + f.attackers[i][j] + 1)])
  {
    var l: Lit := -(off + Size(f) + f.attackers[i][j] + 1);
    NextAttacker(f, off, i, j);
    forall m ensures Holds(m, c + [l]) <==> !AllRejected(f, m, off, f.attackers[i][..j + 1]) {
      HoldsAppend(m, c, l);
      assert True(m, l) <==> !Rej(f, m, off, f.attackers[i][j]);
      assert Holds(m, c) <==> !AllRejected(f, m, off, f.attackers[i][..j]);
    }
  }

  /** The two long clauses of an attacked argument, finished. */
  lemma FinishLongClauses(f: Graph, off: nat, i: nat, attackersIn: Clause, attackersNotOut: Clause)
    requires i < Size(f)
    requires SaysSomeIn(f, off, i, |f.attackers[i]|, attackersIn)
    requires SaysSomeNotOut(f, off, i, |f.attackers[i]|, attackersNotOut)
    ensures forall m :: Holds(m, attackersIn + [-(off + Size(f) + i + 1)]) <==>
                        (Rej(f, m, off, i) ==> SomeAccepted(m, off, f.attackers[i]))
    ensures forall m :: Holds(m, attackersNotOut + [off + i + 1]) <==>
                        (AllRejected(f, m, off, f.attackers[i]) ==> Acc(m, off, i))
  {
    assert f.attackers[i][..|f.attackers[i]|] == f.attackers[i];
    forall m
      ensures Holds(m, attackersIn + [-(off + Size(f) + i + 1)]) <==>
              (Rej(f, m, off, i) ==> SomeAccepted(m, off, f.attackers[i]))
      ensures Holds(m, attackersNotOut + [off + i + 1]) <==>
              (AllRejected(f, m, off, f.attackers[i]) ==> Acc(m, off, i))
    {
      HoldsAppend(m, attackersIn, -(off + Size(f) + i + 1));
      HoldsAppend(m, attackersNotOut, off + i + 1);
    }
  }

  lemma BeforeStep(f: Graph, i: nat)
    requires i < Size(f)
    ensures Before(f, i + 1) == Before(f, i) + |f.attackers[i]|
  {
    assert f.attackers[..i + 1][..i] == f.attackers[..i];
  }

  lemma {:induction false} BeforeMonotone(f: Graph, i: nat, k: nat)
    requires i <= k <= Size(f)
    ensures Before(f, i) <= Before(f, k)
  {
    if i < k {
      BeforeStep(f, k - 1);
      BeforeMonotone(f, i, k - 1);
    }
  }

  /** Every index below the number of attacks is that of exactly one attack entry. */
  lemma {:induction false} AttackOfIndex(f: Graph, k: nat, x: nat) returns (i: nat, j: nat)
    requires k <= Size(f) && x < Before(f, k)
    ensures i < k && j < |f.attackers[i]| && x == Before(f, i) + j
  {
    BeforeStep(f, k - 1);
    if x < Before(f, k - 1) {
      i, j := AttackOfIndex(f, k - 1, x);
    } else {
      i, j := k - 1, x - Before(f, k - 1);
    }
  }

  lemma DisjunctionOfAttacks(f: Graph, m: Assignment, c: Clause)
    requires |c| == TotalLength(f.attackers)
    requires forall k | 0 <= k < |c| :: c[k] == 4 * Size(f) + k + 1
    ensures Holds(m, c) <==> SomeAttack(f, m, Size(f))
  {
    assert f.attackers[..Size(f)] == f.attackers;
    if Holds(m, c) {
      var l :| l in c && True(m, l);
      var x :| 0 <= x < |c| && c[x] == l;
      var i, j := AttackOfIndex(f, Size(f), x);
      assert Att(f, m, i, j);
    }
    if SomeAttack(f, m, Size(f)) {
      var i: nat, j: nat :| i < Size(f) && j < |f.attackers[i]| && Att(f, m, i, j);
      BeforeStep(f, i);
      BeforeMonotone(f, i + 1, Size(f));
      assert True(m, c[Before(f, i) + j]);
    }
  }

  // ----- The generators -----

  method AddAdmissible(af: AF, solver: Solver, isAttackedSet: bool)
    requires af.Ready()
    modifies solver`clauses
    ensures var off := if isAttackedSet then 2 * af.args else 0;
            forall m :: Models(m, solver.clauses) <==>
                        Models(m, old(solver.clauses)) && AdmissibleModel(af.Graph(), m, off)
  {
    ghost var f, base := af.Graph(), solver.clauses;
    var off := if isAttackedSet then 2 * af.args else 0;
    for i := 0 to af.args
      invariant forall m :: Models(m, solver.clauses) <==>
                            Models(m, base) && forall k: nat | k < i :: AdmissibleAt(f, m, off, k)
    {
      AddAdmissibleArgument(af, solver, off, i);
    }
  }

  /** The clauses of one argument, with the variables shifted by `off`. */
  method AddAdmissibleArgument(af: AF, solver: Solver, off: nat, i: nat)
    requires af.Ready() && i < af.args
    modifies solver`clauses
    ensures forall m :: Models(m, solver.clauses) <==>
                        Models(m, old(solver.clauses)) && AdmissibleAt(af.Graph(), m, off, i)
  {
    ghost var f, start := af.Graph(), solver.clauses;
    solver.AddClause2(-(off + af.acceptedVar[i]), -(off + af.rejectedVar[i]));
    if af.unattacked[i] {
      solver.AddClause1(off + af.acceptedVar[i]);
      return;
    }
    var outClause: seq<Lit> := [];
    for j := 0 to |af.attackers[i]|
      invariant SaysSomeIn(f, off, i, j, outClause)
      invariant forall m :: Models(m, solver.clauses) <==>
                            && Models(m, start)
                            && !(Acc(m, off, i) && Rej(f, m, off, i))
                            && (Acc(m, off, i) ==> AllRejected(f, m, off, f.attackers[i][..j]))
    {
      NextAttacker(f, off, i, j);
      var a := af.attackers[i][j];
      solver.AddClause2(-(off + af.acceptedVar[i]), off + af.rejectedVar[a]);
      GrowSomeIn(f, off, i, j, outClause);
      outClause := outClause + [off + af.acceptedVar[a]];
    }
    HoldsGrows(outClause, -(off + af.rejectedVar[i]));
    outClause := outClause + [-(off + af.rejectedVar[i])];
    solver.AddClause(outClause);
    assert f.attackers[i][..|f.attackers[i]|] == f.attackers[i];
  }

  /** The clauses of an attacked argument, the same in the default complete and in the
      stable encoding. */
  method AddAttackedArgument(af: AF, solver: Solver, i: nat)
    requires af.Ready() && i < af.args && !af.unattacked[i]
    modifies solver`clauses
    ensures var f := af.Graph();
            forall m :: Models(m, solver.clauses) <==>
                        && Models(m, old(solver.clauses))
                        && (Acc(m, 0, i) <==> AllRejected(f, m, 0, f.attackers[i]))
                        && (Rej(f, m, 0, i) ==> SomeAccepted(m, 0, f.attackers[i]))
  {
    ghost var f, start := af.Graph(), solver.clauses;
    var attackersIn: seq<Lit>, attackersNotOut: seq<Lit> := [], [];
    for j := 0 to |af.attackers[i]|
      invariant SaysSomeIn(f, 0, i, j, attackersIn) && SaysSomeNotOut(f, 0, i, j, attackersNotOut)
      invariant forall m :: Models(m, solver.clauses) <==>
                            && Models(m, start)
                            && (Acc(m, 0, i) ==> AllRejected(f, m, 0, f.attackers[i][..j]))
    {
      NextAttacker(f, 0, i, j);
      var a := af.attackers[i][j];
      GrowSomeIn(f, 0, i, j, attackersIn);
      GrowSomeNotOut(f, 0, i, j, attackersNotOut);
      attackersIn := attackersIn + [af.acceptedVar[a]];
      attackersNotOut := attackersNotOut + [-af.rejectedVar[a]];
      solver.AddClause2(-af.acceptedVar[i], af.rejectedVar[a]);
    }
    FinishLongClauses(f, 0, i, attackersIn, attackersNotOut);
    attackersIn := attackersIn + [-af.rejectedVar[i]];
    solver.AddClause(attackersIn);
    attackersNotOut := attackersNotOut + [af.acceptedVar[i]];
    solver.AddClause(attackersNotOut);
    assert f.attackers[i][..|f.attackers[i]|] == f.attackers[i];
  }

  method AddCompleteArgument(af: AF, solver: Solver, i: nat)
    requires af.Ready() && !af.perfEnc && i < af.args
    modifies solver`clauses
    ensures forall m :: Models(m, solver.clauses) <==>
                        Models(m, old(solver.clauses)) && CompleteAt(af.Graph(), m, i)
  {
    solver.AddClause3(af.acceptedVar[i], af.rejectedVar[i], af.undecidedVar[i]);
    solver.AddClause2(-af.acceptedVar[i], -af.rejectedVar[i]);
    solver.AddClause2(-af.acceptedVar[i], -af.undecidedVar[i]);
    solver.AddClause2(-af.rejectedVar[i], -af.undecidedVar[i]);
    if af.unattacked[i] {
      solver.AddClause1(af.acceptedVar[i]);
    } else {
      AddAttackedArgument(af, solver, i);
    }
  }

  /** The default encoding of complete extensions, with three labels for each argument. */
  method AddCompleteDefault(af: AF, solver: Solver)
    requires af.Ready() && !af.perfEnc
    modifies solver`clauses
    ensures forall m :: Models(m, solver.clauses) <==>
                        Models(m, old(solver.clauses)) && CompleteModel(af.Graph(), false, m)
  {
    ghost var f, base := af.Graph(), solver.clauses;
    for i := 0 to af.args
      invariant forall m :: Models(m, solver.clauses) <==>
                            Models(m, base) && forall k: nat | k < i :: CompleteAt(f, m, k)
    {
      AddCompleteArgument(af, solver, i);
    }
  }

  /** The PERF_ENC encoding: two labels for each argument, and rejection in both directions. */
  method AddCompletePerf(af: AF, solver: Solver)
    requires af.Ready() && af.perfEnc
    modifies solver`clauses
    ensures forall m :: Models(m, solver.clauses) <==>
                        Models(m, old(solver.clauses)) && CompleteModel(af.Graph(), true, m)
  {
    ghost var f, base := af.Graph(), solver.clauses;
    for i := 0 to af.args
      invariant forall m :: Models(m, solver.clauses) <==>
                            Models(m, base) && forall k: nat | k < i :: CompletePerfAt(f, m, k)
    {
      AddCompletePerfArgument(af, solver, i);
    }
  }

  method AddCompletePerfArgument(af: AF, solver: Solver, i: nat)
    requires af.Ready() && i < af.args
    modifies solver`clauses
    ensures forall m :: Models(m, solver.clauses) <==>
                        Models(m, old(solver.clauses)) && CompletePerfAt(af.Graph(), m, i)
  {
    ghost var f := af.Graph();
    solver.AddClause2(-af.acceptedVar[i], -af.rejectedVar[i]);
    if af.unattacked[i] {
      solver.AddClause1(af.acceptedVar[i]);
      return;
    }
    ghost var basic := solver.clauses;
    var attackersIn: seq<Lit>, attackersNotOut: seq<Lit> := [], [];
    for j := 0 to |af.attackers[i]|
      invariant SaysSomeIn(f, 0, i, j, attackersIn) && SaysSomeNotOut(f, 0, i, j, attackersNotOut)
      invariant forall m :: Models(m, solver.clauses) <==>
                            && Models(m, basic)
                            && (Acc(m, 0, i) ==> AllRejected(f, m, 0, f.attackers[i][..j]))
                            && (SomeAccepted(m, 0, f.attackers[i][..j]) ==> Rej(f, m, 0, i))
    {
      NextAttacker(f, 0, i, j);
      var a := af.attackers[i][j];
      solver.AddClause2(-af.acceptedVar[i], af.rejectedVar[a]);
      solver.AddClause2(-af.acceptedVar[a], af.rejectedVar[i]);
      GrowSomeIn(f, 0, i, j, attackersIn);
      GrowSomeNotOut(f, 0, i, j, attackersNotOut);
      attackersIn := attackersIn + [af.acceptedVar[a]];
      attackersNotOut := attackersNotOut + [-af.rejectedVar[a]];
    }
    FinishLongClauses(f, 0, i, attackersIn, attackersNotOut);
    attackersIn := attackersIn + [-af.rejectedVar[i]];
    solver.AddClause(attackersIn);
    attackersNotOut := attackersNotOut + [af.acceptedVar[i]];
    solver.AddClause(attackersNotOut);
    assert f.attackers[i][..|f.attackers[i]|] == f.attackers[i];
  }

  method AddComplete(af: AF, solver: Solver)
    requires af.Ready()
    modifies solver`clauses
    ensures forall m :: Models(m, solver.clauses) <==>
                        Models(m, old(solver.clauses)) && CompleteModel(af.Graph(), af.perfEnc, m)
  {
    if af.perfEnc {
      AddCompletePerf(af, solver);
    } else {
      AddCompleteDefault(af, solver);
    }
  }

  method AddStable(af: AF, solver: Solver)
    requires af.Ready()
    modifies solver`clauses
    ensures forall m :: Models(m, solver.clauses) <==>
                        Models(m, old(solver.clauses)) && StableModel(af.Graph(), m)
  {
    ghost var f, base := af.Graph(), solver.clauses;
    for i := 0 to af.args
      invariant forall m :: Models(m, solver.clauses) <==>
                            Models(m, base) && forall k: nat | k < i :: StableAt(f, m, k)
    {
      ghost var start := solver.clauses;
      solver.AddClause2(-af.acceptedVar[i], -af.rejectedVar[i]);
      solver.AddClause2(af.acceptedVar[i], af.rejectedVar[i]);
      if af.unattacked[i] {
        solver.AddClause1(af.acceptedVar[i]);
        assert forall m :: Models(m, solver.clauses) <==> Models(m, start) && StableAt(f, m, i);
        continue;
      }
      AddAttackedArgument(af, solver, i);
      assert forall m :: Models(m, solver.clauses) <==> Models(m, start) && StableAt(f, m, i);
    }
  }

  /** The clauses of the `j`-th attack on `i`, whose variable is `attackVar`. */
  method AddOneAttack(af: AF, solver: Solver, i: nat, j: nat, attackVar: int)
    requires af.Ready() && i < af.args && j < |af.attackers[i]|
    requires attackVar == 4 * af.args + Before(af.Graph(), i) + j + 1
    modifies solver`clauses
    ensures forall m :: Models(m, solver.clauses) <==>
                        Models(m, old(solver.clauses)) && AttackAt(af.Graph(), m, i, j)
  {
    var offset := 2 * af.args;
    NextAttacker(af.Graph(), 0, i, j);
    var a := af.attackers[i][j];
    solver.AddClause2(-attackVar, af.acceptedVar[a]);
    solver.AddClause2(-attackVar, offset + af.acceptedVar[i]);
    solver.AddClause3(attackVar, -(offset + af.acceptedVar[i]), -af.acceptedVar[a]);
  }

  /** The clauses of all attacks on `i`; their variables go into the buffer. */
  method AddAttacksOn(af: AF, solver: Solver, i: nat, attacksClause: array<Lit>, attackIdx0: nat, attackVar0: int)
      returns (attackIdx: nat, attackVar: int)
    requires af.Ready() && i < af.args && attacksClause.Length == af.attacks
    requires attackIdx0 == Before(af.Graph(), i) && attackVar0 == 4 * af.args + attackIdx0 + 1
    requires forall k | 0 <= k < attackIdx0 && k < af.attacks :: attacksClause[k] == 4 * af.args + k + 1
    modifies solver`clauses, attacksClause
    ensures attackIdx == Before(af.Graph(), i + 1) <= af.attacks && attackVar == 4 * af.args + attackIdx + 1
    ensures forall k | 0 <= k < attackIdx :: attacksClause[k] == 4 * af.args + k + 1
    ensures forall m :: Models(m, solver.clauses) <==>
                        Models(m, old(solver.clauses)) && AttacksOn(af.Graph(), m, i, |af.attackers[i]|)
  {
    hide AttackAt;
    ghost var f := af.Graph();
    attackIdx, attackVar := attackIdx0, attackVar0;
    BeforeStep(f, i);
    BeforeMonotone(f, i + 1, Size(f));
    assert f.attackers[..Size(f)] == f.attackers;
    for j := 0 to |af.attackers[i]|
      invariant attackIdx == Before(f, i) + j
      invariant attackVar == 4 * af.args + attackIdx + 1
      invariant forall k | 0 <= k < attackIdx :: attacksClause[k] == 4 * af.args + k + 1
      invariant forall m :: Models(m, solver.clauses) <==>
                            Models(m, old(solver.clauses)) && AttacksOn(f, m, i, j)
    {
      attacksClause[attackIdx] := attackVar;
      attackIdx := attackIdx + 1;
      AddOneAttack(af, solver, i, j, attackVar);
      attackVar := attackVar + 1;
    }
  }

  /** The clauses that tie the attack variables to the two copies; the closing
      disjunction is written into a buffer of exactly `attacks` cells. */
  method AddAttacks(af: AF, solver: Solver)
    requires af.Ready()
    modifies solver`clauses
    ensures forall m :: Models(m, solver.clauses) <==>
                        Models(m, old(solver.clauses)) && AttacksModel(af.Graph(), m)
  {
    ghost var f, base := af.Graph(), solver.clauses;
    var offset := 2 * af.args;
    var attacksClause := new Lit[af.attacks](_ => 1);
    var attackIdx := 0;
    var attackVar := offset + 2 * af.args + 1;
    for i := 0 to af.args
      invariant attackIdx == Before(f, i) <= af.attacks
      invariant attackVar == 4 * af.args + attackIdx + 1
      invariant forall k | 0 <= k < attackIdx :: attacksClause[k] == 4 * af.args + k + 1
      invariant forall m :: Models(m, solver.clauses) <==>
                            && Models(m, base)
                            && forall k: nat | k < i :: AttacksOn(f, m, k, |f.attackers[k]|)
    {
      attackIdx, attackVar := AddAttacksOn(af, solver, i, attacksClause, attackIdx, attackVar);
    }
    assert f.attackers[..Size(f)] == f.attackers;
    solver.AddClause(attacksClause[..]);
    forall m ensures Holds(m, attacksClause[..]) <==> SomeAttack(f, m, Size(f)) {
      DisjunctionOfAttacks(f, m, attacksClause[..]);
    }
  }
}
