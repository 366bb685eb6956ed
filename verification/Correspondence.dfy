/** The assignments the encodings describe, and the sets of arguments they stand for. */
module Correspondence {
  import opened Sat
  import opened SatSolver
  import opened Frameworks
  import opened Encodings

  /** Arguments accepted in the block starting after `off`. */
  function InAt(f: Graph, m: Assignment, off: nat): (s: set<nat>) {
    set i: nat | i < Size(f) && Acc(m, off, i)
  }

  lemma InIsInAt(f: Graph, m: Assignment)
    ensures In(m, Size(f)) == InAt(f, m, 0)
  {
    forall i: nat ensures Chosen(m, i) <==> Acc(m, 0, i) {}
  }

  /** Accept `S` and reject `O`, in the block starting after `off`. */
  function Label(f: Graph, off: nat, S: set<nat>, O: set<nat>): Assignment {
    (set i | i in S :: off + i + 1) + (set i | i in O :: off + Size(f) + i + 1)
  }

  lemma LabelReads(f: Graph, off: nat, S: set<nat>, O: set<nat>)
    requires S <= Args(f) && O <= Args(f)
    ensures forall i: nat | i < Size(f) :: Acc(Label(f, off, S, O), off, i) <==> i in S
    ensures forall i: nat | i < Size(f) :: Rej(f, Label(f, off, S, O), off, i) <==> i in O
    ensures forall v | v in Label(f, off, S, O) :: off < v <= off + 2 * Size(f)
  {}

  /** The arguments attacked by `S`, and the arguments that attack `S`. */
  ghost function Range(f: Graph, S: set<nat>): set<nat> {
    set i | i in Args(f) && Hits(f, S, i)
  }

  function AttackersOf(f: Graph, S: set<nat>): set<nat> {
    set i | i in S && i < Size(f), a | a in f.attackers[i] :: a
  }

  // ----- Admissible -----

  lemma AdmissibleModelIsGrounding(f: Graph, m: Assignment, off: nat)
    requires AdmissibleModel(f, m, off)
    ensures Grounding(f, InAt(f, m, off))
  {
    var S := InAt(f, m, off);
    forall a, b | a in S && b in S ensures !Attacks(f, a, b) {
      assert AdmissibleAt(f, m, off, a) && AdmissibleAt(f, m, off, b);
    }
    forall a | a in S ensures Defends(f, S, a) {
      forall b: nat | Attacks(f, b, a) ensures Hits(f, S, b) {
        AttackerIsArgument(f, b, a);
        assert AdmissibleAt(f, m, off, a) && AdmissibleAt(f, m, off, b);
        assert Rej(f, m, off, b);
        var c :| c in f.attackers[b] && Acc(m, off, c);
        AttackerIsArgument(f, c, b);
        assert c in S && Attacks(f, c, b);
      }
    }
    forall a | a in Unattacked(f) ensures a in S {
      assert AdmissibleAt(f, m, off, a);
    }
  }

  lemma GroundingIsAdmissibleModel(f: Graph, S: set<nat>, off: nat, m: Assignment)
    requires Grounding(f, S)
    requires forall i: nat | i < Size(f) :: Acc(m, off, i) <==> i in S
    requires forall i: nat | i < Size(f) :: Rej(f, m, off, i) <==> i in Range(f, S)
    ensures AdmissibleModel(f, m, off)
  {
    forall i: nat | i < Size(f) ensures AdmissibleAt(f, m, off, i) {
      if i in S {
        assert !Hits(f, S, i);
        forall b | b in f.attackers[i] ensures Rej(f, m, off, b) {
          AttackerIsArgument(f, b, i);
          assert Defends(f, S, i) && Attacks(f, b, i);
        }
      }
      if Rej(f, m, off, i) {
        var c :| c in S && Attacks(f, c, i);
        assert Acc(m, off, c);
      }
    }
  }

  /** In either copy, the accepted sets of the models of `admissible` are exactly the
      admissible sets that hold every unattacked argument. */
  lemma AdmissibleModelsAre(f: Graph, S: set<nat>, off: nat)
    ensures (exists m :: AdmissibleModel(f, m, off) && InAt(f, m, off) == S) <==> Grounding(f, S)
  {
    if m :| AdmissibleModel(f, m, off) && InAt(f, m, off) == S {
      AdmissibleModelIsGrounding(f, m, off);
    }
    if Grounding(f, S) {
      var m := Label(f, off, S, Range(f, S));
      LabelReads(f, off, S, Range(f, S));
      GroundingIsAdmissibleModel(f, S, off, m);
      assert InAt(f, m, off) == S;
    }
  }

  // ----- Two admissible sets, the first attacking the second -----

  ghost predicate PairModel(f: Graph, m: Assignment) {
    AdmissibleModel(f, m, 0) && AdmissibleModel(f, m, 2 * Size(f)) && AttacksModel(f, m)
  }

  ghost predicate AttackingPair(f: Graph, E: set<nat>, S: set<nat>) {
    Grounding(f, E) && Grounding(f, S) && HitsSet(f, E, S)
  }

  lemma PairModelAttacks(f: Graph, m: Assignment)
    requires PairModel(f, m)
    ensures AttackingPair(f, InAt(f, m, 0), InAt(f, m, 2 * Size(f)))
  {
    AdmissibleModelIsGrounding(f, m, 0);
    AdmissibleModelIsGrounding(f, m, 2 * Size(f));
    var i: nat, j: nat :| i < Size(f) && j < |f.attackers[i]| && Att(f, m, i, j);
    assert AttacksOn(f, m, i, |f.attackers[i]|) && AttackAt(f, m, i, j);
    var a := f.attackers[i][j];
    assert Attacks(f, a, i);
    AttackerIsArgument(f, a, i);
    assert a in InAt(f, m, 0) && i in InAt(f, m, 2 * Size(f));
  }

  /** The attack variables that hold for the pair `E`, `S`. */
  ghost function AttackLabel(f: Graph, E: set<nat>, S: set<nat>): (r: Assignment)
  {
    set i, j | i in S && i < Size(f) && 0 <= j < |f.attackers[i]| && f.attackers[i][j] in E
      :: 4 * Size(f) + Before(f, i) + j + 1
  }

  lemma AttackIndexUnique(f: Graph, i: nat, j: nat, i': nat, j': nat)
    requires i < Size(f) && j < |f.attackers[i]| && i' < Size(f) && j' < |f.attackers[i']|
    requires Before(f, i) + j == Before(f, i') + j'
    ensures i == i' && j == j'
  {
    BeforeStep(f, i);
    BeforeStep(f, i');
    if i < i' {
      BeforeMonotone(f, i + 1, i');
    } else if i' < i {
      BeforeMonotone(f, i' + 1, i);
    }
  }

  lemma AttackLabelReads(f: Graph, E: set<nat>, S: set<nat>)
    ensures forall v | v in AttackLabel(f, E, S) :: 4 * Size(f) < v
    ensures forall i: nat, j: nat | i < Size(f) && j < |f.attackers[i]| ::
              Att(f, AttackLabel(f, E, S), i, j) <==> f.attackers[i][j] in E && i in S
  {
    forall i: nat, j: nat | i < Size(f) && j < |f.attackers[i]|
      ensures Att(f, AttackLabel(f, E, S), i, j) <==> f.attackers[i][j] in E && i in S
    {
      if Att(f, AttackLabel(f, E, S), i, j) {
        var i', j' :| i' in S && i' < Size(f) && 0 <= j' < |f.attackers[i']| && f.attackers[i'][j'] in E
                      && 4 * Size(f) + Before(f, i) + j + 1 == 4 * Size(f) + Before(f, i') + j' + 1;
        AttackIndexUnique(f, i, j, i', j');
      }
    }
  }

  /** Accepted, rejected and attack variables for the pair `E`, `S`. */
  ghost function PairLabel(f: Graph, E: set<nat>, S: set<nat>): Assignment {
    Label(f, 0, E, Range(f, E)) + Label(f, 2 * Size(f), S, Range(f, S)) + AttackLabel(f, E, S)
  }

  /** The three blocks of variables do not meet. */
  lemma PairLabelReads(f: Graph, E: set<nat>, S: set<nat>)
    requires E <= Args(f) && S <= Args(f)
    ensures var m, n := PairLabel(f, E, S), Size(f);
            && (forall i: nat | i < n :: Acc(m, 0, i) <==> i in E)
            && (forall i: nat | i < n :: Rej(f, m, 0, i) <==> i in Range(f, E))
            && (forall i: nat | i < n :: Acc(m, 2 * n, i) <==> i in S)
            && (forall i: nat | i < n :: Rej(f, m, 2 * n, i) <==> i in Range(f, S))
            && (forall i: nat, j: nat | i < n && j < |f.attackers[i]| ::
                  Att(f, m, i, j) <==> f.attackers[i][j] in E && i in S)
  {
    var n := Size(f);
    var m1, m2, m3 := Label(f, 0, E, Range(f, E)), Label(f, 2 * n, S, Range(f, S)), AttackLabel(f, E, S);
    var m := PairLabel(f, E, S);
    LabelReads(f, 0, E, Range(f, E));
    LabelReads(f, 2 * n, S, Range(f, S));
    AttackLabelReads(f, E, S);
    forall i: nat | i < n
      ensures Acc(m, 0, i) <==> Acc(m1, 0, i)
      ensures Rej(f, m, 0, i) <==> Rej(f, m1, 0, i)
      ensures Acc(m, 2 * n, i) <==> Acc(m2, 2 * n, i)
      ensures Rej(f, m, 2 * n, i) <==> Rej(f, m2, 2 * n, i)
    {}
    forall i: nat, j: nat | i < n && j < |f.attackers[i]| ensures Att(f, m, i, j) <==> Att(f, m3, i, j) {}
  }

  lemma HittingPairIsAttacksModel(f: Graph, E: set<nat>, S: set<nat>, m: Assignment)
    requires forall i: nat | i < Size(f) :: Acc(m, 0, i) <==> i in E
    requires forall i: nat | i < Size(f) :: Acc(m, 2 * Size(f), i) <==> i in S
    requires forall i: nat, j: nat | i < Size(f) && j < |f.attackers[i]| ::
               Att(f, m, i, j) <==> f.attackers[i][j] in E && i in S
    requires HitsSet(f, E, S)
    ensures AttacksModel(f, m)
  {
    forall i: nat, j: nat | i < Size(f) && j < |f.attackers[i]| ensures AttackAt(f, m, i, j) {
      NextAttacker(f, 0, i, j);
    }
    var b :| b in S && Hits(f, E, b);
    var a :| a in E && Attacks(f, a, b);
    var j :| 0 <= j < |f.attackers[b]| && f.attackers[b][j] == a;
    assert Att(f, m, b, j);
  }

  lemma AttackingPairHasModel(f: Graph, E: set<nat>, S: set<nat>) returns (m: Assignment)
    requires AttackingPair(f, E, S)
    ensures PairModel(f, m) && InAt(f, m, 0) == E && InAt(f, m, 2 * Size(f)) == S
  {
    m := PairLabel(f, E, S);
    PairLabelReads(f, E, S);
    GroundingIsAdmissibleModel(f, E, 0, m);
    GroundingIsAdmissibleModel(f, S, 2 * Size(f), m);
    HittingPairIsAttacksModel(f, E, S, m);
    assert InAt(f, m, 0) == E;
  }

  /** The models of the two admissible copies together with the attack clauses project onto
      exactly the pairs of such sets of which the first attacks the second. */
  lemma PairModelsAre(f: Graph, E: set<nat>, S: set<nat>)
    ensures (exists m :: PairModel(f, m) && InAt(f, m, 0) == E && InAt(f, m, 2 * Size(f)) == S)
            <==> AttackingPair(f, E, S)
  {
    if m :| PairModel(f, m) && InAt(f, m, 0) == E && InAt(f, m, 2 * Size(f)) == S {
      PairModelAttacks(f, m);
    }
    if AttackingPair(f, E, S) {
      var m := AttackingPairHasModel(f, E, S);
    }
  }

  // ----- Complete -----

  /** `S` is the accepted set of a model of `complete`. */
  ghost predicate InSet(f: Graph, perf: bool, S: set<nat>) {
    exists m :: CompleteModel(f, perf, m) && In(m, Size(f)) == S
  }

  /** `S` takes in every argument whose attackers all attack `S`. */
  ghost predicate ClosedUnderAnswered(f: Graph, S: set<nat>) {
    forall i | i in Args(f) && (forall a | a in f.attackers[i] :: a in AttackersOf(f, S)) :: i in S
  }

  lemma CompleteModelIsGrounding(f: Graph, perf: bool, m: Assignment)
    requires CompleteModel(f, perf, m)
    ensures Grounding(f, In(m, Size(f)))
  {
    forall i: nat | i < Size(f) ensures AdmissibleAt(f, m, 0, i) {
      assert if perf then CompletePerfAt(f, m, i) else CompleteAt(f, m, i);
    }
    AdmissibleModelIsGrounding(f, m, 0);
    InIsInAt(f, m);
  }

  lemma InSetIsGrounding(f: Graph, perf: bool, S: set<nat>)
    requires InSet(f, perf, S)
    ensures Grounding(f, S)
  {
    var m :| CompleteModel(f, perf, m) && In(m, Size(f)) == S;
    CompleteModelIsGrounding(f, perf, m);
  }

  /** With PERF_ENC the rejected arguments are exactly those the accepted ones attack, so a
      model is one complete labelling. */
  lemma PerfModelIsComplete(f: Graph, m: Assignment)
    requires CompleteModel(f, true, m)
    ensures Complete(f, In(m, Size(f)))
    ensures forall i | i in Args(f) :: Rej(f, m, 0, i) <==> Hits(f, In(m, Size(f)), i)
  {
    var S := In(m, Size(f));
    CompleteModelIsGrounding(f, true, m);
    InIsInAt(f, m);
    forall i | i in Args(f) ensures Rej(f, m, 0, i) <==> Hits(f, S, i) {
      assert CompletePerfAt(f, m, i);
      if Rej(f, m, 0, i) {
        assert f.attackers[i] != [];
        var c :| c in f.attackers[i] && Acc(m, 0, c);
        AttackerIsArgument(f, c, i);
        assert c in S && Attacks(f, c, i);
      }
      if Hits(f, S, i) {
        var c :| c in S && Attacks(f, c, i);
        assert Acc(m, 0, c);
      }
    }
    forall i | i in Args(f) && Defends(f, S, i) ensures i in S {
      assert CompletePerfAt(f, m, i);
      forall b | b in f.attackers[i] ensures Rej(f, m, 0, b) {
        AttackerIsArgument(f, b, i);
      }
    }
  }

  lemma CompleteIsPerfModel(f: Graph, S: set<nat>)
    requires Complete(f, S)
    ensures InSet(f, true, S)
  {
    var m := Label(f, 0, S, Range(f, S));
    LabelReads(f, 0, S, Range(f, S));
    CompleteIsGrounding(f, S);
    GroundingIsAdmissibleModel(f, S, 0, m);
    forall i: nat | i < Size(f) ensures CompletePerfAt(f, m, i) {
      assert AdmissibleAt(f, m, 0, i);
      if AllRejected(f, m, 0, f.attackers[i]) {
        forall b: nat | Attacks(f, b, i) ensures Hits(f, S, b) {
          AttackerIsArgument(f, b, i);
          assert Rej(f, m, 0, b);
        }
        assert Defends(f, S, i);
      }
      if SomeAccepted(m, 0, f.attackers[i]) {
        var c :| c in f.attackers[i] && Acc(m, 0, c);
        AttackerIsArgument(f, c, i);
        assert Attacks(f, c, i);
      }
    }
    InIsInAt(f, m);
    assert In(m, Size(f)) == S;
  }

  /** With PERF_ENC the accepted sets are exactly the complete extensions. */
  lemma PerfInSetsAre(f: Graph, S: set<nat>)
    ensures InSet(f, true, S) <==> Complete(f, S)
  {
    if InSet(f, true, S) {
      var m :| CompleteModel(f, true, m) && In(m, Size(f)) == S;
      PerfModelIsComplete(f, m);
    }
    if Complete(f, S) {
      CompleteIsPerfModel(f, S);
    }
  }

  /** The default encoding does not say that an attacked argument is out.  Its accepted sets
      are exactly the admissible sets that take in every unattacked argument and every
      argument whose attackers all attack the set. */
  lemma DefaultInSetsAre(f: Graph, S: set<nat>)
    ensures InSet(f, false, S) <==> Admissible(f, S) && ClosedUnderAnswered(f, S)
  {
    if InSet(f, false, S) {
      InSetIsGrounding(f, false, S);
      var m :| CompleteModel(f, false, m) && In(m, Size(f)) == S;
      InIsInAt(f, m);
      forall i | i in Args(f) && forall a | a in f.attackers[i] :: a in AttackersOf(f, S) ensures i in S {
        assert CompleteAt(f, m, i);
        forall a | a in f.attackers[i] ensures Rej(f, m, 0, a) {
          var k :| k in S && k < Size(f) && a in f.attackers[k];
          assert CompleteAt(f, m, k);
        }
      }
    }
    if Admissible(f, S) && ClosedUnderAnswered(f, S) {
      ClosedHasModel(f, S);
    }
  }

  lemma AttackersAreAnswered(f: Graph, S: set<nat>)
    requires Admissible(f, S)
    ensures forall a | a in AttackersOf(f, S) :: a in Args(f) && a !in S && Hits(f, S, a)
  {
    forall a | a in AttackersOf(f, S) ensures a in Args(f) && a !in S && Hits(f, S, a) {
      var k :| k in S && k < Size(f) && a in f.attackers[k];
      assert Attacks(f, a, k) && Defends(f, S, k);
      AttackerIsArgument(f, a, k);
    }
  }

  /** Accept `S`, reject the attackers of `S`, leave the rest undecided. */
  function DefaultLabel(f: Graph, S: set<nat>): Assignment {
    var O := AttackersOf(f, S);
    Label(f, 0, S, O) + set i | i in Args(f) && i !in S && i !in O :: 2 * Size(f) + i + 1
  }

  lemma DefaultLabelReads(f: Graph, S: set<nat>)
    requires S <= Args(f) && AttackersOf(f, S) <= Args(f)
    ensures var m, O := DefaultLabel(f, S), AttackersOf(f, S);
            && (forall i: nat | i < Size(f) :: Acc(m, 0, i) <==> i in S)
            && (forall i: nat | i < Size(f) :: Rej(f, m, 0, i) <==> i in O)
            && (forall i: nat | i < Size(f) :: Und(f, m, i) <==> i !in S && i !in O)
  {
    var n, O := Size(f), AttackersOf(f, S);
    var m0 := Label(f, 0, S, O);
    var rest := set i | i in Args(f) && i !in S && i !in O :: 2 * n + i + 1;
    var m := DefaultLabel(f, S);
    assert m == m0 + rest;
    LabelReads(f, 0, S, O);
    forall i: nat | i < n
      ensures Acc(m, 0, i) <==> Acc(m0, 0, i)
      ensures Rej(f, m, 0, i) <==> Rej(f, m0, 0, i)
      ensures Und(f, m, i) <==> i !in S && i !in O
    {
      if i !in S && i !in O {
        assert 2 * n + i + 1 in rest;
      }
    }
  }

  lemma ClosedHasModel(f: Graph, S: set<nat>)
    requires Admissible(f, S) && ClosedUnderAnswered(f, S)
    ensures InSet(f, false, S)
  {
    var m := DefaultLabel(f, S);
    AttackersAreAnswered(f, S);
    DefaultLabelReads(f, S);
    forall i: nat | i < Size(f) ensures CompleteAt(f, m, i) {
      forall a | a in f.attackers[i] ensures Rej(f, m, 0, a) <==> a in AttackersOf(f, S) {
        AttackerIsArgument(f, a, i);
      }
      if i in AttackersOf(f, S) {
        var c :| c in S && Attacks(f, c, i);
        assert Acc(m, 0, c);
      }
    }
    InIsInAt(f, m);
    assert In(m, Size(f)) == S;
  }

  /** Attack chain a -> b -> c: the default encoding accepts {a} alone, which is not complete. */
  lemma DefaultIsWeakerThanComplete()
    ensures exists f: Graph, S :: InSet(f, false, S) && !Complete(f, S)
  {
    var f: Graph := Framework([[], [0], [1]]);
    var S := {0};
    assert Size(f) == 3;
    assert f.attackers[0] == [] && f.attackers[1] == [0] && f.attackers[2] == [1];
    assert AttackersOf(f, S) == {};
    assert 0 in f.attackers[1] && 1 in f.attackers[2];
    assert ClosedUnderAnswered(f, S);
    DefaultInSetsAre(f, S);
    assert Attacks(f, 0, 1);
    assert Defends(f, S, 2);
    assert 2 in Args(f);
    assert !Complete(f, S);
  }

  lemma CompleteIsInSet(f: Graph, perf: bool, S: set<nat>)
    requires Complete(f, S)
    ensures InSet(f, perf, S)
  {
    if perf {
      PerfInSetsAre(f, S);
    } else {
      forall i | i in Args(f) && forall a | a in f.attackers[i] :: a in AttackersOf(f, S) ensures i in S {
        forall b: nat | Attacks(f, b, i) ensures Hits(f, S, b) {
          var k :| k in S && k < Size(f) && b in f.attackers[k];
          assert Defends(f, S, k) && Attacks(f, b, k);
        }
        assert Defends(f, S, i);
      }
      DefaultInSetsAre(f, S);
    }
  }

  lemma PreferredIsInSet(f: Graph, perf: bool, P: set<nat>)
    requires Preferred(f, P)
    ensures InSet(f, perf, P)
  {
    PreferredIsComplete(f, P);
    CompleteIsInSet(f, perf, P);
  }

  ghost predicate MaximalInSet(f: Graph, perf: bool, S: set<nat>) {
    InSet(f, perf, S) && forall T | InSet(f, perf, T) && S <= T :: T == S
  }

  /** In both variants the largest accepted sets are exactly the preferred extensions. */
  lemma MaximalInSetsArePreferred(f: Graph, perf: bool, S: set<nat>)
    ensures MaximalInSet(f, perf, S) <==> Preferred(f, S)
  {
    if MaximalInSet(f, perf, S) {
      InSetIsGrounding(f, perf, S);
      var P := ExtendToPreferred(f, S);
      PreferredIsInSet(f, perf, P);
    }
    if Preferred(f, S) {
      PreferredIsInSet(f, perf, S);
      forall T | InSet(f, perf, T) && S <= T ensures T == S {
        InSetIsGrounding(f, perf, T);
      }
    }
  }

  // ----- Credulous acceptance -----

  ghost predicate CredulouslyComplete(f: Graph, a: nat) {
    exists S :: Complete(f, S) && a in S
  }

  ghost predicate CredulouslyPreferred(f: Graph, a: nat) {
    exists S :: Preferred(f, S) && a in S
  }

  /** Complete semantics, preferred semantics and either encoding agree on what is
      credulously accepted. */
  lemma CredulousAgree(f: Graph, perf: bool, a: nat)
    ensures CredulouslyComplete(f, a) <==> CredulouslyPreferred(f, a)
    ensures CredulouslyComplete(f, a) <==> exists S :: InSet(f, perf, S) && a in S
  {
    if S :| Complete(f, S) && a in S {
      var P := ExtendToPreferred(f, S);
      CompleteIsInSet(f, perf, S);
    }
    if S :| Preferred(f, S) && a in S {
      PreferredIsComplete(f, S);
    }
    if S :| InSet(f, perf, S) && a in S {
      InSetIsGrounding(f, perf, S);
      var P := ExtendToPreferred(f, S);
      PreferredIsComplete(f, P);
    }
  }

  // ----- Stable -----

  lemma StableModelIsStable(f: Graph, m: Assignment)
    requires StableModel(f, m)
    ensures Stable(f, In(m, Size(f)))
    ensures forall i | i in Args(f) :: Rej(f, m, 0, i) <==> i !in In(m, Size(f))
  {
    var S := In(m, Size(f));
    InIsInAt(f, m);
    forall i: nat | i < Size(f) ensures AdmissibleAt(f, m, 0, i) {
      assert StableAt(f, m, i);
    }
    AdmissibleModelIsGrounding(f, m, 0);
    forall a | a in Args(f) ensures Rej(f, m, 0, a) <==> a !in S {
      assert StableAt(f, m, a);
    }
    forall a | a in Args(f) && a !in S ensures Hits(f, S, a) {
      assert StableAt(f, m, a);
      assert f.attackers[a] != [];
      var c :| c in f.attackers[a] && Acc(m, 0, c);
      AttackerIsArgument(f, c, a);
      assert Attacks(f, c, a);
    }
  }

  lemma StableHasModel(f: Graph, S: set<nat>) returns (m: Assignment)
    requires Stable(f, S)
    ensures StableModel(f, m) && In(m, Size(f)) == S
  {
    var O := Args(f) - S;
    m := Label(f, 0, S, O);
    LabelReads(f, 0, S, O);
    forall i: nat | i < Size(f) ensures StableAt(f, m, i) {
      assert i in Args(f);
      assert i in S ==> !Hits(f, S, i);
      if i in S {
        forall b | b in f.attackers[i] ensures Rej(f, m, 0, b) {
          AttackerIsArgument(f, b, i);
          assert Attacks(f, b, i);
        }
      } else {
        var c :| c in S && Attacks(f, c, i);
        AttackerIsArgument(f, c, i);
        assert Acc(m, 0, c) && !Rej(f, m, 0, c);
      }
    }
    InIsInAt(f, m);
    assert In(m, Size(f)) == S;
  }

  /** The accepted sets of the models of `stable` are exactly the stable extensions, and a
      model is determined by its accepted set. */
  lemma StableModelsAre(f: Graph, S: set<nat>)
    ensures (exists m :: StableModel(f, m) && In(m, Size(f)) == S) <==> Stable(f, S)
  {
    if m :| StableModel(f, m) && In(m, Size(f)) == S {
      StableModelIsStable(f, m);
    }
    if Stable(f, S) {
      var m := StableHasModel(f, S);
    }
  }
}
