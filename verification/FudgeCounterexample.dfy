/** A framework and oracle answers on which the FUDGE search returns an argument that is
    not skeptically preferred: two merged answers together cover a third extension. */
module FudgeCounterexample {
  import opened Frameworks
  import opened Correspondence
  import opened Search
  import opened FudgeRuns
  import opened FudgeTheorems

  // Arguments a, b, x, y, p, q are numbered 0 to 5.
  // b attacks itself and a; x and y attack b; x and q, and y and p, attack each other.
  const F: Graph := Framework([[1], [1, 2, 3], [5], [4], [3], [2]])

  predicate Pair(a: nat, b: nat) {
    || (a == 1 && b <= 1)
    || (2 <= a <= 3 && b == 1)
    || (2 <= a <= 5 && a + b == 7)
  }

  lemma AttackTable()
    ensures Size(F) == 6 && Unattacked(F) == {}
    ensures forall a, b :: Attacks(F, a, b) <==> Pair(a, b)
  {
    assert F.attackers[0] == [1] && F.attackers[1] == [1, 2, 3] && F.attackers[2] == [5];
    assert F.attackers[3] == [4] && F.attackers[4] == [3] && F.attackers[5] == [2];
  }

  /** The members of `R` are attacked by a named member of `S`, and everything that attacks
      `S` is in `R`. */
  lemma RangeIs(S: set<nat>, R: set<nat>, via: map<nat, nat>)
    requires S <= Args(F) && R !! S
    requires forall a, b | a in S && Pair(a, b) :: b in R
    requires forall b | b in R :: b in via && via[b] in S && Pair(via[b], b)
    requires forall a, b | b in S && Pair(a, b) :: a in R
    ensures Range(F, S) == R && Grounding(F, S)
  {
    AttackTable();
    forall b | b in R ensures Hits(F, S, b) && b in Args(F) {
      assert Attacks(F, via[b], b);
    }
    forall a | a in S ensures Defends(F, S, a) {}
  }

  const XPA: set<nat> := {0, 2, 4}
  const YQA: set<nat> := {0, 3, 5}

  lemma RangeXpa()
    ensures Range(F, XPA) == {1, 3, 5} && Grounding(F, XPA)
  {
    AttackTable();
    RangeIs(XPA, {1, 3, 5}, map[1 := 2, 3 := 4, 5 := 2]);
  }

  lemma RangeYqa()
    ensures Range(F, YQA) == {1, 2, 4} && Grounding(F, YQA)
  {
    AttackTable();
    RangeIs(YQA, {1, 2, 4}, map[1 := 3, 2 := 5, 4 := 3]);
  }

  lemma RangeSingles()
    ensures Range(F, {4}) == {3} && Grounding(F, {4})
    ensures Range(F, {5}) == {2} && Grounding(F, {5})
  {
    AttackTable();
    RangeIs({4}, {3}, map[3 := 4]);
    RangeIs({5}, {2}, map[2 := 5]);
  }

  /** {p, q} is preferred and lacks a. */
  lemma MissedExtension()
    ensures Preferred(F, {4, 5}) && !SkepticallyPreferred(F, 0)
  {
    AttackTable();
    var P: set<nat> := {4, 5};
    RangeIs(P, {2, 3}, map[2 := 5, 3 := 4]);
    forall S | Admissible(F, S) && P <= S ensures S == P {
      assert Attacks(F, 5, 2) && Attacks(F, 4, 3) && Attacks(F, 1, 1);
      assert 1 !in S && 2 !in S && 3 !in S;
      assert 0 !in S by {
        assert Attacks(F, 1, 0) && !Hits(F, S, 1);
        assert !Defends(F, S, 0);
      }
      forall x | x in S ensures x in P {
        assert x in Args(F);
      }
    }
  }

  const S0 := State([], {0, 1, 2, 3, 4, 5}, Outer, 0, [])
  const S1 := State([], XPA, Scan(XPA, [0, 2, 4]), 1, [])
  const S2 := State([], XPA, Inner(XPA, [2, 4], 0, {}, 0), 1, [0])
  const S3 := State([], XPA, Inner(XPA, [2, 4], 0, XPA, 1), 1, [0])
  const S4 := State([], {0}, Inner(XPA, [2, 4], 0, XPA + YQA, 2), 1, [0])
  const S5 := State([0], {}, Scan(XPA, [2, 4]), 1, [0])
  const S6 := State([0], {}, Scan(XPA, [4]), 1, [0])
  const S7 := State([0], {}, Scan(XPA, []), 1, [0])
  const S8 := State([0], {}, Outer, 1, [0])
  const S9 := State([0], {}, Done, 1, [0])

  lemma FirstSteps()
    ensures S0 == Init(F) && Step(F, S0, S1) && Step(F, S1, S2)
  {
    AttackTable();
    RangeXpa();
    assert Args(F) == {0, 1, 2, 3, 4, 5};
    assert S1.C == S0.C - Range(F, XPA);
    assert 0 in XPA * S0.C;
    assert Elements([0, 2, 4]) == XPA;
    assert StartStep(F, S0, S1);
    assert [0, 2, 4][1..] == [2, 4];
    assert S1.tried + [0] == [0];
    assert ScanStep(F, S1, S2);
  }

  lemma ChallengeFrom(f: Graph, S: set<nat>, E': set<nat>, V: set<nat>, a: nat, c: nat, b: nat)
    requires Grounding(f, E') && Grounding(f, V) && a in V
    requires c in E' && c !in S && b in V && Attacks(f, c, b)
    ensures Challenges(f, {}, a, S, E')
  {
    assert Hits(f, E', b);
    assert AttackingPair(f, E', V);
  }

  lemma MergeFrom(f: Graph, s: State, s': State, E': set<nat>, E'': set<nat>)
    requires s.T == [] && s.phase.Inner?
    requires Challenges(f, {}, s.phase.a, s.phase.S, E')
    requires Grounding(f, E'') && E' <= E'' && s.phase.a in E''
    requires s' == s.(C := s.C - Range(f, E') - Range(f, E''),
                      phase := s.phase.(S := s.phase.S + E'', rounds := s.phase.rounds + 1))
    ensures Step(f, s, s')
  {
    assert Elements(s.T) == {};
    assert Answers(f, {}, s.phase.a, E', E'');
    assert MergeWith(f, s, s', E', E'');
  }

  /** Two merges: E' = P1 answered by X, then E' = P2 answered by Y. */
  lemma TwoMerges(f: Graph, X: set<nat>, Y: set<nat>, P1: set<nat>, P2: set<nat>, s2: State, s3: State, s4: State)
    requires Grounding(f, X) && Grounding(f, Y) && Grounding(f, P1) && Grounding(f, P2)
    requires P1 <= X && P2 <= Y
    requires s2.T == [] && s2.phase.Inner? && s2.phase.a in X && s2.phase.a in Y && s2.phase.S == {}
    requires exists c, b :: c in P1 && b in Y && Attacks(f, c, b)
    requires exists c, b :: c in P2 && c !in X && b in X && Attacks(f, c, b)
    requires s3 == s2.(C := s2.C - Range(f, P1) - Range(f, X),
                       phase := s2.phase.(S := X, rounds := s2.phase.rounds + 1))
    requires s4 == s3.(C := s3.C - Range(f, P2) - Range(f, Y),
                       phase := s3.phase.(S := X + Y, rounds := s3.phase.rounds + 1))
    ensures Step(f, s2, s3) && Step(f, s3, s4)
  {
    var c, b :| c in P1 && b in Y && Attacks(f, c, b);
    ChallengeFrom(f, {}, P1, Y, s2.phase.a, c, b);
    assert {} + X == X;
    MergeFrom(f, s2, s3, P1, X);
    c, b :| c in P2 && c !in X && b in X && Attacks(f, c, b);
    ChallengeFrom(f, X, P2, X, s2.phase.a, c, b);
    MergeFrom(f, s3, s4, P2, Y);
  }

  lemma MergeSteps()
    ensures Step(F, S2, S3) && Step(F, S3, S4)
  {
    AttackTable();
    RangeXpa();
    RangeYqa();
    RangeSingles();
    assert 4 in {4} && 3 in YQA && Attacks(F, 4, 3);
    assert 5 in {5} && 2 in XPA && Attacks(F, 5, 2);
    assert XPA - {3} - {1, 3, 5} == XPA;
    assert XPA - {2} - {1, 2, 4} == {0};
    TwoMerges(F, XPA, YQA, {4}, {5}, S2, S3, S4);
  }

  lemma LastSteps()
    ensures Step(F, S4, S5) && Step(F, S5, S6) && Step(F, S6, S7) && Step(F, S7, S8) && Step(F, S8, S9)
    ensures AcceptStep(F, S4, S5)
  {
    AttackTable();
    forall E' ensures !Challenges(F, {}, 0, XPA + YQA, E') {
      if Grounding(F, E') {
        assert Attacks(F, 1, 1) && 1 !in E';
        assert E' <= XPA + YQA;
      }
    }
    assert Elements(S4.T) == {};
    assert S5.T == S4.T + [0] && S5.C == S4.C - {0};
    assert AcceptStep(F, S4, S5);
    assert [2, 4][1..] == [4] && [4][1..] == [];
    assert ScanStep(F, S5, S6) && ScanStep(F, S6, S7) && ScanStep(F, S7, S8) && StopStep(F, S8, S9);
  }

  const RUN: seq<State> := [S0, S1, S2, S3, S4] + [S5, S6, S7, S8, S9]

  lemma RunJoins(f: Graph, run: seq<State>, rest: seq<State>)
    requires IsRun(f, run) && |rest| > 0 && Step(f, run[|run| - 1], rest[0])
    requires forall k: nat | k + 1 < |rest| :: StepAt(f, rest, k)
    ensures IsRun(f, run + rest)
  {
    hide Step, Init;
    var longer := run + rest;
    forall k: nat | k + 1 < |longer| ensures StepAt(f, longer, k) {
      if k + 1 < |run| {
        assert StepAt(f, run, k);
      } else if k + 1 > |run| {
        assert StepAt(f, rest, k - |run|);
      }
    }
  }

  lemma RunOf(f: Graph, s0: State, s1: State, s2: State, s3: State, s4: State,
              s5: State, s6: State, s7: State, s8: State, s9: State)
    requires s0 == Init(f) && Step(f, s0, s1) && Step(f, s1, s2) && Step(f, s2, s3) && Step(f, s3, s4)
    requires Step(f, s4, s5) && Step(f, s5, s6) && Step(f, s6, s7) && Step(f, s7, s8) && Step(f, s8, s9)
    ensures IsRun(f, [s0, s1, s2, s3, s4] + [s5, s6, s7, s8, s9])
  {
    hide Step, Init;
    var first, rest := [s0, s1, s2, s3, s4], [s5, s6, s7, s8, s9];
    forall k: nat | k + 1 < 5 ensures StepAt(f, first, k) && StepAt(f, rest, k) {}
    RunJoins(f, first, rest);
  }

  lemma TheRun()
    ensures IsRun(F, RUN)
  {
    hide Step;
    FirstSteps();
    MergeSteps();
    LastSteps();
    RunOf(F, S0, S1, S2, S3, S4, S5, S6, S7, S8, S9);
  }

  /** Unconditional exactness fails: there is a finished run that returns a, which is missing
      from a preferred extension. */
  lemma UnsoundRunExists()
    ensures exists f: Graph, run: seq<State> :: IsRun(f, run) && run[|run| - 1].phase.Done?
                                             && Elements(run[|run| - 1].T) != Skep(f)
  {
    TheRun();
    MissedExtension();
    SkepIs(F, 0);
    var result := Elements(S9.T);
    assert 0 in S9.T && 0 in result;
    assert RUN[|RUN| - 1] == S9;
  }
}
