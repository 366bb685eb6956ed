/** What holds of every run of the FUDGE search: no right answer is dropped while all answers
    so far are right, exactly which acceptances are right, and how many queries are asked. */
module FudgeTheorems {
  import opened Frameworks
  import opened Correspondence
  import opened Search
  import opened Sat
  import opened FudgeRuns

  ghost function Skep(f: Graph): set<nat> {
    SkepticalSet(f, PR)
  }

  lemma SkepIs(f: Graph, a: nat)
    ensures a in Skep(f) <==> a in Args(f) && SkepticallyPreferred(f, a)
  {
    assert forall S :: Extension(f, PR, S) <==> Preferred(f, S);
  }

  // ----- Nothing right is dropped -----

  /** What an admissible set attacks is not skeptically accepted. */
  lemma AttackedAreNotSkeptical(f: Graph, E: set<nat>)
    requires Admissible(f, E)
    ensures Range(f, E) !! Skep(f)
  {
    forall x | x in Range(f, E) ensures x !in Skep(f) {
      var P := ExtendToPreferred(f, E);
      var c :| c in E && Attacks(f, c, x);
      assert x !in P;
      SkepIs(f, x);
    }
  }

  /** When E' has no admissible extension with T and `a`, one of them is not skeptical. */
  lemma UnansweredIsNotSkeptical(f: Graph, T: set<nat>, a: nat, E': set<nat>)
    requires Admissible(f, E') && forall E'' :: !Answers(f, T, a, E', E'')
    ensures !(T + {a} <= Skep(f))
  {
    var P := ExtendToPreferred(f, E');
    PreferredIsGrounding(f, P);
    assert !Answers(f, T, a, E', P);
    if T + {a} <= Skep(f) {
      forall x | x in T + {a} ensures x in P {
        SkepIs(f, x);
      }
    }
  }

  /** While every accepted argument is right, all right answers are accepted or candidates;
      at the end they are all accepted. */
  ghost predicate NoneLost(f: Graph, s: State) {
    Elements(s.T) <= Skep(f) ==>
      && Skep(f) <= Elements(s.T) + s.C
      && (s.phase.Done? ==> Skep(f) <= Elements(s.T))
  }

  lemma StopLosesNone(f: Graph, s: State, s': State)
    requires NoneLost(f, s) && StopStep(f, s, s')
    ensures NoneLost(f, s')
  {
    var T := Elements(s.T);
    if T <= Skep(f) {
      EmptyAdmissible(f);
      var P := ExtendToPreferred(f, {});
      PreferredIsGrounding(f, P);
      forall x | x in Skep(f) ensures x in P {
        SkepIs(f, x);
      }
      if s.C != {} {
        assert !MeetsCandidates(f, T, s.C, P);
      }
      forall x | x in Skep(f) ensures x in T {
        assert x in s.C ==> x in P * s.C;
      }
    }
  }

  lemma RejectLosesNone(f: Graph, s: State, s': State, E': set<nat>)
    requires NoneLost(f, s) && RejectWith(f, s, s', E')
    ensures NoneLost(f, s')
  {
    AttackedAreNotSkeptical(f, E');
    UnansweredIsNotSkeptical(f, Elements(s.T), s.phase.a, E');
  }

  lemma MergeLosesNone(f: Graph, s: State, s': State, E': set<nat>, E'': set<nat>)
    requires NoneLost(f, s) && MergeWith(f, s, s', E', E'')
    ensures NoneLost(f, s')
  {
    AttackedAreNotSkeptical(f, E');
    AttackedAreNotSkeptical(f, E'');
  }

  lemma AcceptLosesNone(f: Graph, s: State, s': State)
    requires NoneLost(f, s) && AcceptStep(f, s, s')
    ensures NoneLost(f, s')
  {
    AppendKeeps(s.T, s.phase.a);
  }

  lemma StepLosesNone(f: Graph, s: State, s': State)
    requires NoneLost(f, s) && Step(f, s, s')
    ensures NoneLost(f, s')
  {
    if StartStep(f, s, s') {
      AttackedAreNotSkeptical(f, s'.phase.E);
    } else if StopStep(f, s, s') {
      StopLosesNone(f, s, s');
    } else if ScanStep(f, s, s') {
    } else if AcceptStep(f, s, s') {
      AcceptLosesNone(f, s, s');
    } else if E' :| RejectWith(f, s, s', E') {
      RejectLosesNone(f, s, s', E');
    } else {
      var E', E'' :| MergeWith(f, s, s', E', E'');
      MergeLosesNone(f, s, s', E', E'');
    }
  }

  lemma AppendKeeps(xs: seq<nat>, x: nat)
    ensures Elements(xs + [x]) == Elements(xs) + {x}
  {}

  lemma {:induction false} RunLosesNone(f: Graph, run: seq<State>, k: nat)
    requires IsRun(f, run) && k < |run|
    ensures NoneLost(f, run[k])
  {
    if k > 0 {
      RunLosesNone(f, run, k - 1);
      assert StepAt(f, run, k - 1);
      StepLosesNone(f, run[k - 1], run[k]);
    }
  }

  /** A finished run whose answers are all right has found all right answers. */
  lemma SoundRunsAreComplete(f: Graph, run: seq<State>)
    requires IsRun(f, run) && run[|run| - 1].phase.Done?
    ensures var result := Elements(run[|run| - 1].T);
            result <= Skep(f) <==> result == Skep(f)
  {
    RunLosesNone(f, run, |run| - 1);
  }

  // ----- Which acceptances are right -----

  /** At an acceptance every preferred extension without the argument lies inside S. */
  lemma MissedAreInside(f: Graph, s: State, s': State, P: set<nat>)
    requires Inv(f, s) && AcceptStep(f, s, s')
    requires Preferred(f, P)
    ensures s.phase.a !in P ==> P <= s.phase.S
  {
    var Inner(E, _, a, S, _) := s.phase;
    if a !in P {
      PreferredConflict(f, P, E);
      PreferredIsGrounding(f, P);
      assert AttackingPair(f, P, E);
      assert !Challenges(f, Elements(s.T), a, S, P);
    }
  }

  /** Every admissible set inside S could have been answered: the sets that the merged
      non-subset clause shut out would have passed the third query. */
  ghost predicate Justified(f: Graph, s: State)
    requires s.phase.Inner?
  {
    forall D | Admissible(f, D) && D <= s.phase.S :: exists E'' :: Answers(f, Elements(s.T), s.phase.a, D, E'')
  }

  /** After right acceptances, the next one is right exactly when it is justified. */
  lemma AcceptanceIsRightIff(f: Graph, s: State, s': State)
    requires Inv(f, s) && AcceptStep(f, s, s') && Elements(s.T) <= Skep(f)
    ensures s.phase.a in Skep(f) <==> Justified(f, s)
  {
    var T, a := Elements(s.T), s.phase.a;
    SkepIs(f, a);
    if a in Skep(f) {
      forall D | Admissible(f, D) && D <= s.phase.S ensures exists E'' :: Answers(f, T, a, D, E'') {
        if forall E'' :: !Answers(f, T, a, D, E'') {
          UnansweredIsNotSkeptical(f, T, a, D);
        }
      }
    }
    if Justified(f, s) {
      forall P | Preferred(f, P) ensures a in P {
        MissedAreInside(f, s, s', P);
        if P <= s.phase.S {
          var E'' :| Answers(f, T, a, P, E'');
          assert E'' == P;
        }
      }
    }
  }

  ghost predicate AllJustified(f: Graph, run: seq<State>)
    requires IsRun(f, run)
  {
    forall k | 0 <= k < |run| - 1 && AcceptStep(f, run[k], run[k + 1]) :: Justified(f, run[k])
  }

  lemma OnlyAcceptanceGrows(f: Graph, s: State, s': State)
    requires Step(f, s, s')
    ensures s'.T == s.T || (AcceptStep(f, s, s') && s'.T == s.T + [s.phase.a])
  {}

  lemma {:induction false} ResultGrows(f: Graph, run: seq<State>, j: nat, k: nat)
    requires IsRun(f, run) && j <= k < |run|
    ensures Elements(run[j].T) <= Elements(run[k].T)
  {
    if j < k {
      ResultGrows(f, run, j, k - 1);
      assert StepAt(f, run, k - 1);
      OnlyAcceptanceGrows(f, run[k - 1], run[k]);
    }
  }

  lemma {:induction false} JustifiedRunsAreSound(f: Graph, run: seq<State>, k: nat)
    requires IsRun(f, run) && AllJustified(f, run) && k < |run|
    ensures Elements(run[k].T) <= Skep(f)
  {
    if k > 0 {
      JustifiedRunsAreSound(f, run, k - 1);
      assert StepAt(f, run, k - 1);
      OnlyAcceptanceGrows(f, run[k - 1], run[k]);
      if run[k].T != run[k - 1].T {
        RunInv(f, run, k - 1);
        AcceptanceIsRightIff(f, run[k - 1], run[k]);
        AppendKeeps(run[k - 1].T, run[k - 1].phase.a);
      }
    }
  }

  /** A finished run returns exactly the skeptically preferred arguments if and only if each
      of its acceptances was justified. */
  lemma ExactIffJustified(f: Graph, run: seq<State>)
    requires IsRun(f, run) && run[|run| - 1].phase.Done?
    ensures Elements(run[|run| - 1].T) == Skep(f) <==> AllJustified(f, run)
  {
    var last := |run| - 1;
    if AllJustified(f, run) {
      JustifiedRunsAreSound(f, run, last);
      SoundRunsAreComplete(f, run);
    }
    if Elements(run[last].T) == Skep(f) {
      forall k | 0 <= k < last && AcceptStep(f, run[k], run[k + 1]) ensures Justified(f, run[k]) {
        ResultGrows(f, run, k + 1, last);
        ResultGrows(f, run, k, last);
        AppendKeeps(run[k].T, run[k].phase.a);
        RunInv(f, run, k);
        AcceptanceIsRightIff(f, run[k], run[k + 1]);
      }
    }
  }

  // ----- Sufficient conditions on the merged set -----

  /** A conflict-free S is itself admissible, so it answers whatever lies inside it. */
  lemma ConflictFreeIsJustified(f: Graph, s: State)
    requires Inv(f, s) && s.phase.Inner? && ConflictFree(f, s.phase.S)
    ensures Justified(f, s)
  {
    var Inner(E, _, a, S, _) := s.phase;
    var T := Elements(s.T);
    if S == {} {
      forall D | Admissible(f, D) && D <= S ensures exists E'' :: Answers(f, T, a, D, E'') {
        assert Answers(f, T, a, D, E);
      }
    } else {
      forall x | x in S ensures Defends(f, S, x) {
        assert PieceAt(f, T, a, S, x);
        var G :| Answers(f, T, a, {}, G) && x in G && G <= S;
        assert Defends(f, G, x);
      }
      assert PieceAt(f, T, a, S, a);
      var G :| Answers(f, T, a, {}, G) && a in G && G <= S;
      forall D | Admissible(f, D) && D <= S ensures exists E'' :: Answers(f, T, a, D, E'') {
        assert Answers(f, T, a, D, S);
      }
    }
  }

  lemma FewMergesAreConflictFree(f: Graph, s: State)
    requires Inv(f, s) && s.phase.Inner? && s.phase.rounds <= 1
    ensures ConflictFree(f, s.phase.S)
  {}

  /** A run that accepts only with a conflict-free S, in particular after at most one merge,
      returns exactly the skeptically preferred arguments. */
  lemma ConflictFreeRunsAreExact(f: Graph, run: seq<State>)
    requires IsRun(f, run) && run[|run| - 1].phase.Done?
    requires forall k | 0 <= k < |run| - 1 && AcceptStep(f, run[k], run[k + 1]) ::
               run[k].phase.rounds <= 1 || ConflictFree(f, run[k].phase.S)
    ensures Elements(run[|run| - 1].T) == Skep(f)
  {
    forall k | 0 <= k < |run| - 1 && AcceptStep(f, run[k], run[k + 1]) ensures Justified(f, run[k]) {
      RunInv(f, run, k);
      if run[k].phase.rounds <= 1 {
        FewMergesAreConflictFree(f, run[k]);
      }
      ConflictFreeIsJustified(f, run[k]);
    }
    ExactIffJustified(f, run);
  }

  // ----- A condition on the framework alone -----

  /** Everything that is together with `a` in some admissible set. */
  ghost function Companions(f: Graph, a: nat): set<nat> {
    set x | x in Args(f) && Together(f, a, x)
  }

  ghost predicate Together(f: Graph, a: nat, x: nat) {
    exists G :: Admissible(f, G) && a in G && x in G
  }

  /** Some preferred extension lacks `a` and is not made up of companions of `a`. */
  ghost predicate Outlying(f: Graph, a: nat) {
    exists P :: Preferred(f, P) && a !in P && !(P <= Companions(f, a))
  }

  lemma MergedAreCompanions(f: Graph, s: State)
    requires Inv(f, s) && s.phase.Inner?
    ensures s.phase.S <= Companions(f, s.phase.a)
  {
    var Inner(_, _, a, S, _) := s.phase;
    forall x | x in S ensures Together(f, a, x) {
      assert PieceAt(f, Elements(s.T), a, S, x);
      var G :| Answers(f, Elements(s.T), a, {}, G) && x in G && G <= S;
      assert Admissible(f, G) && a in G && x in G;
    }
  }

  /** No run ever accepts an outlying argument, or one that is in no admissible set. */
  lemma {:induction false} AcceptedAreNotOutlying(f: Graph, run: seq<State>, k: nat)
    requires IsRun(f, run) && k < |run|
    ensures forall a | a in Elements(run[k].T) :: a in Args(f) && !Outlying(f, a) && Together(f, a, a)
  {
    hide Inv, Step, AcceptStep, Outlying, Together;
    if k > 0 {
      AcceptedAreNotOutlying(f, run, k - 1);
      assert StepAt(f, run, k - 1);
      OnlyAcceptanceGrows(f, run[k - 1], run[k]);
      if run[k].T != run[k - 1].T {
        RunInv(f, run, k - 1);
        OutlyingAcceptance(f, run[k - 1], run[k]);
        AppendKeeps(run[k - 1].T, run[k - 1].phase.a);
      }
    }
  }

  lemma OutlyingAcceptance(f: Graph, s: State, s': State)
    requires Inv(f, s) && AcceptStep(f, s, s')
    ensures s.phase.Inner? && s.phase.a in Args(f) && !Outlying(f, s.phase.a)
    ensures Together(f, s.phase.a, s.phase.a)
  {
    MergedAreCompanions(f, s);
    assert Admissible(f, s.phase.E) && s.phase.a in s.phase.E;
    if Outlying(f, s.phase.a) {
      var P :| Preferred(f, P) && s.phase.a !in P && !(P <= Companions(f, s.phase.a));
      MissedAreInside(f, s, s', P);
    }
  }

  /** Not what the code does: asking E' to lie outside each answer on its own, instead of
      outside their union, would make every acceptance right. */
  lemma SeparateClausesWouldBeExact(f: Graph, T: set<nat>, a: nat, E: set<nat>, answers: seq<set<nat>>)
    requires Answers(f, T, a, {}, E)
    requires forall k | 0 <= k < |answers| :: Answers(f, T, a, {}, answers[k])
    requires forall E' :: (forall k | 0 <= k < |answers| :: !(E' <= answers[k])) ==> !Challenges(f, T, a, {}, E')
    ensures SkepticallyPreferred(f, a)
  {
    forall P | Preferred(f, P) ensures a in P {
      if exists k :: 0 <= k < |answers| && P <= answers[k] {
        var k :| 0 <= k < |answers| && P <= answers[k];
        assert answers[k] == P;
      }
      MissingIsChallenged(f, T, a, E, P);
    }
  }

  lemma MissingIsChallenged(f: Graph, T: set<nat>, a: nat, E: set<nat>, P: set<nat>)
    requires Answers(f, T, a, {}, E) && Preferred(f, P)
    ensures a !in P ==> Challenges(f, T, a, {}, P)
  {
    if a !in P {
      PreferredConflict(f, P, E);
      PreferredIsGrounding(f, P);
      assert AttackingPair(f, P, E);
    }
  }

  // ----- How much is asked -----

  /** At most n queries for E, each argument under test at most once, and at most n merges
      for each, so at most n + 1 queries for E'. */
  lemma RunBounds(f: Graph, run: seq<State>, k: nat)
    requires IsRun(f, run) && k < |run|
    ensures run[k].calls <= Size(f)
    ensures Distinct(run[k].tried) && |run[k].tried| <= Size(f)
    ensures run[k].phase.Inner? ==> run[k].phase.rounds <= Size(f)
    ensures Distinct(run[k].T) && Elements(run[k].T) !! run[k].C
  {
    RunInv(f, run, k);
    SizeOfArgs(f);
    DistinctSize(run[k].tried);
    SubsetSize(Elements(run[k].tried), Args(f));
    if run[k].phase.Inner? {
      SubsetSize(run[k].phase.S, Args(f));
    }
  }

  /** What is certain after step `k`; each argument under test costs 2n + 2 queries at most. */
  ghost predicate QueriesBounded(n: nat, s: State, queries: nat) {
    queries + (if s.phase.Inner? then 2 * n + 2 - 2 * s.phase.rounds else 0) <= s.calls + |s.tried| * (2 * n + 2)
  }

  /** At most n + n (2n + 2) queries in all. */
  lemma {:induction false} RunQueries(f: Graph, run: seq<State>)
    requires IsRun(f, run)
    ensures QueriesBounded(Size(f), Last(run), Queries(run))
    ensures Queries(run) <= Size(f) + Size(f) * (2 * Size(f) + 2)
  {
    var n, last := Size(f), |run| - 1;
    if last > 0 {
      var front := run[..last];
      assert IsRun(f, front) by {
        forall k: nat | k + 1 < |front| ensures StepAt(f, front, k) {
          assert StepAt(f, run, k);
        }
      }
      RunQueries(f, front);
      RunBounds(f, front, last - 1);
      assert StepAt(f, run, last - 1);
      StepQueriesBounded(f, run[last - 1], run[last], Queries(front));
    }
    RunBounds(f, run, last);
    AtMostTimes(|run[last].tried|, n, 2 * n + 2);
  }

  lemma StepQueriesBounded(f: Graph, s: State, s': State, queries: nat)
    requires Step(f, s, s') && QueriesBounded(Size(f), s, queries)
    requires s.phase.Inner? ==> s.phase.rounds <= Size(f)
    ensures QueriesBounded(Size(f), s', queries + StepQueries(s, s'))
  {
    var m := 2 * Size(f) + 2;
    assert (|s.tried| + 1) * m == |s.tried| * m + m;
  }

  lemma AtMostTimes(a: nat, b: nat, m: nat)
    requires a <= b
    ensures a * m <= b * m
  {}
}
