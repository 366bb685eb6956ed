/** On which frameworks the FUDGE search is exact whatever the solvers answer: a condition on
    the framework that is necessary and sufficient. */
module FudgeExactness {
  import opened Frameworks
  import opened Correspondence
  import opened Search
  import opened FudgeRuns
  import opened FudgeTheorems

  ghost predicate Finished(f: Graph, run: seq<State>) {
    IsRun(f, run) && run[|run| - 1].phase.Done?
  }

  ghost predicate Exact(f: Graph, run: seq<State>)
    requires |run| > 0
  {
    Elements(run[|run| - 1].T) == Skep(f)
  }

  /** In some preferred extension but not in all of them. */
  ghost predicate Contested(f: Graph, a: nat) {
    a in Args(f) && a !in Skep(f) && Together(f, a, a)
  }

  /** Each contested argument is missing from a preferred extension that is not made up of its
      companions. */
  ghost predicate Robust(f: Graph) {
    forall a | Contested(f, a) :: Outlying(f, a)
  }

  lemma RobustIsExact(f: Graph, run: seq<State>)
    requires Robust(f) && Finished(f, run)
    ensures Exact(f, run)
  {
    AcceptedAreNotOutlying(f, run, |run| - 1);
    forall a | a in Elements(run[|run| - 1].T) ensures a in Skep(f) {
      assert Contested(f, a) || a in Skep(f);
    }
    SoundRunsAreComplete(f, run);
  }

  // ----- Any run can be completed -----

  /** The members of a set in increasing order. */
  lemma {:induction false} Listing(n: nat, X: set<nat>) returns (xs: seq<nat>)
    requires forall x | x in X :: x < n
    ensures Increasing(xs) && Elements(xs) == X
  {
    if n == 0 {
      xs := [];
    } else {
      xs := Listing(n - 1, X - {n - 1});
      if n - 1 in X {
        forall i | 0 <= i < |xs| ensures xs[i] < n - 1 {
          assert xs[i] in Elements(xs);
        }
        AppendKeeps(xs, n - 1);
        xs := xs + [n - 1];
      }
    }
  }

  /** What is left to scan, weighing the argument under test. */
  ghost function Todo(s: State): nat {
    match s.phase
    case Outer => 0
    case Scan(_, todo) => 2 * |todo| + 1
    case Inner(_, todo, _, _, _) => 2 * |todo| + 2
    case Done => 0
  }

  ghost function Unmerged(f: Graph, s: State): set<nat> {
    if s.phase.Inner? then Args(f) - s.phase.S else {}
  }

  /** A step that is not the last one brings the end closer. */
  ghost predicate Closer(f: Graph, s: State, s': State) {
    || Size(f) - s'.calls < Size(f) - s.calls
    || (s'.calls == s.calls && Todo(s') < Todo(s))
    || (s'.calls == s.calls && Todo(s') == Todo(s) && Unmerged(f, s') < Unmerged(f, s))
  }

  /** Some step is always possible. */
  lemma Proceed(f: Graph, s: State) returns (s': State)
    requires Inv(f, s) && !s.phase.Done?
    ensures Step(f, s, s')
    ensures s'.phase.Done? || Closer(f, s, s')
  {
    match s.phase
    case Outer => s' := ProceedOuter(f, s);
    case Scan(E, todo) =>
      s' := if todo == [] then s.(phase := Outer)
            else if todo[0] !in s.C then s.(phase := Scan(E, todo[1..]))
            else s.(phase := Inner(E, todo[1..], todo[0], {}, 0), tried := s.tried + [todo[0]]);
      assert ScanStep(f, s, s');
    case Inner(_, _, _, _, _) => s' := ProceedInner(f, s);
  }

  lemma ProceedOuter(f: Graph, s: State) returns (s': State)
    requires Inv(f, s) && s.phase.Outer?
    ensures Step(f, s, s')
    ensures s'.phase.Done? || Closer(f, s, s')
  {
    if s.C == {} {
      s' := s.(phase := Done);
      assert StopStep(f, s, s');
    } else if E :| MeetsCandidates(f, Elements(s.T), s.C, E) {
      var xs := Listing(Size(f), E);
      s' := State(s.T, s.C - Range(f, E), Scan(E, xs), s.calls + 1, s.tried);
      assert StartStep(f, s, s');
    } else {
      s' := s.(phase := Done, calls := s.calls + 1);
      assert StopStep(f, s, s');
    }
  }

  lemma ProceedInner(f: Graph, s: State) returns (s': State)
    requires Inv(f, s) && s.phase.Inner?
    ensures Step(f, s, s') && Closer(f, s, s')
  {
    var Inner(E, todo, a, S, rounds) := s.phase;
    var T := Elements(s.T);
    if E' :| Challenges(f, T, a, S, E') {
      if E'' :| Answers(f, T, a, E', E'') {
        s' := s.(C := s.C - Range(f, E') - Range(f, E''), phase := Inner(E, todo, a, S + E'', rounds + 1));
        assert MergeWith(f, s, s', E', E'');
        var x :| x in E' && x !in S;
        assert x in Unmerged(f, s) && x !in Unmerged(f, s');
      } else {
        s' := s.(C := s.C - Range(f, E') - {a}, phase := Scan(E, todo));
        assert RejectWith(f, s, s', E');
      }
    } else {
      s' := s.(T := s.T + [a], C := s.C - {a}, phase := Scan(E, todo));
      assert AcceptStep(f, s, s');
    }
  }

  lemma {:induction false} Completed(f: Graph, run: seq<State>) returns (full: seq<State>)
    requires IsRun(f, run)
    ensures Finished(f, full) && run <= full
    decreases Size(f) - Last(run).calls, Todo(Last(run)), Unmerged(f, Last(run))
  {
    hide Step, Inv;
    if Last(run).phase.Done? {
      full := run;
    } else {
      RunInv(f, run, |run| - 1);
      var s' := Proceed(f, Last(run));
      RunGrows(f, run, s');
      if s'.phase.Done? {
        full := run + [s'];
      } else {
        CallsBounded(f, run + [s']);
        full := Completed(f, run + [s']);
      }
    }
  }

  lemma CallsBounded(f: Graph, run: seq<State>)
    requires IsRun(f, run)
    ensures Last(run).calls <= Size(f)
  {
    RunBounds(f, run, |run| - 1);
  }

  // ----- Steering a run into a wrong answer -----

  /** A contested argument that is not outlying. */
  ghost predicate Elusive(f: Graph, a: nat) {
    Contested(f, a) && !Outlying(f, a)
  }

  /** A preferred extension with a contested argument. */
  lemma PreferredWith(f: Graph, a: nat, x: nat) returns (G: set<nat>)
    requires Together(f, a, x)
    ensures Preferred(f, G) && a in G && x in G
  {
    var H :| Admissible(f, H) && a in H && x in H;
    G := ExtendToPreferred(f, H);
  }

  /** Every preferred extension with an elusive argument attacks another one with it. */
  lemma Rival(f: Graph, a: nat, G: set<nat>) returns (V: set<nat>)
    requires Elusive(f, a) && Preferred(f, G) && a in G
    ensures Preferred(f, V) && a in V && HitsSet(f, G, V)
  {
    SkepIs(f, a);
    var P :| Preferred(f, P) && a !in P;
    assert P <= Companions(f, a);
    var x :| x in P && x !in G;
    V := PreferredWith(f, a, x);
    PreferredConflict(f, G, V);
  }

  /** Right answers lie in every preferred extension. */
  lemma SkepInside(f: Graph, T: set<nat>, G: set<nat>)
    requires T <= Skep(f) && Preferred(f, G)
    ensures T <= G
  {
    forall x | x in T ensures x in G {
      SkepIs(f, x);
    }
  }

  /** A preferred extension can be the answer E', given one with `b` that it attacks. */
  lemma CanChallenge(f: Graph, T: set<nat>, b: nat, S: set<nat>, G: set<nat>, V: set<nat>)
    requires T <= Skep(f) && Preferred(f, G) && Preferred(f, V) && b in V
    requires HitsSet(f, G, V) && !(G <= S)
    ensures Challenges(f, T, b, S, G)
  {
    PreferredIsGrounding(f, G);
    PreferredIsGrounding(f, V);
    SkepInside(f, T, V);
    assert AttackingPair(f, G, V);
  }

  lemma NotAttackedWithin(f: Graph, G: set<nat>, x: nat)
    requires Admissible(f, G) && x in G
    ensures x !in Range(f, G)
  {}

  /** The argument `a` is a candidate still to be scanned, and nothing wrong was accepted. */
  ghost predicate Waiting(f: Graph, s: State, a: nat) {
    && s.phase.Scan? && Elements(s.T) <= Skep(f) && a in s.C && a in s.phase.todo
    && Preferred(f, s.phase.E) && Elements(s.phase.todo) <= s.phase.E
  }

  /** The argument `b` is under test, and every preferred extension with `a` has it. */
  ghost predicate Merging(f: Graph, s: State, a: nat, b: nat) {
    && s.phase.Inner? && s.phase.a == b && Elements(s.T) <= Skep(f) && a in s.C
    && forall G | Preferred(f, G) && a in G :: b in G
  }

  /** Some preferred extension with `a` lacks `b`: it is given as E' and cannot be answered. */
  lemma RejectWithout(f: Graph, s: State, a: nat, b: nat, G: set<nat>) returns (s': State)
    requires s.phase.Inner? && s.phase.a == b && s.phase.S == {} && Elements(s.T) <= Skep(f) && a in s.C
    requires Preferred(f, G) && a in G && b !in G && Preferred(f, s.phase.E) && b in s.phase.E
    ensures Step(f, s, s') && s'.T == s.T && a in s'.C && s'.phase == Scan(s.phase.E, s.phase.todo)
  {
    PreferredConflict(f, G, s.phase.E);
    CanChallenge(f, Elements(s.T), b, {}, G, s.phase.E);
    NotAttackedWithin(f, G, a);
    s' := s.(C := s.C - Range(f, G) - {b}, phase := Scan(s.phase.E, s.phase.todo));
    assert RejectWith(f, s, s', G);
  }

  /** Such an extension that is not merged yet is given as E' and as E''. */
  lemma MergeOne(f: Graph, s: State, a: nat, b: nat, G: set<nat>) returns (s': State)
    requires Elusive(f, a) && Merging(f, s, a, b) && Preferred(f, G) && a in G && !(G <= s.phase.S)
    ensures Step(f, s, s') && Merging(f, s', a, b) && s'.phase.S == s.phase.S + G
    ensures s'.T == s.T && s'.phase.E == s.phase.E && s'.phase.todo == s.phase.todo
  {
    hide Challenges, Elusive, HitsSet, Step;
    var Inner(E, todo, _, S, rounds) := s.phase;
    var V := Rival(f, a, G);
    CanChallenge(f, Elements(s.T), b, S, G, V);
    SkepInside(f, Elements(s.T), G);
    PreferredIsGrounding(f, G);
    NotAttackedWithin(f, G, a);
    s' := s.(C := s.C - Range(f, G) - Range(f, G), phase := Inner(E, todo, b, S + G, rounds + 1));
    assert Answers(f, Elements(s.T), b, G, G);
    MergeSteps(f, s, s', G, G);
  }

  lemma MergeSteps(f: Graph, s: State, s': State, E': set<nat>, E'': set<nat>)
    requires MergeWith(f, s, s', E', E'')
    ensures Step(f, s, s')
  {}

  /** Merge them all. */
  lemma {:induction false} MergeEverything(f: Graph, run: seq<State>, a: nat, b: nat) returns (run': seq<State>)
    requires Elusive(f, a) && IsRun(f, run) && Merging(f, Last(run), a, b)
    ensures IsRun(f, run') && run <= run' && Merging(f, Last(run'), a, b)
    ensures forall G | Preferred(f, G) && a in G :: G <= Last(run').phase.S
    ensures Last(run').T == Last(run).T
    ensures Last(run').phase.E == Last(run).phase.E && Last(run').phase.todo == Last(run).phase.todo
    decreases Unmerged(f, Last(run))
  {
    hide Step, Elusive;
    if G :| Preferred(f, G) && a in G && !(G <= Last(run).phase.S) {
      var s' := MergeOne(f, Last(run), a, b, G);
      RunGrows(f, run, s');
      var x :| x in G && x !in Last(run).phase.S;
      assert x in Unmerged(f, Last(run)) && x !in Unmerged(f, s');
      run' := MergeEverything(f, run + [s'], a, b);
    } else {
      run' := run;
    }
  }

  /** When all are merged every admissible set is inside S, so `b` is accepted. */
  lemma AcceptMerged(f: Graph, s: State, a: nat, b: nat) returns (s': State)
    requires Elusive(f, a) && Merging(f, s, a, b)
    requires forall G | Preferred(f, G) && a in G :: G <= s.phase.S
    ensures Step(f, s, s') && s'.phase == Scan(s.phase.E, s.phase.todo)
    ensures s'.T == s.T + [b] && s'.C == s.C - {b}
  {
    SkepIs(f, a);
    forall E' ensures !Challenges(f, Elements(s.T), b, s.phase.S, E') {
      if Admissible(f, E') {
        var P := ExtendToPreferred(f, E');
        PreferredIsMerged(f, s.phase.S, a, P);
      }
    }
    s' := s.(T := s.T + [b], C := s.C - {b}, phase := Scan(s.phase.E, s.phase.todo));
    assert AcceptStep(f, s, s');
  }

  lemma PreferredIsMerged(f: Graph, S: set<nat>, a: nat, P: set<nat>)
    requires Elusive(f, a) && Preferred(f, P)
    requires forall G | Preferred(f, G) && a in G :: G <= S
    ensures P <= S
  {
    if a !in P {
      assert P <= Companions(f, a);
      forall x | x in P ensures x in S {
        var G := PreferredWith(f, a, x);
      }
    }
  }

  /** Scan on until something wrong is accepted, at the latest `a` itself. */
  lemma {:induction false} Mislead(f: Graph, run: seq<State>, a: nat) returns (run': seq<State>)
    requires Elusive(f, a) && IsRun(f, run) && Waiting(f, Last(run), a)
    ensures IsRun(f, run') && !(Elements(Last(run').T) <= Skep(f))
    decreases |Last(run).phase.todo|, 1
  {
    hide Step, Elusive, Skep;
    var s := Last(run);
    var Scan(E, todo) := s.phase;
    var b := todo[0];
    assert todo == [b] + todo[1..];
    assert b in Elements(todo) && Elements(todo[1..]) <= Elements(todo);
    var s1 := s.(phase := if b !in s.C then Scan(E, todo[1..]) else Inner(E, todo[1..], b, {}, 0),
                 tried := if b !in s.C then s.tried else s.tried + [b]);
    ScanSteps(f, s, s1);
    RunGrows(f, run, s1);
    if b !in s.C {
      run' := Mislead(f, run + [s1], a);
    } else {
      run' := MisleadTest(f, run + [s1], a, b);
    }
  }

  lemma ScanSteps(f: Graph, s: State, s': State)
    requires ScanStep(f, s, s')
    ensures Step(f, s, s')
  {}

  lemma ElusiveIsContested(f: Graph, a: nat)
    requires Elusive(f, a)
    ensures a !in Skep(f)
  {}

  lemma MisleadTest(f: Graph, run: seq<State>, a: nat, b: nat) returns (run': seq<State>)
    requires Elusive(f, a) && IsRun(f, run)
    requires var s := Last(run);
             && s.phase.Inner? && s.phase.a == b && s.phase.S == {} && Elements(s.T) <= Skep(f) && a in s.C
             && Preferred(f, s.phase.E) && b in s.phase.E && Elements(s.phase.todo) <= s.phase.E
             && (a == b || a in s.phase.todo)
    ensures IsRun(f, run') && !(Elements(Last(run').T) <= Skep(f))
    decreases |Last(run).phase.todo| + 1, 0
  {
    hide Step, Elusive, Skep, Preferred;
    var s := Last(run);
    if G :| Preferred(f, G) && a in G && b !in G {
      var s' := RejectWithout(f, s, a, b, G);
      RunGrows(f, run, s');
      run' := Mislead(f, run + [s'], a);
    } else {
      var merged := MergeEverything(f, run, a, b);
      var s' := AcceptMerged(f, Last(merged), a, b);
      RunGrows(f, merged, s');
      AppendKeeps(s.T, b);
      run' := merged + [s'];
      if b in Skep(f) {
        ElusiveIsContested(f, a);
        run' := Mislead(f, run', a);
      }
    }
  }

  lemma StartSteps(f: Graph, s: State, s': State)
    requires StartStep(f, s, s')
    ensures Step(f, s, s')
  {}

  lemma ContestedIn(f: Graph, a: nat) returns (E: set<nat>)
    requires Elusive(f, a)
    ensures Preferred(f, E) && a in E
  {
    E := PreferredWith(f, a, a);
  }

  /** An elusive argument misleads some run. */
  lemma ElusiveMisleads(f: Graph, a: nat) returns (run: seq<State>)
    requires Elusive(f, a)
    ensures Finished(f, run) && !Exact(f, run)
  {
    hide Step, Elusive, Skep, Outlying;
    var E := ContestedIn(f, a);
    PreferredIsGrounding(f, E);
    NotAttackedWithin(f, E, a);
    var xs := Listing(Size(f), E);
    var s := State([], Args(f) - Range(f, E), Scan(E, xs), 1, []);
    assert a in E * Args(f) && a in Elements(xs);
    assert StartStep(f, Init(f), s);
    StartSteps(f, Init(f), s);
    RunGrows(f, [Init(f)], s);
    var wrong := Mislead(f, [Init(f), s], a);
    run := Completed(f, wrong);
    ResultGrows(f, run, |wrong| - 1, |run| - 1);
  }

  /** Every run is exact, whatever the solvers answer, if and only if the framework is robust. */
  lemma ExactIffRobust(f: Graph)
    ensures (forall run | Finished(f, run) :: Exact(f, run)) <==> Robust(f)
  {
    if Robust(f) {
      forall run | Finished(f, run) ensures Exact(f, run) {
        RobustIsExact(f, run);
      }
    } else {
      var a :| Contested(f, a) && !Outlying(f, a);
      var run := ElusiveMisleads(f, a);
    }
  }
}
