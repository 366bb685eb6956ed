/** The runs of the FUDGE search for skeptically preferred arguments, as a transition system
    over sets: accepted arguments T, candidates C, and for the argument under
    test the set S of everything merged so far.  Each step takes any answer an oracle may
    give, so what holds of all runs holds for every solver. */
module FudgeRuns {
  import opened Sat
  import opened Frameworks
  import opened Correspondence
  import opened Search

  datatype Phase =
    | Outer
    | Scan(E: set<nat>, todo: seq<nat>)
    | Inner(E: set<nat>, todo: seq<nat>, a: nat, S: set<nat>, rounds: nat)
    | Done

  /** `calls` counts the queries for E, `tried` lists the arguments put under test. */
  datatype State = State(T: seq<nat>, C: set<nat>, phase: Phase, calls: nat, tried: seq<nat>)

  ghost function Init(f: Graph): State {
    State([], Args(f), Outer, 0, [])
  }

  // ----- The three queries -----

  /** E: admissible, above T, meeting the candidates. */
  ghost predicate MeetsCandidates(f: Graph, T: set<nat>, C: set<nat>, E: set<nat>) {
    Grounding(f, E) && T <= E && E * C != {}
  }

  /** E': admissible, attacking an admissible set above T and `a`, and not inside S. */
  ghost predicate Challenges(f: Graph, T: set<nat>, a: nat, S: set<nat>, E': set<nat>) {
    !(E' <= S) && exists V :: AttackingPair(f, E', V) && T <= V && a in V
  }

  /** E'': admissible, above E', T and `a`. */
  ghost predicate Answers(f: Graph, T: set<nat>, a: nat, E': set<nat>, E'': set<nat>) {
    Grounding(f, E'') && E' <= E'' && T <= E'' && a in E''
  }

  // ----- Steps -----

  ghost predicate StartStep(f: Graph, s: State, s': State) {
    && s.phase.Outer? && s.C != {} && s'.phase.Scan?
    && MeetsCandidates(f, Elements(s.T), s.C, s'.phase.E)
    && Increasing(s'.phase.todo) && Elements(s'.phase.todo) == s'.phase.E
    && s' == State(s.T, s.C - Range(f, s'.phase.E), s'.phase, s.calls + 1, s.tried)
  }

  ghost predicate StopStep(f: Graph, s: State, s': State) {
    && s.phase.Outer?
    && if s.C == {} then s' == s.(phase := Done)
       else
         && (forall E :: !MeetsCandidates(f, Elements(s.T), s.C, E))
         && s' == s.(phase := Done, calls := s.calls + 1)
  }

  ghost predicate ScanStep(f: Graph, s: State, s': State) {
    && s.phase.Scan?
    && var Scan(E, todo) := s.phase;
       if todo == [] then s' == s.(phase := Outer)
       else if todo[0] !in s.C then s' == s.(phase := Scan(E, todo[1..]))
       else s' == s.(phase := Inner(E, todo[1..], todo[0], {}, 0), tried := s.tried + [todo[0]])
  }

  ghost predicate AcceptStep(f: Graph, s: State, s': State) {
    && s.phase.Inner?
    && var Inner(E, todo, a, S, _) := s.phase;
       && (forall E' :: !Challenges(f, Elements(s.T), a, S, E'))
       && s' == s.(T := s.T + [a], C := s.C - {a}, phase := Scan(E, todo))
  }

  ghost predicate RejectWith(f: Graph, s: State, s': State, E': set<nat>) {
    && s.phase.Inner?
    && var Inner(E, todo, a, S, _) := s.phase;
       && Challenges(f, Elements(s.T), a, S, E')
       && (forall E'' :: !Answers(f, Elements(s.T), a, E', E''))
       && s' == s.(C := s.C - Range(f, E') - {a}, phase := Scan(E, todo))
  }

  ghost predicate MergeWith(f: Graph, s: State, s': State, E': set<nat>, E'': set<nat>) {
    && s.phase.Inner?
    && var Inner(E, todo, a, S, rounds) := s.phase;
       && Challenges(f, Elements(s.T), a, S, E')
       && Answers(f, Elements(s.T), a, E', E'')
       && s' == s.(C := s.C - Range(f, E') - Range(f, E''), phase := Inner(E, todo, a, S + E'', rounds + 1))
  }

  ghost predicate Step(f: Graph, s: State, s': State) {
    || StartStep(f, s, s')
    || StopStep(f, s, s')
    || ScanStep(f, s, s')
    || AcceptStep(f, s, s')
    || (exists E' :: RejectWith(f, s, s', E'))
    || (exists E', E'' :: MergeWith(f, s, s', E', E''))
  }

  ghost predicate StepAt(f: Graph, run: seq<State>, k: nat)
    requires k + 1 < |run|
  {
    Step(f, run[k], run[k + 1])
  }

  ghost predicate IsRun(f: Graph, run: seq<State>) {
    && |run| > 0
    && run[0] == Init(f)
    && forall k: nat | k + 1 < |run| :: StepAt(f, run, k)
  }

  ghost function Last(run: seq<State>): State
    requires |run| > 0
  {
    run[|run| - 1]
  }

  lemma RunGrows(f: Graph, run: seq<State>, s': State)
    requires IsRun(f, run) && Step(f, run[|run| - 1], s')
    ensures IsRun(f, run + [s'])
  {
    var longer := run + [s'];
    forall k: nat | k + 1 < |longer| ensures StepAt(f, longer, k) {
      if k + 1 < |run| {
        assert StepAt(f, run, k);
      }
    }
  }

  /** How many queries a step takes: one for E unless no candidate is left, two to reject or
      merge, one to accept. */
  ghost function StepQueries(s: State, s': State): nat {
    match s.phase
    case Outer => if s'.calls > s.calls then 1 else 0
    case Scan(_, _) => 0
    case Inner(_, _, _, _, _) => if s'.T == s.T then 2 else 1
    case Done => 0
  }

  ghost function Queries(run: seq<State>): nat {
    if |run| <= 1 then 0 else
      var last := |run| - 1;
      Queries(run[..last]) + StepQueries(run[last - 1], run[last])
  }

  lemma QueriesFirst(s: State)
    ensures Queries([s]) == 0
  {}

  lemma QueriesNext(run: seq<State>, s': State)
    requires |run| > 0
    ensures Queries(run + [s']) == Queries(run) + StepQueries(Last(run), s')
  {
    assert (run + [s'])[..|run|] == run;
  }

  // ----- What every step keeps -----

  /** `x` lies in an admissible set inside S, above T and `a`. */
  ghost predicate PieceAt(f: Graph, T: set<nat>, a: nat, S: set<nat>, x: nat) {
    exists G :: Answers(f, T, a, {}, G) && x in G && G <= S
  }

  /** S is pieced together from admissible sets above T and `a`, or still empty. */
  ghost predicate Pieced(f: Graph, T: set<nat>, a: nat, S: set<nat>) {
    && S <= Args(f)
    && (S != {} ==> T <= S && a in S)
    && forall x {:trigger PieceAt(f, T, a, S, x)} | x in S :: PieceAt(f, T, a, S, x)
  }

  ghost predicate Scanning(f: Graph, T: set<nat>, C: set<nat>, calls: nat, E: set<nat>, todo: seq<nat>) {
    && Grounding(f, E) && T <= E && Elements(todo) <= E && Increasing(todo)
    && calls + |C - E| <= Size(f)
  }

  ghost predicate Testing(f: Graph, T: set<nat>, C: set<nat>, tried: set<nat>, a: nat, S: set<nat>, rounds: nat) {
    && a in C && tried * C == {a}
    && Pieced(f, T, a, S) && rounds <= |S|
    && (rounds == 0 ==> S == {})
    && (rounds == 1 ==> Answers(f, T, a, {}, S))
  }

  ghost predicate Inv(f: Graph, s: State) {
    var T := Elements(s.T);
    && Distinct(s.T) && T <= Args(f) && s.C <= Args(f) && T !! s.C
    && Distinct(s.tried) && T <= Elements(s.tried) <= Args(f)
    && match s.phase
       case Outer => s.calls + |s.C| <= Size(f) && Elements(s.tried) !! s.C
       case Scan(E, todo) =>
         && Scanning(f, T, s.C, s.calls, E, todo)
         && E * s.C <= Elements(todo) && Elements(s.tried) !! s.C
       case Inner(E, todo, a, S, rounds) =>
         && Scanning(f, T, s.C, s.calls, E, todo)
         && E * s.C <= Elements(todo) + {a} && a in E && a !in todo
         && Testing(f, T, s.C, Elements(s.tried), a, S, rounds)
       case Done => s.calls <= Size(f)
  }

  lemma InitInv(f: Graph)
    ensures Inv(f, Init(f))
  {
    SizeOfArgs(f);
  }

  lemma StartInv(f: Graph, s: State, s': State)
    requires Inv(f, s) && StartStep(f, s, s')
    ensures Inv(f, s')
  {
    var E := s'.phase.E;
    var x :| x in E * s.C;
    assert s'.C - E <= s.C - {x};
    SubsetSize(s'.C - E, s.C - {x});
  }

  lemma ScanInv(f: Graph, s: State, s': State)
    requires Inv(f, s) && ScanStep(f, s, s')
    ensures Inv(f, s')
  {
    var Scan(E, todo) := s.phase;
    if todo == [] {
      assert Elements(todo) == {} && E * s.C == {};
      forall x | x in s.C ensures x !in E {
        assert x !in E * s.C;
      }
      assert s.C - E == s.C;
    } else {
      assert todo == [todo[0]] + todo[1..];
      assert Elements(todo) == {todo[0]} + Elements(todo[1..]);
      assert todo[0] !in todo[1..];
      if todo[0] in s.C {
        AppendNew(s.tried, todo[0]);
      }
    }
  }

  lemma AcceptInv(f: Graph, s: State, s': State)
    requires Inv(f, s) && AcceptStep(f, s, s')
    ensures Inv(f, s')
  {
    AppendNew(s.T, s.phase.a);
    SubsetSize(s'.C - s.phase.E, s.C - s.phase.E);
  }

  lemma RejectInv(f: Graph, s: State, s': State, E': set<nat>)
    requires Inv(f, s) && RejectWith(f, s, s', E')
    ensures Inv(f, s')
  {
    SubsetSize(s'.C - s.phase.E, s.C - s.phase.E);
  }

  lemma PiecedMerge(f: Graph, T: set<nat>, a: nat, S: set<nat>, E': set<nat>, E'': set<nat>)
    requires Pieced(f, T, a, S) && Answers(f, T, a, E', E'')
    ensures Pieced(f, T, a, S + E'')
  {
    forall x | x in S + E'' ensures PieceAt(f, T, a, S + E'', x) {
      if x in S {
        assert PieceAt(f, T, a, S, x);
        var G :| Answers(f, T, a, {}, G) && x in G && G <= S;
        assert G <= S + E'';
      } else {
        assert Answers(f, T, a, {}, E'');
      }
    }
  }

  lemma NotInRange(f: Graph, E': set<nat>, E'': set<nat>)
    requires Admissible(f, E'') && E' <= E''
    ensures E'' !! Range(f, E') && E'' !! Range(f, E'')
  {}

  lemma MergeTesting(f: Graph, T: set<nat>, C: set<nat>, tried: set<nat>, a: nat, S: set<nat>, rounds: nat,
                     E': set<nat>, E'': set<nat>)
    requires Testing(f, T, C, tried, a, S, rounds)
    requires Answers(f, T, a, E', E'') && !(E' <= S)
    ensures Testing(f, T, C - Range(f, E') - Range(f, E''), tried, a, S + E'', rounds + 1)
  {
    PiecedMerge(f, T, a, S, E', E'');
    NotInRange(f, E', E'');
    var y :| y in E' && y !in S;
    SubsetSize(S + {y}, S + E'');
    if rounds == 0 {
      assert S + E'' == E'';
    }
  }

  /** Fewer candidates and a larger S leave everything else in order. */
  lemma InnerInv(f: Graph, s: State, C': set<nat>, S': set<nat>)
    requires Inv(f, s) && s.phase.Inner? && C' <= s.C
    requires Testing(f, Elements(s.T), C', Elements(s.tried), s.phase.a, S', s.phase.rounds + 1)
    ensures Inv(f, s.(C := C', phase := s.phase.(S := S', rounds := s.phase.rounds + 1)))
  {
    SubsetSize(C' - s.phase.E, s.C - s.phase.E);
  }

  lemma MergeInv(f: Graph, s: State, s': State, E': set<nat>, E'': set<nat>)
    requires Inv(f, s) && MergeWith(f, s, s', E', E'')
    ensures Inv(f, s')
  {
    MergeTesting(f, Elements(s.T), s.C, Elements(s.tried), s.phase.a, s.phase.S, s.phase.rounds, E', E'');
    InnerInv(f, s, s'.C, s'.phase.S);
    assert s' == s.(C := s'.C, phase := s.phase.(S := s'.phase.S, rounds := s.phase.rounds + 1));
  }

  lemma StepInv(f: Graph, s: State, s': State)
    requires Inv(f, s) && Step(f, s, s')
    ensures Inv(f, s')
  {
    if StartStep(f, s, s') {
      StartInv(f, s, s');
    } else if StopStep(f, s, s') {
      if s.C != {} {
        SubsetSize({}, s.C);
      }
    } else if ScanStep(f, s, s') {
      ScanInv(f, s, s');
    } else if AcceptStep(f, s, s') {
      AcceptInv(f, s, s');
    } else if E' :| RejectWith(f, s, s', E') {
      RejectInv(f, s, s', E');
    } else {
      var E', E'' :| MergeWith(f, s, s', E', E'');
      MergeInv(f, s, s', E', E'');
    }
  }

  lemma {:induction false} RunInv(f: Graph, run: seq<State>, k: nat)
    requires IsRun(f, run) && k < |run|
    ensures Inv(f, run[k])
  {
    if k == 0 {
      InitInv(f);
    } else {
      RunInv(f, run, k - 1);
      assert StepAt(f, run, k - 1);
      StepInv(f, run[k - 1], run[k]);
    }
  }
}
