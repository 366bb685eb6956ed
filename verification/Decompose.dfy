/** One round of equivalent literal detection: the iterative search over the binary implication
    graph that gives every active literal a representative of its component, or finds that the
    formula has no model. */
module Decompose {
  import opened Sat
  import opened BinaryGraph
  import opened Tarjan
  import opened TarjanStacks

  const INT_MAX: nat := 0x7FFF_FFFF

  datatype Watch = Watch(binary: bool, blit: Lit)

  // ----- What representatives are -----

  /** `r` has the smallest variable of the component of `x`. */
  ghost predicate Represents(g: Graph, r: Lit, x: Lit) {
    && Equivalent(g, x, r)
    && forall y: Lit {:trigger Equivalent(g, x, y)} | Equivalent(g, x, y) :: Abs(r) <= Abs(y)
  }

  ghost predicate ReprOk(g: Graph, frozen: set<nat>, reprs: map<Lit, Lit>, x: Lit) {
    && x in reprs
    && if Abs(x) in frozen then reprs[x] == x else Represents(g, reprs[x], x)
  }

  ghost predicate Complementary(g: Graph, x: Lit) {
    Equivalent(g, x, Neg(x))
  }

  /** The traversed literals have representatives and are not equivalent to their negations. */
  ghost predicate Settled(g: Graph, s: Search, frozen: set<nat>, reprs: map<Lit, Lit>) {
    && (forall x | Done(s, x) :: ReprOk(g, frozen, reprs, x) && !Complementary(g, x))
    && (forall x | x in reprs :: Done(s, x))
  }

  ghost function Substituted(reprs: map<Lit, Lit>): set<Lit> {
    set x | x in reprs && reprs[x] != x
  }

  /** The representatives after a component was completed. */
  ghost predicate Assigned(s: Search, frozen: set<nat>, reprs: map<Lit, Lit>, reprs': map<Lit, Lit>, x: Lit, r: Lit) {
    && (forall y :: y in reprs' <==> y in reprs || InComponent(s, x, y))
    && (forall y | y in reprs' ::
          reprs'[y] == if !InComponent(s, x, y) then reprs[y] else if Abs(y) in frozen then y else r)
  }

  lemma CompleteSettled(g: Graph, s: Search, s': Search, frozen: set<nat>, reprs: map<Lit, Lit>,
                        reprs': map<Lit, Lit>, x: Lit, r: Lit)
    requires Inv(g, s) && Completes(g, s, s', x) && Settled(g, s, frozen, reprs) && Skew(g)
    requires Assigned(s, frozen, reprs, reprs', x, r)
    requires InComponent(s, x, r) && !InComponent(s, x, Neg(x))
    requires forall y: Lit | InComponent(s, x, y) :: Abs(r) <= Abs(y)
    ensures Settled(g, s', frozen, reprs')
  {
    forall y | Done(s', y) ensures ReprOk(g, frozen, reprs', y) && !Complementary(g, y) {
      if InComponent(s, x, y) {
        MemberSettled(g, s, x, r, y);
      } else {
        assert Done(s, y);
        assert ReprOk(g, frozen, reprs, y);
      }
    }
  }

  lemma MemberSettled(g: Graph, s: Search, x: Lit, r: Lit, y: Lit)
    requires Inv(g, s) && IsEntry(g, s, x) && Skew(g)
    requires InComponent(s, x, r) && !InComponent(s, x, Neg(x)) && InComponent(s, x, y)
    requires forall z: Lit | InComponent(s, x, z) :: Abs(r) <= Abs(z)
    ensures Represents(g, r, y) && !Complementary(g, y)
  {
    ComponentExact(g, s, x, y);
    ComponentExact(g, s, x, r);
    EquivalentTrans(g, y, x, r);
    forall z: Lit {:trigger Equivalent(g, y, z)} | Equivalent(g, y, z) ensures Abs(r) <= Abs(z) {
      EquivalentTrans(g, x, y, z);
      ComponentExact(g, s, x, z);
    }
    if Complementary(g, y) {
      ComplementSpreads(g, y, x);
    }
    ComponentExact(g, s, x, Neg(x));
  }

  // ----- Bounds -----

  lemma LiteralCount(maxVar: nat, ls: set<Lit>)
    requires forall l | l in ls :: Abs(l) <= maxVar
    ensures |ls| <= 2 * maxVar
  {
    if maxVar == 0 {
      assert ls == {};
    } else {
      var v: Lit := maxVar;
      var rest := ls - {v, Neg(v)};
      LiteralCount(maxVar - 1, rest);
      assert ls <= rest + {v, Neg(v)};
      UnionCount(rest, v, Neg(v));
      SubsetSize(ls, rest + {v, Neg(v)});
    }
  }

  lemma UnionCount(a: set<Lit>, x: Lit, y: Lit)
    ensures |a + {x, y}| <= |a| + 2
  {
    assert a + {x, y} == (a + {x}) + {y};
  }

  /** There is a number left for a node that was not visited. */
  lemma NumberLeft(g: Graph, s: Search, maxVar: nat, x: Lit)
    requires Counted(g, s) && x in g.nodes && Idx(s, x) == 0
    requires maxVar <= INT_MAX && forall l | l in g.nodes :: Abs(l) <= maxVar
    ensures s.count < |g.nodes| && s.count + 1 < TRAVERSED
  {
    LiteralCount(maxVar, g.nodes);
    assert Visited(s) <= g.nodes - {x};
    SubsetSize(Visited(s), g.nodes - {x});
  }

  // ----- Steps of the search -----

  ghost function StateOf(dfs: map<Lit, DFS>, scc: seq<Lit>, live: Live, count: nat): Search {
    Search(dfs, Members(scc), Members(live.open), count)
  }

  /** What the search keeps, `todo` being the working stack. */
  ghost predicate Kept(g: Graph, s: Search, scc: seq<Lit>, todo: seq<Lit>, live: Live, frozen: set<nat>,
                       reprs: map<Lit, Lit>) {
    && Inv(g, s) && SccOk(s, scc) && WorkOk(g, s, todo, live) && Settled(g, s, frozen, reprs)
  }

  /** The state with `x` numbered and on both stacks. */
  ghost function Numbering(s: Search, scc: seq<Lit>, live': Live, x: Lit): Search {
    StateOf(s.dfs[x := DFS(s.count + 1, s.count + 1)], scc + [x], live', s.count + 1)
  }

  lemma NumberingDiscovers(g: Graph, s: Search, scc: seq<Lit>, work: seq<Lit>, live: Live)
    requires SccOk(s, scc) && Listed(s, live) && work != [] && Top(work) in g.nodes && Idx(s, Top(work)) == 0
    requires s.count + 1 < TRAVERSED && Highest(s, Last(live))
    requires s.unfinished != {} ==> Edge(g, Last(live), Top(work))
    ensures var s' := Numbering(s, scc, Newer(work, live), Top(work));
            Discovers(g, s, s', Last(live), Top(work)) && s'.dfs.Keys == s.dfs.Keys + {Top(work)}
  {
    var x := Top(work);
    assert Members(scc + [x]) == s.stack + {x};
    assert Members(live.open + [x]) == s.unfinished + {x};
  }

  lemma DiscoverKept(g: Graph, s: Search, s': Search, scc: seq<Lit>, work: seq<Lit>, live: Live, pushed: seq<Lit>,
                     frozen: set<nat>, reprs: map<Lit, Lit>)
    requires Kept(g, s, scc, work, live, frozen, reprs) && work != []
    requires Discovers(g, s, s', Last(live), Top(work)) && s'.dfs.Keys == s.dfs.Keys + {Top(work)}
    requires forall y :: y in pushed <==> Edge(g, Top(work), y) && Idx(s', y) == 0
    ensures Kept(g, s', scc + [Top(work)], work + pushed, Newer(work, live), frozen, reprs)
    ensures forall y :: Idx(s', y) > 0 <==> y == Top(work) || Idx(s, y) > 0
  {
    DiscoverKeeps(g, s, s', Last(live), Top(work));
    SccGrows(g, s, s', Last(live), Top(work), scc);
    PushKeeps(g, s, s', work, live, pushed);
    DiscoverSettled(g, s, s', Last(live), Top(work), frozen, reprs);
  }

  lemma SccGrows(g: Graph, s: Search, s': Search, last: Lit, x: Lit, scc: seq<Lit>)
    requires SccOk(s, scc) && Numbered(g, s) && Discovers(g, s, s', last, x)
    ensures SccOk(s', scc + [x])
  {
    forall i | 0 <= i < |scc| ensures Idx(s', scc[i]) == Idx(s, scc[i]) <= s.count {
      assert scc[i] in scc;
    }
  }

  lemma PushKeeps(g: Graph, s: Search, s': Search, work: seq<Lit>, live: Live, pushed: seq<Lit>)
    requires Inv(g, s) && WorkOk(g, s, work, live) && work != [] && Discovers(g, s, s', Last(live), Top(work))
    requires forall y :: y in pushed <==> Edge(g, Top(work), y) && Idx(s', y) == 0
    ensures WorkOk(g, s', work + pushed, Newer(work, live))
  {
    assert Top(work) !in live.open;
    TopIsSuccessor(g, work, live);
    NewerLists(g, s, s', work, live);
    forall y | y in pushed ensures y !in live.open && y != Top(work) {
      assert Idx(s, y) == 0;
    }
    PushPlaced(work, live, pushed);
    PushFilled(g, work, live, pushed);
    PushPending(g, s, s', work, live, pushed);
  }

  lemma DiscoverSettled(g: Graph, s: Search, s': Search, last: Lit, x: Lit, frozen: set<nat>, reprs: map<Lit, Lit>)
    requires Discovers(g, s, s', last, x) && Numbered(g, s) && Settled(g, s, frozen, reprs)
    ensures Settled(g, s', frozen, reprs)
  {}

  /** The open nodes without the one on top, if it is open. */
  ghost function Closing(s: Search, todo: seq<Lit>, live: Live): Live
    requires todo != []
  {
    if Top(todo) in s.unfinished && live.open != [] && |live.pos| == |live.open| then Older(live) else live
  }

  ghost function Lowering(s: Search, live: Live, x: Lit, m: nat): Search {
    Search(s.dfs[x := DFS(Idx(s, x), m)], s.stack, Members(live.open), s.count)
  }

  lemma LoweringLowers(g: Graph, s: Search, scc: seq<Lit>, todo: seq<Lit>, live: Live, m: nat,
                       frozen: set<nat>, reprs: map<Lit, Lit>)
    requires Kept(g, s, scc, todo, live, frozen, reprs) && todo != [] && Top(todo) in s.stack
    requires SmallestLow(g, s, Top(todo), m) && m < Idx(s, Top(todo))
    ensures var live' := Closing(s, todo, live);
            var s' := Lowering(s, live', Top(todo), m);
            Lowers(g, s, s', Last(live'), Top(todo), m) && s'.dfs.Keys == s.dfs.Keys
  {
    hide Settled, SccOk, Idx, Low, SmallestLow;
    ClosingTop(g, s, todo, live);
    ClosingMembers(g, s, todo, live);
    LoweringNumbers(s, Closing(s, todo, live), Top(todo), m);
    SuccessorsVisited(g, s, todo, live);
  }

  lemma LoweringNumbers(s: Search, live: Live, x: Lit, m: nat)
    requires Idx(s, x) > 0
    ensures var s' := Lowering(s, live, x, m);
            && (forall y :: Idx(s', y) == Idx(s, y))
            && (forall y :: Low(s', y) == if y == x then m else Low(s, y))
            && s'.dfs.Keys == s.dfs.Keys
  {}

  lemma ClosingTop(g: Graph, s: Search, todo: seq<Lit>, live: Live)
    requires WorkOk(g, s, todo, live) && todo != []
    ensures Top(todo) in s.unfinished ==> Before(g, s, Top(todo), Last(Closing(s, todo, live)))
  {
    if Top(todo) in s.unfinished {
      TopIsLast(g, s, todo, live);
    }
  }

  lemma ClosingMembers(g: Graph, s: Search, todo: seq<Lit>, live: Live)
    requires WorkOk(g, s, todo, live) && todo != []
    ensures Members(Closing(s, todo, live).open) == s.unfinished - {Top(todo)}
  {
    var x, live' := Top(todo), Closing(s, todo, live);
    if x in s.unfinished {
      TopIsLast(g, s, todo, live);
      OlderLists(s, s.(unfinished := s.unfinished - {x}), live);
      assert forall y :: y in live'.open <==> y in s.unfinished - {x};
    }
  }

  lemma SuccessorsVisited(g: Graph, s: Search, todo: seq<Lit>, live: Live)
    requires WorkOk(g, s, todo, live) && todo != [] && Explored(g, s) && Idx(s, Top(todo)) > 0
    ensures forall y | Edge(g, Top(todo), y) :: Idx(s, y) > 0
  {
    if Top(todo) in s.unfinished {
      TopIsLast(g, s, todo, live);
    }
  }

  lemma LowerKept(g: Graph, s: Search, s': Search, scc: seq<Lit>, todo: seq<Lit>, live: Live, m: nat,
                  frozen: set<nat>, reprs: map<Lit, Lit>)
    requires Kept(g, s, scc, todo, live, frozen, reprs) && todo != [] && s'.dfs.Keys == s.dfs.Keys
    requires Lowers(g, s, s', Last(Closing(s, todo, live)), Top(todo), m)
    ensures Kept(g, s', scc, todo[..|todo| - 1], Closing(s, todo, live), frozen, reprs)
    ensures forall y :: Idx(s', y) == Idx(s, y)
  {
    LowerKeeps(g, s, s', Last(Closing(s, todo, live)), Top(todo), m);
    TopGoes(g, s, s', todo, live);
    LowerSettled(g, s, s', Last(Closing(s, todo, live)), Top(todo), m, frozen, reprs);
  }

  lemma TopGoes(g: Graph, s: Search, s': Search, todo: seq<Lit>, live: Live)
    requires WorkOk(g, s, todo, live) && todo != [] && Idx(s, Top(todo)) > 0
    requires s'.unfinished == s.unfinished - {Top(todo)} && forall y :: Idx(s', y) == Idx(s, y)
    ensures WorkOk(g, s', todo[..|todo| - 1], Closing(s, todo, live))
  {
    if Top(todo) in s.unfinished {
      TopIsLast(g, s, todo, live);
      LiveGoes(g, s, s', todo, live);
    } else {
      StaleGoes(g, s, s', todo, live);
    }
  }

  lemma LowerSettled(g: Graph, s: Search, s': Search, prev: Lit, x: Lit, m: nat, frozen: set<nat>, reprs: map<Lit, Lit>)
    requires Lowers(g, s, s', prev, x, m) && Numbered(g, s) && Settled(g, s, frozen, reprs)
    ensures Settled(g, s', frozen, reprs)
  {}

  // ----- Completing a component -----

  /** Every literal of `comp` is traversed and has a representative; nothing else changed. */
  ghost predicate Popped(frozen: set<nat>, dfs0: map<Lit, DFS>, dfs': map<Lit, DFS>,
                         reprs0: map<Lit, Lit>, reprs': map<Lit, Lit>, comp: seq<Lit>, repr: Lit) {
    && (forall y :: Entry(dfs', y).idx == Entry(dfs0, y).idx)
    && (forall y :: Entry(dfs', y).min == if y in comp then TRAVERSED else Entry(dfs0, y).min)
    && dfs'.Keys == dfs0.Keys + Members(comp)
    && (forall y :: y in reprs' <==> y in reprs0 || y in comp)
    && (forall y | y in reprs' ::
          reprs'[y] == if y !in comp then reprs0[y] else if Abs(y) in frozen then y else repr)
  }

  lemma PoppedNone(frozen: set<nat>, dfs: map<Lit, DFS>, reprs: map<Lit, Lit>, repr: Lit)
    ensures Popped(frozen, dfs, dfs, reprs, reprs, [], repr)
  {}

  lemma PoppedMore(frozen: set<nat>, dfs0: map<Lit, DFS>, dfs1: map<Lit, DFS>,
                   reprs0: map<Lit, Lit>, reprs1: map<Lit, Lit>, comp: seq<Lit>, repr: Lit, other: Lit)
    requires Popped(frozen, dfs0, dfs1, reprs0, reprs1, comp, repr)
    ensures Popped(frozen, dfs0, dfs1[other := DFS(Entry(dfs1, other).idx, TRAVERSED)], reprs0,
                   reprs1[other := if Abs(other) in frozen then other else repr], [other] + comp, repr)
  {
    assert forall y :: y in [other] + comp <==> y == other || y in comp;
    assert Members([other] + comp) == {other} + Members(comp);
  }

  /** A node whose number is the smallest minimum is an entry. */
  lemma EntryFacts(g: Graph, s: Search, todo: seq<Lit>, live: Live)
    requires Inv(g, s) && WorkOk(g, s, todo, live) && todo != [] && Top(todo) in s.stack
    requires SmallestLow(g, s, Top(todo), Idx(s, Top(todo)))
    ensures IsEntry(g, s, Top(todo))
  {
    assert Top(todo) in s.unfinished;
    TopIsLast(g, s, todo, live);
  }

  lemma CompletionCompletes(g: Graph, s: Search, scc: seq<Lit>, k: nat, todo: seq<Lit>, live: Live, frozen: set<nat>,
                            reprs: map<Lit, Lit>, dfs': map<Lit, DFS>, reprs': map<Lit, Lit>, repr: Lit)
    requires Kept(g, s, scc, todo, live, frozen, reprs)
    requires todo != [] && k < |scc| && scc[k] == Top(todo) && IsEntry(g, s, Top(todo))
    requires Popped(frozen, s.dfs, dfs', reprs, reprs', scc[k..], repr)
    ensures var s' := StateOf(dfs', scc[..k], Closing(s, todo, live), s.count);
            && Completes(g, s, s', Top(todo)) && s'.dfs.Keys == s.dfs.Keys
            && s'.stack == Members(scc[..k])
    ensures Assigned(s, frozen, reprs, reprs', Top(todo), repr)
  {
    hide Settled, WorkOk, InComponent, IsEntry;
    var x, live' := Top(todo), Closing(s, todo, live);
    ClosingMembers(g, s, todo, live);
    forall y
      ensures (y in scc[k..] <==> InComponent(s, x, y)) && (y in scc[..k] <==> y in s.stack && !InComponent(s, x, y))
    {
      SccAbove(s, scc, k, y);
    }
    PoppedStates(g, s, frozen, reprs, dfs', reprs', scc, k, repr, live', x);
  }

  lemma PoppedStates(g: Graph, s: Search, frozen: set<nat>, reprs: map<Lit, Lit>, dfs': map<Lit, DFS>,
                     reprs': map<Lit, Lit>, scc: seq<Lit>, k: nat, repr: Lit, live': Live, x: Lit)
    requires Numbered(g, s) && IsEntry(g, s, x)
    requires k < |scc| && Popped(frozen, s.dfs, dfs', reprs, reprs', scc[k..], repr)
    requires forall y :: y in scc[k..] <==> InComponent(s, x, y)
    requires forall y :: y in scc[..k] <==> y in s.stack && !InComponent(s, x, y)
    requires Members(live'.open) == s.unfinished - {x}
    ensures var s' := StateOf(dfs', scc[..k], live', s.count);
            Completes(g, s, s', x) && s'.dfs.Keys == s.dfs.Keys
    ensures Assigned(s, frozen, reprs, reprs', x, repr)
  {
    assert forall y | y in scc[k..] :: Idx(s, y) > 0 && y in s.dfs;
  }

  lemma SccShrinks(s: Search, s': Search, scc: seq<Lit>, k: nat)
    requires SccOk(s, scc) && k <= |scc| && s'.stack == Members(scc[..k]) && forall y :: Idx(s', y) == Idx(s, y)
    ensures SccOk(s', scc[..k])
  {}

  lemma CompleteKept(g: Graph, s: Search, s': Search, scc: seq<Lit>, k: nat, todo: seq<Lit>, live: Live,
                     frozen: set<nat>, reprs: map<Lit, Lit>, reprs': map<Lit, Lit>, repr: Lit)
    requires Kept(g, s, scc, todo, live, frozen, reprs) && todo != [] && k < |scc| && Skew(g)
    requires Completes(g, s, s', Top(todo)) && s'.dfs.Keys == s.dfs.Keys && s'.stack == Members(scc[..k])
    requires Assigned(s, frozen, reprs, reprs', Top(todo), repr)
    requires InComponent(s, Top(todo), repr) && !InComponent(s, Top(todo), Neg(Top(todo)))
    requires forall y: Lit | InComponent(s, Top(todo), y) :: Abs(repr) <= Abs(y)
    ensures Kept(g, s', scc[..k], todo[..|todo| - 1], Closing(s, todo, live), frozen, reprs')
    ensures forall y :: Idx(s', y) == Idx(s, y)
  {
    CompleteKeeps(g, s, s', Top(todo));
    SccShrinks(s, s', scc, k);
    TopGoes(g, s, s', todo, live);
    CompleteSettled(g, s, s', frozen, reprs, reprs', Top(todo), repr);
  }

  lemma Place(s: Search, scc: seq<Lit>, x: Lit) returns (k: nat)
    requires SccOk(s, scc) && x in s.stack
    ensures k < |scc| && scc[k] == x && forall i, j | 0 <= i < j < |scc| :: scc[i] != scc[j]
  {
    k :| 0 <= k < |scc| && scc[k] == x;
  }

  // ----- The round -----

  class Decomposer {
    const maxVar: nat
    const activeVars: set<nat>
    const frozenVars: set<nat>
    const watches: map<Lit, seq<Watch>>
    ghost const binaries: seq<Clause>
    ghost const g: Graph

    var dfs: map<Lit, DFS>
    var reprs: map<Lit, Lit>
    var work: seq<Lit>
    var scc: seq<Lit>
    var dfsIdx: nat
    var substituted: nat
    var unsat: bool
    ghost var live: Live

    predicate Active(l: Lit) {
      Abs(l) in activeVars
    }

    function Watches(l: Lit): seq<Watch> {
      if l in watches then watches[l] else []
    }

    /** A binary clause of `a` and `b` is watched. */
    ghost predicate HasBlit(a: Lit, b: Lit) {
      exists i :: 0 <= i < |Watches(a)| && Watches(a)[i] == Watch(true, b)
    }

    /** The watch lists hold the binary clauses, and the graph their implications between
        active literals. */
    ghost predicate Connected() {
      && maxVar <= INT_MAX && (forall v | v in activeVars :: 1 <= v <= maxVar)
      && (forall l: Lit :: l in g.nodes <==> Active(l))
      && (forall x: Lit, y: Lit :: Edge(g, x, y) <==> Active(x) && Active(y) && HasBlit(Neg(x), y))
      && (forall a: Lit, b: Lit :: HasBlit(a, b) <==> [a, b] in binaries || [b, a] in binaries)
    }

    lemma ConnectedIsSkew()
      requires Connected()
      ensures Skew(g) && WellFormed(g)
    {
      forall x, y | Edge(g, x, y) ensures Edge(g, Neg(y), Neg(x)) {
        SameVariable(x, x);
        SameVariable(y, y);
        assert HasBlit(Neg(x), y);
        assert HasBlit(y, Neg(x));
      }
    }

    constructor (maxVar: nat, activeVars: set<nat>, frozenVars: set<nat>, watches: map<Lit, seq<Watch>>,
                 ghost binaries: seq<Clause>)
      requires maxVar <= INT_MAX && forall v | v in activeVars :: 1 <= v <= maxVar
      requires forall a: Lit, b: Lit ::
                 (a in watches && Watch(true, b) in watches[a]) <==> ([a, b] in binaries || [b, a] in binaries)
      ensures Connected() && !unsat
      ensures this.maxVar == maxVar && this.activeVars == activeVars && this.frozenVars == frozenVars
      ensures this.watches == watches && this.binaries == binaries
    {
      this.maxVar, this.activeVars, this.frozenVars := maxVar, activeVars, frozenVars;
      this.watches, this.binaries := watches, binaries;
      ghost var nodes: set<Lit> := set l: int | 0 - maxVar <= l <= maxVar && l != 0 && Abs(l) in activeVars :: l;
      ghost var edges: set<(Lit, Lit)> := set x: Lit, y: Lit |
        x in nodes && y in nodes && Neg(x) in watches && Watch(true, y) in watches[Neg(x)] :: (x, y);
      g := Graph(nodes, edges);
      dfs, reprs, work, scc := map[], map[], [], [];
      dfsIdx, substituted, unsat, live := 0, 0, false, Live([], []);
      new;
      forall a: Lit, b: Lit ensures HasBlit(a, b) <==> a in watches && Watch(true, b) in watches[a] {
        if a in watches && Watch(true, b) in watches[a] {
          var i :| 0 <= i < |watches[a]| && watches[a][i] == Watch(true, b);
          assert Watches(a)[i] == Watch(true, b);
        }
      }
    }

    /** The state of the search. */
    ghost function State(): Search
      reads this
    {
      StateOf(dfs, scc, live, dfsIdx)
    }

    /** What the search keeps, `todo` being the working stack. */
    ghost predicate Searching(todo: seq<Lit>)
      reads this
    {
      && Connected() && substituted == |Substituted(reprs)|
      && Kept(g, State(), scc, todo, live, frozenVars, reprs)
    }

    ghost predicate HasComplementary() {
      exists l :: l in g.nodes && Complementary(g, l)
    }

    lemma StateFields()
      ensures State().dfs == dfs && State().count == dfsIdx
    {}

    // ----- Discovering a literal -----

    /** Push the literals implied by `parent` that were not visited. */
    method PushChildren(parent: Lit) returns (ghost pushed: seq<Lit>)
      requires Connected() && Active(parent)
      modifies this`work
      ensures work == old(work) + pushed
      ensures forall y :: y in pushed <==> Edge(g, parent, y) && Entry(dfs, y).idx == 0
    {
      pushed := [];
      var ws := Watches(Neg(parent));
      SameVariable(parent, parent);
      for i := 0 to |ws|
        invariant work == old(work) + pushed
        invariant forall y | y in pushed :: Edge(g, parent, y) && Entry(dfs, y).idx == 0
        invariant forall k | 0 <= k < i && ws[k].binary && Active(ws[k].blit) && Entry(dfs, ws[k].blit).idx == 0 ::
                    ws[k].blit in pushed
      {
        var w := ws[i];
        if !w.binary {
          continue;
        }
        var child := w.blit;
        if !Active(child) {
          continue;
        }
        assert HasBlit(Neg(parent), child);
        if Entry(dfs, child).idx != 0 {
          continue;
        }
        work := work + [child];
        pushed := pushed + [child];
      }
      forall y | Edge(g, parent, y) && Entry(dfs, y).idx == 0 ensures y in pushed {
        assert HasBlit(Neg(parent), y);
      }
    }

    /** First visit: number the literal and push its children. */
    method PreFix(parent: Lit)
      requires Searching(work) && work != [] && parent == Top(work) && Entry(dfs, parent).idx == 0
      modifies this`dfs, this`scc, this`work, this`dfsIdx, this`live
      ensures Searching(work) && dfsIdx == old(dfsIdx) + 1
      ensures forall y :: Idx(State(), y) > 0 <==> y == parent || Idx(old(State()), y) > 0
    {
      hide Inv, WorkOk, Settled, SccOk, Discovers, Listed, Highest, Substituted, StateOf;
      ghost var s, scc0, live0, work0 := State(), scc, live, work;
      PreFixFacts();
      StateFields();
      dfsIdx := dfsIdx + 1;
      dfs := dfs[parent := DFS(dfsIdx, dfsIdx)];
      scc := scc + [parent];
      live := Newer(work, live);
      ghost var pushed := PushChildren(parent);
      NumberingDiscovers(g, s, scc0, work0, live0);
      assert State() == Numbering(s, scc0, live, parent);
      StateFields();
      DiscoverKept(g, s, State(), scc0, work0, live0, pushed, frozenVars, reprs);
    }

    lemma PreFixFacts()
      requires Searching(work) && work != [] && Entry(dfs, Top(work)).idx == 0
      ensures dfsIdx + 1 < TRAVERSED && Top(work) in g.nodes && Active(Top(work)) && Listed(State(), live)
      ensures Highest(State(), Last(live)) && SccOk(State(), scc) && Idx(State(), Top(work)) == 0
      ensures State().unfinished != {} ==> Edge(g, Last(live), Top(work))
    {
      var s := State();
      assert Top(work) in work;
      NumberLeft(g, s, maxVar, Top(work)) by {
        assert forall l | l in g.nodes :: Active(l);
      }
      LastIsHighest(s, live);
      assert Top(work) !in live.open;
      TopIsSuccessor(g, work, live);
      if h :| h in s.unfinished {
        assert h in live.open;
      }
    }

    // ----- Finishing a literal -----

    /** The smallest of the minima of `parent` and its children. */
    method NewMin(parent: Lit) returns (m: nat)
      requires Connected() && Active(parent)
      ensures SmallestLow(g, State(), parent, m)
    {
      m := Entry(dfs, parent).min;
      var ws := Watches(Neg(parent));
      SameVariable(parent, parent);
      for i := 0 to |ws|
        invariant m <= Low(State(), parent)
        invariant m == Low(State(), parent) || SomeLow(g, State(), parent, m)
        invariant forall k | 0 <= k < i && ws[k].binary && Active(ws[k].blit) :: m <= Low(State(), ws[k].blit)
      {
        var w := ws[i];
        if !w.binary {
          continue;
        }
        var child := w.blit;
        if !Active(child) {
          continue;
        }
        assert HasBlit(Neg(parent), child);
        assert Edge(g, parent, child);
        if m > Entry(dfs, child).min {
          m := Entry(dfs, child).min;
        }
      }
      forall y | Edge(g, parent, y) ensures m <= Low(State(), y) {
        assert HasBlit(Neg(parent), y);
      }
    }

    /** Not the entry of its component: keep it on the stack with its new minimum. */
    method Lower(parent: Lit, m: nat, ghost todo: seq<Lit>)
      requires Searching(todo) && todo != [] && parent == Top(todo) && parent in State().stack
      requires SmallestLow(g, State(), parent, m) && m < Idx(State(), parent)
      modifies this`dfs, this`live
      ensures Searching(todo[..|todo| - 1])
      ensures forall y :: Idx(State(), y) == Idx(old(State()), y)
    {
      hide Inv, WorkOk, Settled, SccOk, Lowers;
      ghost var s, live0 := State(), live;
      LoweringLowers(g, s, scc, todo, live, m, frozenVars, reprs);
      dfs := dfs[parent := DFS(Entry(dfs, parent).idx, m)];
      live := Closing(s, todo, live);
      assert State() == Lowering(s, live, parent, m);
      LowerKept(g, s, State(), scc, todo, live0, m, frozenVars, reprs);
    }

    // ----- Completing a component -----

    /** Look for the negation of the entry in its component, and for the smallest variable. */
    method ScanComponent(parent: Lit, ghost k: nat) returns (repr: Lit)
      requires !unsat && k < |scc| && scc[k] == parent && forall i | k < i < |scc| :: scc[i] != parent
      modifies this`unsat
      ensures unsat <==> Neg(parent) in scc[k..]
      ensures !unsat ==> repr in scc[k..] && forall y | y in scc[k..] :: Abs(repr) <= Abs(y)
    {
      repr := parent;
      SameVariable(parent, parent);
      var j, more := |scc|, true;
      while more
        invariant k <= j <= |scc| && !unsat == (more || j == k) && (more ==> j > k)
        invariant Abs(repr) <= Abs(parent)
        invariant repr in scc[k..] && forall i | j <= i < |scc| :: Abs(repr) <= Abs(scc[i])
        invariant !unsat ==> forall i | j <= i < |scc| :: scc[i] != Neg(parent)
        invariant unsat ==> Neg(parent) in scc[k..]
        decreases j
      {
        j := j - 1;
        var other := scc[j];
        assert scc[k..][j - k] == other;
        if other == Neg(parent) {
          unsat := true;
        } else if Abs(other) < Abs(repr) {
          repr := other;
        }
        more := !unsat && other != parent;
      }
    }

    /** Mark the literal on top of the stack as traversed and give it its representative. */
    method PopOne(repr: Lit) returns (other: Lit)
      requires scc != [] && scc[|scc| - 1] !in reprs && substituted == |Substituted(reprs)|
      modifies this`scc, this`dfs, this`reprs, this`substituted
      ensures other == old(scc)[|old(scc)| - 1] && scc == old(scc)[..|old(scc)| - 1]
      ensures dfs == old(dfs)[other := DFS(Entry(old(dfs), other).idx, TRAVERSED)]
      ensures reprs == old(reprs)[other := if Abs(other) in frozenVars then other else repr]
      ensures substituted == |Substituted(reprs)|
    {
      other := scc[|scc| - 1];
      scc := scc[..|scc| - 1];
      dfs := dfs[other := DFS(Entry(dfs, other).idx, TRAVERSED)];
      ghost var before := Substituted(reprs);
      if Abs(other) in frozenVars {
        reprs := reprs[other := other];
        assert Substituted(reprs) == before;
        return;
      }
      reprs := reprs[other := repr];
      if other == repr {
        assert Substituted(reprs) == before;
        return;
      }
      assert Substituted(reprs) == before + {other};
      substituted := substituted + 1;
    }

    /** Pop the component of `parent` from the stack. */
    method PopComponent(parent: Lit, repr: Lit, ghost k: nat)
      requires k < |scc| && scc[k] == parent && substituted == |Substituted(reprs)|
      requires forall i, j | 0 <= i < j < |scc| :: scc[i] != scc[j]
      requires forall y | y in scc :: y !in reprs
      modifies this`scc, this`dfs, this`reprs, this`substituted
      ensures scc == old(scc)[..k] && substituted == |Substituted(reprs)|
      ensures Popped(frozenVars, old(dfs), dfs, old(reprs), reprs, old(scc)[k..], repr)
    {
      hide Popped, Substituted;
      var other: int := 0;
      ghost var scc0 := scc;
      assert scc0[|scc|..] == [];
      PoppedNone(frozenVars, dfs, reprs, repr);
      var more := true;
      while more
        invariant k <= |scc| <= |scc0| && scc == scc0[..|scc|] && more == (|scc| > k)
        invariant substituted == |Substituted(reprs)|
        invariant Popped(frozenVars, old(dfs), dfs, old(reprs), reprs, scc0[|scc|..], repr)
        invariant forall i | 0 <= i < |scc| :: scc0[i] !in reprs
        decreases |scc|
      {
        ghost var n, dfs1, reprs1 := |scc|, dfs, reprs;
        other := PopOne(repr);
        assert scc0[n - 1..] == [other] + scc0[n..];
        PoppedMore(frozenVars, old(dfs), dfs1, old(reprs), reprs1, scc0[n..], repr, other);
        more := other != parent;
      }
    }

    /** The component as scanned: what the stack above the entry means. */
    lemma Scanned(todo: seq<Lit>, k: nat)
      requires Searching(todo) && todo != [] && k < |scc| && scc[k] == Top(todo) && IsEntry(g, State(), Top(todo))
      ensures forall y :: y in scc[k..] <==> InComponent(State(), Top(todo), y)
      ensures Neg(Top(todo)) in scc[k..] ==> HasComplementary()
      ensures forall y | y in scc :: y !in reprs
    {
      var s, x := State(), Top(todo);
      forall y ensures y in scc[k..] <==> InComponent(s, x, y) {
        SccAbove(s, scc, k, y);
      }
      if Neg(x) in scc[k..] {
        ComponentExact(g, s, x, Neg(x));
        assert x in g.nodes && Complementary(g, x);
      }
    }

    /** The entry of a component: give its literals their representative, unless it has a
        literal with its negation. */
    method Complete(parent: Lit, ghost todo: seq<Lit>)
      requires Searching(todo) && todo != [] && parent == Top(todo) && parent in State().stack && !unsat
      requires SmallestLow(g, State(), parent, Idx(State(), parent))
      modifies this`dfs, this`live, this`scc, this`reprs, this`substituted, this`unsat
      ensures unsat ==> HasComplementary()
      ensures !unsat ==> Searching(todo[..|todo| - 1]) && forall y :: Idx(State(), y) == Idx(old(State()), y)
    {
      ConnectedIsSkew();
      EntryFacts(g, State(), todo, live);
      ghost var k := Place(State(), scc, parent);
      Scanned(todo, k);
      CompleteAt(parent, todo, k);
    }

    method CompleteAt(parent: Lit, ghost todo: seq<Lit>, ghost k: nat)
      requires Searching(todo) && todo != [] && parent == Top(todo) && !unsat && Skew(g)
      requires IsEntry(g, State(), parent) && k < |scc| && scc[k] == parent
      requires forall i, j | 0 <= i < j < |scc| :: scc[i] != scc[j]
      requires forall y :: y in scc[k..] <==> InComponent(State(), parent, y)
      requires Neg(parent) in scc[k..] ==> HasComplementary()
      requires forall y | y in scc :: y !in reprs
      modifies this`dfs, this`live, this`scc, this`reprs, this`substituted, this`unsat
      ensures unsat ==> HasComplementary()
      ensures !unsat ==> Searching(todo[..|todo| - 1]) && forall y :: Idx(State(), y) == Idx(old(State()), y)
    {
      hide Inv, WorkOk, Settled, SccOk, Completes, Popped, IsEntry, Assigned, Substituted, StateOf,
        Connected, HasComplementary, InComponent, Idx, Closing;
      ghost var s, scc0, live0, reprs0 := State(), scc, live, reprs;
      StateFields();
      var repr := ScanComponent(parent, k);
      if unsat {
        return;
      }
      PopComponent(parent, repr, k);
      CompletionCompletes(g, s, scc0, k, todo, live0, frozenVars, reprs0, dfs, reprs, repr);
      live := Closing(s, todo, live);
      CompleteKept(g, s, State(), scc0, k, todo, live0, frozenVars, reprs0, reprs, repr);
    }

    lemma TopFacts(todo: seq<Lit>)
      requires Searching(todo) && todo != [] && Top(todo) in State().stack
      ensures Active(Top(todo)) && Low(State(), Top(todo)) <= Idx(State(), Top(todo))
    {
      assert Top(todo) in g.nodes;
    }

    /** All successors were visited. */
    method PostFix(parent: Lit)
      requires Searching(work) && work != [] && parent == Top(work) && parent in State().stack && !unsat
      modifies this`dfs, this`live, this`scc, this`reprs, this`substituted, this`unsat, this`work
      ensures unsat ==> HasComplementary()
      ensures !unsat ==> Searching(work) && work == old(work)[..|old(work)| - 1] && dfsIdx == old(dfsIdx)
      ensures !unsat ==> forall y :: Idx(State(), y) == Idx(old(State()), y)
    {
      hide Inv, WorkOk, Settled, SccOk;
      ghost var todo := work;
      TopFacts(todo);
      work := work[..|work| - 1];
      var newMin := NewMin(parent);
      if Entry(dfs, parent).idx == newMin {
        Complete(parent, todo);
      } else {
        Lower(parent, newMin, todo);
      }
    }

    // ----- The whole search -----

    lemma SkipKeeps(todo: seq<Lit>)
      requires Searching(todo) && todo != [] && Done(State(), Top(todo))
      ensures Searching(todo[..|todo| - 1])
    {
      StaleGoes(g, State(), State(), todo, live);
    }

    /** One turn of the main loop. */
    method VisitTop()
      requires Searching(work) && work != [] && !unsat
      modifies this`dfs, this`live, this`scc, this`reprs, this`substituted, this`unsat, this`work, this`dfsIdx
      ensures unsat ==> HasComplementary()
      ensures !unsat ==> Searching(work)
      ensures !unsat ==> dfsIdx > old(dfsIdx) || (dfsIdx == old(dfsIdx) && |work| < |old(work)|)
      ensures !unsat ==> forall y | Idx(old(State()), y) > 0 || y == Top(old(work)) :: Idx(State(), y) > 0
    {
      hide WorkOk, Settled, SccOk;
      var parent := work[|work| - 1];
      if Entry(dfs, parent).min == TRAVERSED {
        SkipKeeps(work);
        work := work[..|work| - 1];
      } else if Entry(dfs, parent).idx != 0 {
        PostFix(parent);
      } else {
        PreFix(parent);
      }
    }

    /** Nothing is on the stacks, and every literal with a number is traversed. */
    lemma AllTraversed()
      requires Searching([])
      ensures live.open == [] && forall y | Idx(State(), y) > 0 :: Done(State(), y)
    {
      NothingLeft(g, State(), live);
    }

    lemma StartKeeps(root: Lit)
      requires Searching([]) && root in g.nodes && live.open == []
      ensures Searching([root])
    {
      forall i: nat, k: nat ensures Fills(g, [root], live, i, k) {}
    }

    lemma CountBounded(todo: seq<Lit>)
      requires Searching(todo)
      ensures dfsIdx <= |g.nodes|
    {
      SubsetSize(Visited(State()), g.nodes);
    }

    /** A search from a literal that was not traversed. */
    method SearchFrom(root: Lit)
      requires Searching([]) && work == [] && root in g.nodes && !unsat
      modifies this`dfs, this`live, this`scc, this`reprs, this`substituted, this`unsat, this`work, this`dfsIdx
      ensures unsat ==> HasComplementary()
      ensures !unsat ==> Searching([]) && work == []
      ensures !unsat ==> forall y | Idx(old(State()), y) > 0 || y == root :: Idx(State(), y) > 0
    {
      hide Inv, WorkOk, Settled, SccOk, Idx, Connected, Substituted;
      AllTraversed();
      StartKeeps(root);
      work := work + [root];
      assert work == [root];
      while !unsat && work != []
        invariant unsat ==> HasComplementary()
        invariant !unsat ==> Searching(work)
        invariant !unsat ==> forall y | Idx(old(State()), y) > 0 :: Idx(State(), y) > 0
        invariant !unsat ==> Idx(State(), root) > 0 || work == [root]
        decreases !unsat, |g.nodes| - dfsIdx, |work|
      {
        CountBounded(work);
        VisitTop();
        if !unsat {
          CountBounded(work);
        }
      }
    }

    lemma FreshState()
      requires Connected() && WellFormed(g) && dfs == map[] && reprs == map[] && scc == [] && dfsIdx == 0
      requires live == Live([], []) && substituted == 0
      ensures Searching([])
    {
      forall i: nat, k: nat ensures Fills(g, [], live, i, k) {}
      assert Visited(State()) == {};
      assert Substituted(reprs) == {};
    }

    /** Every active literal has a representative, and there are as many substituted literals
        as counted. */
    ghost predicate Represented()
      reads this
    {
      && (forall x :: x in reprs <==> x in g.nodes)
      && (forall x | x in g.nodes :: ReprOk(g, frozenVars, reprs, x))
      && substituted == |Substituted(reprs)|
    }

    lemma RoundOver()
      requires Searching([]) && forall x | x in g.nodes :: Idx(State(), x) > 0
      ensures Represented() && !HasComplementary()
    {
      AllTraversed();
    }

    /** Search from every active literal that was not traversed. */
    method DecomposeRound()
      requires Connected()
      modifies this
      ensures old(unsat) ==> unsat
      ensures !old(unsat) ==> (unsat <==> HasComplementary())
      ensures !unsat ==> Represented()
    {
      hide Inv, WorkOk, Settled, SccOk, Idx, Substituted;
      if unsat {
        return;
      }
      ConnectedIsSkew();
      dfs, reprs, work, scc := map[], map[], [], [];
      dfsIdx, substituted, live := 0, 0, Live([], []);
      FreshState();
      var rootIdx := 1;
      while rootIdx <= maxVar
        invariant 1 <= rootIdx <= maxVar + 1
        invariant unsat ==> HasComplementary()
        invariant !unsat ==> Searching([]) && work == []
        invariant !unsat ==> forall x: Lit | x in g.nodes && Abs(x) < rootIdx :: Idx(State(), x) > 0
        decreases maxVar - rootIdx
      {
        if unsat {
          break;
        }
        if rootIdx in activeVars {
          SearchVariable(rootIdx);
        }
        rootIdx := rootIdx + 1;
      }
      if !unsat {
        RoundOver();
      }
    }

    /** The negative literal of a variable, then the positive one. */
    method SearchVariable(rootIdx: nat)
      requires Searching([]) && work == [] && !unsat && rootIdx in activeVars
      modifies this`dfs, this`live, this`scc, this`reprs, this`substituted, this`unsat, this`work, this`dfsIdx
      ensures unsat ==> HasComplementary()
      ensures !unsat ==> Searching([]) && work == []
      ensures !unsat ==> forall y: Lit | Idx(old(State()), y) > 0 || Abs(y) == rootIdx :: Idx(State(), y) > 0
    {
      hide Inv, WorkOk, Settled, SccOk, Substituted;
      var rootSign := -1;
      while !unsat && rootSign <= 1
        invariant rootSign == -1 || rootSign == 1 || rootSign == 3
        invariant unsat ==> HasComplementary()
        invariant !unsat ==> Searching([]) && work == []
        invariant !unsat ==> forall y | Idx(old(State()), y) > 0 :: Idx(State(), y) > 0
        invariant !unsat && rootSign > -1 ==> Idx(State(), 0 - rootIdx) > 0
        invariant !unsat && rootSign > 1 ==> Idx(State(), rootIdx) > 0
        decreases !unsat, 3 - rootSign
      {
        var root: Lit := if rootSign == -1 then 0 - rootIdx else rootIdx;
        rootSign := rootSign + 2;
        if Entry(dfs, root).min != TRAVERSED {
          SearchFrom(root);
        } else {
          TraversedIsVisited(root);
        }
      }
    }

    lemma TraversedIsVisited(root: Lit)
      requires Searching([]) && Done(State(), root)
      ensures Idx(State(), root) > 0
    {}

    // ----- What the representatives say about the formula -----

    /** In every model of the binary clauses a literal has the value of its representative. */
    lemma ReprsRespectModels(m: Assignment, x: Lit)
      requires Connected() && Represented() && x in g.nodes && Models(m, binaries)
      ensures True(m, x) <==> True(m, reprs[x])
    {
      BinariesRespected(m);
      assert ReprOk(g, frozenVars, reprs, x);
      if Abs(x) !in frozenVars {
        ReachRespected(m, g, x, reprs[x]);
        ReachRespected(m, g, reprs[x], x);
      }
    }

    lemma BinariesRespected(m: Assignment)
      requires Connected() && Models(m, binaries)
      ensures Respects(m, g)
    {
      forall x, y | Edge(g, x, y) && True(m, x) ensures True(m, y) {
        SameVariable(x, x);
        assert HasBlit(Neg(x), y);
        assert Holds(m, [Neg(x), y]) || Holds(m, [y, Neg(x)]);
      }
    }

    /** A literal equivalent to its negation leaves no model. */
    lemma ComplementaryIsUnsatisfiable()
      requires Connected() && HasComplementary()
      ensures !Satisfiable(binaries, [])
    {
      var l :| l in g.nodes && Complementary(g, l);
      forall m: Assignment ensures !Models(m, binaries) {
        if Models(m, binaries) {
          BinariesRespected(m);
          ReachRespected(m, g, l, Neg(l));
          ReachRespected(m, g, Neg(l), l);
        }
      }
    }
  }

  // ----- Laws of representatives -----

  /** The representative of the negation is the negation of the representative. */
  lemma ReprsOdd(g: Graph, frozen: set<nat>, reprs: map<Lit, Lit>, x: Lit)
    requires Skew(g) && !Complementary(g, x)
    requires ReprOk(g, frozen, reprs, x) && ReprOk(g, frozen, reprs, Neg(x))
    ensures reprs[Neg(x)] == Neg(reprs[x])
  {
    SameVariable(x, x);
    if Abs(x) !in frozen {
      var r, r' := reprs[x], reprs[Neg(x)];
      SkewEquivalent(g, x, r);
      SkewEquivalent(g, Neg(x), r');
      assert Equivalent(g, Neg(x), Neg(r)) && Equivalent(g, x, Neg(r'));
      SameVariable(r', r);
      if r' == r {
        EquivalentTrans(g, x, r, Neg(x));
      }
    }
  }

  /** Literals of one component that are not frozen have the same representative. */
  lemma ReprsSame(g: Graph, frozen: set<nat>, reprs: map<Lit, Lit>, x: Lit, y: Lit)
    requires Skew(g) && !Complementary(g, x) && Equivalent(g, x, y)
    requires ReprOk(g, frozen, reprs, x) && ReprOk(g, frozen, reprs, y) && Abs(x) !in frozen && Abs(y) !in frozen
    ensures reprs[x] == reprs[y]
  {
    var r, r' := reprs[x], reprs[y];
    EquivalentTrans(g, x, y, r');
    EquivalentTrans(g, y, x, r);
    SameVariable(r, r');
    if r != r' {
      ComplementSpreads(g, r, x) by {
        EquivalentTrans(g, r, x, r');
        assert r' == Neg(r);
      }
    }
  }
}
