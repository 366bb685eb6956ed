/** The depth first search for strongly connected components, as sets of numbered nodes, and
    why each of its steps keeps the invariant. */
module Tarjan {
  import opened Sat
  import opened BinaryGraph

  const TRAVERSED: nat := 0xFFFF_FFFF

  datatype DFS = DFS(idx: nat, min: nat)

  /** `stack` are the numbered nodes whose component is not complete, and `unfinished` those of
      them whose successors are still being visited. */
  datatype Search = Search(dfs: map<Lit, DFS>, stack: set<Lit>, unfinished: set<Lit>, count: nat)

  function Entry(dfs: map<Lit, DFS>, x: Lit): DFS {
    if x in dfs then dfs[x] else DFS(0, 0)
  }

  function Idx(s: Search, x: Lit): nat {
    Entry(s.dfs, x).idx
  }

  function Low(s: Search, x: Lit): nat {
    Entry(s.dfs, x).min
  }

  ghost predicate Done(s: Search, x: Lit) {
    Low(s, x) == TRAVERSED
  }

  // ----- The invariant -----

  /** Visited nodes are on the stack or traversed, and the stack has different numbers. */
  ghost predicate Numbered(g: Graph, s: Search) {
    && s.count < TRAVERSED
    && (forall x | x in s.stack :: x in g.nodes && 0 < Idx(s, x) <= s.count)
    && (forall x | x in s.stack :: Low(s, x) <= Idx(s, x) && !Done(s, x))
    && (forall x | Idx(s, x) > 0 :: x in s.stack || Done(s, x))
    && (forall x | Done(s, x) :: Idx(s, x) > 0)
  }

  ghost predicate Injective(s: Search) {
    forall x, y | x in s.stack && y in s.stack && Idx(s, x) == Idx(s, y) :: x == y
  }

  /** Everything reachable from a traversed node is traversed. */
  ghost predicate DoneClosed(g: Graph, s: Search) {
    forall x, y | Edge(g, x, y) && Done(s, x) :: Done(s, y)
  }

  /** Finished nodes have no unvisited successors. */
  ghost predicate Explored(g: Graph, s: Search) {
    forall x, y | Edge(g, x, y) && Idx(s, x) > 0 && x !in s.unfinished :: Idx(s, y) > 0
  }

  /** The minimum of a node is the number of a node of the stack reachable from it. */
  ghost predicate LowReached(g: Graph, s: Search) {
    forall x {:trigger ReachesIdx(g, s, x, Low(s, x))} | x in s.stack :: ReachesIdx(g, s, x, Low(s, x))
  }

  ghost predicate ReachesIdx(g: Graph, s: Search, x: Lit, k: nat) {
    exists z :: z in s.stack && Idx(s, z) == k && Reach(g, x, z)
  }

  ghost predicate Opened(s: Search) {
    && s.unfinished <= s.stack
    && forall x | x in s.stack :: x in s.unfinished <==> Low(s, x) == Idx(s, x)
  }

  /** An open node reaches everything above it on the stack. */
  ghost predicate OpenReach(g: Graph, s: Search) {
    forall h, y | h in s.unfinished && y in s.stack && Idx(s, h) <= Idx(s, y) :: Reach(g, h, y)
  }

  /** Every node of the stack reaches an open node that is not above it. */
  ghost predicate Anchored(g: Graph, s: Search) {
    forall y {:trigger Anchor(g, s, y)} | y in s.stack :: Anchor(g, s, y)
  }

  ghost predicate Anchor(g: Graph, s: Search, y: Lit) {
    exists h :: h in s.unfinished && Idx(s, h) <= Idx(s, y) && Reach(g, y, h)
  }

  /** `h` is the last open node not above `w`. */
  ghost predicate Closest(s: Search, h: Lit, w: Lit) {
    && h in s.unfinished && Idx(s, h) <= Idx(s, w)
    && forall k | k in s.unfinished && Idx(s, k) <= Idx(s, w) :: Idx(s, k) <= Idx(s, h)
  }

  /** Some successor of `h` knows a way to number `k` or below. */
  ghost predicate Escape(g: Graph, s: Search, h: Lit, k: nat) {
    exists c :: c in s.stack && Edge(g, h, c) && Low(s, c) <= k
  }

  /** An edge from a finished node to one below its closest open node is known to a successor
      of that open node. */
  ghost predicate Escapes(g: Graph, s: Search) {
    forall h, w, z {:trigger Closest(s, h, w), Edge(g, w, z)}
      | Closest(s, h, w) && Leaves(s, h, w, z) && Edge(g, w, z) :: Escape(g, s, h, Idx(s, z))
  }

  ghost predicate Leaves(s: Search, h: Lit, w: Lit, z: Lit) {
    w in s.stack && w !in s.unfinished && z in s.stack && Idx(s, z) < Idx(s, h)
  }

  ghost function Visited(s: Search): set<Lit> {
    set x | x in s.dfs && Idx(s, x) > 0
  }

  ghost predicate Counted(g: Graph, s: Search) {
    && s.dfs.Keys <= g.nodes && |Visited(s)| == s.count
  }

  ghost predicate Inv(g: Graph, s: Search) {
    && WellFormed(g) && Counted(g, s) && Numbered(g, s) && Injective(s)
    && DoneClosed(g, s) && Explored(g, s)
    && LowReached(g, s) && Opened(s) && OpenReach(g, s) && Anchored(g, s) && Escapes(g, s)
  }

  // ----- Discovering a node -----

  /** The open node with the highest number, if there is one. */
  ghost predicate Highest(s: Search, top: Lit) {
    s.unfinished != {} ==> top in s.unfinished && forall k | k in s.unfinished :: Idx(s, k) <= Idx(s, top)
  }

  /** `x` was not visited, and is a successor of the last open node. */
  ghost predicate Discovers(g: Graph, s: Search, s': Search, top: Lit, x: Lit) {
    && x in g.nodes && Idx(s, x) == 0 && s.count + 1 < TRAVERSED
    && Highest(s, top) && (s.unfinished != {} ==> Edge(g, top, x))
    && (forall y :: Idx(s', y) == if y == x then s.count + 1 else Idx(s, y))
    && (forall y :: Low(s', y) == if y == x then s.count + 1 else Low(s, y))
    && s'.stack == s.stack + {x} && s'.unfinished == s.unfinished + {x} && s'.count == s.count + 1
  }

  lemma DiscoverNumbered(g: Graph, s: Search, s': Search, top: Lit, x: Lit)
    requires Discovers(g, s, s', top, x) && Numbered(g, s)
    ensures Numbered(g, s') && x !in s.stack
  {}

  lemma DiscoverInjective(g: Graph, s: Search, s': Search, top: Lit, x: Lit)
    requires Discovers(g, s, s', top, x) && Numbered(g, s) && Injective(s)
    ensures Injective(s')
  {}

  lemma DiscoverCounted(g: Graph, s: Search, s': Search, x: Lit)
    requires x in g.nodes && Idx(s, x) == 0 && s'.dfs.Keys == s.dfs.Keys + {x} && s'.count == s.count + 1
    requires forall y :: Idx(s', y) > 0 <==> y == x || Idx(s, y) > 0
    requires Counted(g, s)
    ensures Counted(g, s')
  {
    assert Visited(s') == Visited(s) + {x};
  }

  lemma DiscoverLow(g: Graph, s: Search, s': Search, top: Lit, x: Lit)
    requires Discovers(g, s, s', top, x) && Numbered(g, s) && LowReached(g, s)
    ensures LowReached(g, s')
  {
    forall y | y in s'.stack ensures ReachesIdx(g, s', y, Low(s', y)) {
      if y in s.stack {
        assert ReachesIdx(g, s, y, Low(s, y));
        var z :| z in s.stack && Idx(s, z) == Low(s, y) && Reach(g, y, z);
        assert z in s'.stack && Idx(s', z) == Low(s', y);
      } else {
        ReachSelf(g, y);
      }
    }
  }

  lemma DiscoverOpened(g: Graph, s: Search, s': Search, top: Lit, x: Lit)
    requires Discovers(g, s, s', top, x) && Numbered(g, s) && Opened(s)
    ensures Opened(s')
  {}

  lemma DiscoverReach(g: Graph, s: Search, s': Search, top: Lit, x: Lit)
    requires Discovers(g, s, s', top, x) && Numbered(g, s) && Opened(s) && OpenReach(g, s)
    ensures OpenReach(g, s')
  {
    ReachSelf(g, x);
    forall h | h in s.unfinished ensures Reach(g, h, x) {
      ReachEdge(g, top, x);
      ReachTrans(g, h, top, x);
    }
  }

  lemma DiscoverAnchored(g: Graph, s: Search, s': Search, top: Lit, x: Lit)
    requires Discovers(g, s, s', top, x) && Numbered(g, s) && Opened(s) && Anchored(g, s)
    ensures Anchored(g, s')
  {
    forall y | y in s'.stack ensures Anchor(g, s', y) {
      if y in s.stack {
        assert Anchor(g, s, y);
        var h :| h in s.unfinished && Idx(s, h) <= Idx(s, y) && Reach(g, y, h);
        assert h in s'.unfinished && Idx(s', h) <= Idx(s', y);
      } else {
        ReachSelf(g, y);
      }
    }
  }

  lemma DiscoverExplored(g: Graph, s: Search, s': Search, top: Lit, x: Lit)
    requires Discovers(g, s, s', top, x) && Numbered(g, s) && DoneClosed(g, s) && Explored(g, s)
    ensures DoneClosed(g, s') && Explored(g, s')
  {}

  lemma DiscoverEscapes(g: Graph, s: Search, s': Search, top: Lit, x: Lit)
    requires Discovers(g, s, s', top, x) && Numbered(g, s) && Opened(s) && Explored(g, s) && Escapes(g, s)
    ensures Escapes(g, s')
  {
    forall h, w, z {:trigger Closest(s', h, w), Edge(g, w, z)}
      | Closest(s', h, w) && Leaves(s', h, w, z) && Edge(g, w, z)
      ensures Escape(g, s', h, Idx(s', z))
    {
      assert Closest(s, h, w) && Leaves(s, h, w, z);
      var c :| c in s.stack && Edge(g, h, c) && Low(s, c) <= Idx(s, z);
      assert c in s'.stack && Low(s', c) == Low(s, c);
    }
  }

  lemma DiscoverKeeps(g: Graph, s: Search, s': Search, top: Lit, x: Lit)
    requires Inv(g, s) && Discovers(g, s, s', top, x) && s'.dfs.Keys == s.dfs.Keys + {x}
    ensures Inv(g, s')
  {
    DiscoverNumbered(g, s, s', top, x);
    DiscoverCounted(g, s, s', x);
    DiscoverInjective(g, s, s', top, x);
    DiscoverOpened(g, s, s', top, x);
    DiscoverLow(g, s, s', top, x);
    DiscoverReach(g, s, s', top, x);
    DiscoverAnchored(g, s, s', top, x);
    DiscoverExplored(g, s, s', top, x);
    DiscoverEscapes(g, s, s', top, x);
  }

  // ----- Lowering the minimum of a node that is not an entry -----

  /** `m` is the smallest of the minima of `x` and its successors. */
  ghost predicate SmallestLow(g: Graph, s: Search, x: Lit, m: nat) {
    && m <= Low(s, x)
    && (forall y | Edge(g, x, y) :: m <= Low(s, y))
    && (m == Low(s, x) || SomeLow(g, s, x, m))
  }

  ghost predicate SomeLow(g: Graph, s: Search, x: Lit, m: nat) {
    exists y :: Edge(g, x, y) && Low(s, y) == m
  }

  /** Of the open nodes other than `x`, the last one is `prev`, and it has an edge to `x`. */
  ghost predicate Before(g: Graph, s: Search, x: Lit, prev: Lit) {
    && Highest(s, x)
    && (s.unfinished != {x} ==> prev in s.unfinished && prev != x && Edge(g, prev, x))
    && (forall k | k in s.unfinished && k != x :: Idx(s, k) <= Idx(s, prev))
  }

  /** `x` gets the minimum `m`, which is below its own number, and is finished. */
  ghost predicate Lowers(g: Graph, s: Search, s': Search, prev: Lit, x: Lit, m: nat) {
    && x in s.stack && m < Idx(s, x) && SmallestLow(g, s, x, m)
    && (forall y | Edge(g, x, y) :: Idx(s, y) > 0)
    && (x in s.unfinished ==> Before(g, s, x, prev))
    && (forall y :: Idx(s', y) == Idx(s, y))
    && (forall y :: Low(s', y) == if y == x then m else Low(s, y))
    && s'.stack == s.stack && s'.unfinished == s.unfinished - {x} && s'.count == s.count
  }

  lemma LowerNumbered(g: Graph, s: Search, s': Search, prev: Lit, x: Lit, m: nat)
    requires Lowers(g, s, s', prev, x, m) && Numbered(g, s) && Injective(s) && Opened(s)
    ensures Numbered(g, s') && Injective(s') && Opened(s')
  {}

  lemma LowerExplored(g: Graph, s: Search, s': Search, prev: Lit, x: Lit, m: nat)
    requires Lowers(g, s, s', prev, x, m) && Numbered(g, s) && DoneClosed(g, s) && Explored(g, s)
    ensures DoneClosed(g, s') && Explored(g, s')
  {}

  lemma LowerReaches(g: Graph, s: Search, s': Search, prev: Lit, x: Lit, m: nat)
    requires Lowers(g, s, s', prev, x, m) && Numbered(g, s) && LowReached(g, s)
    ensures ReachesIdx(g, s, x, m)
  {
    assert ReachesIdx(g, s, x, Low(s, x));
    if m != Low(s, x) {
      var c :| Edge(g, x, c) && Low(s, c) == m;
      assert c in s.stack && ReachesIdx(g, s, c, Low(s, c));
      var z :| z in s.stack && Idx(s, z) == m && Reach(g, c, z);
      ReachEdge(g, x, c);
      ReachTrans(g, x, c, z);
    }
  }

  lemma LowerLow(g: Graph, s: Search, s': Search, prev: Lit, x: Lit, m: nat)
    requires Lowers(g, s, s', prev, x, m) && Numbered(g, s) && LowReached(g, s)
    ensures LowReached(g, s')
  {
    forall y | y in s'.stack ensures ReachesIdx(g, s', y, Low(s', y)) {
      LowerReaches(g, s, s', prev, x, m);
      assert ReachesIdx(g, s, y, Low(s, y));
      var z :| z in s.stack && Idx(s, z) == Low(s', y) && Reach(g, y, z);
      assert z in s'.stack && Idx(s', z) == Low(s', y);
    }
  }

  /** The node reaches an open node below itself. */
  lemma LowerAnchor(g: Graph, s: Search, s': Search, prev: Lit, x: Lit, m: nat) returns (h: Lit)
    requires Lowers(g, s, s', prev, x, m) && Numbered(g, s) && LowReached(g, s) && Anchored(g, s)
    ensures h in s'.unfinished && Idx(s, h) < Idx(s, x) && Reach(g, x, h)
  {
    LowerReaches(g, s, s', prev, x, m);
    var z :| z in s.stack && Idx(s, z) == m && Reach(g, x, z);
    assert Anchor(g, s, z);
    h :| h in s.unfinished && Idx(s, h) <= Idx(s, z) && Reach(g, z, h);
    ReachTrans(g, x, z, h);
  }

  lemma LowerAnchored(g: Graph, s: Search, s': Search, prev: Lit, x: Lit, m: nat)
    requires Lowers(g, s, s', prev, x, m) && Numbered(g, s) && LowReached(g, s) && OpenReach(g, s) && Anchored(g, s)
    ensures OpenReach(g, s') && Anchored(g, s')
  {
    var low := LowerAnchor(g, s, s', prev, x, m);
    forall y | y in s'.stack ensures Anchor(g, s', y) {
      assert Anchor(g, s, y);
      var h :| h in s.unfinished && Idx(s, h) <= Idx(s, y) && Reach(g, y, h);
      if h == x {
        ReachTrans(g, y, x, low);
        assert low in s'.unfinished && Idx(s', low) <= Idx(s', y);
      } else {
        assert h in s'.unfinished && Idx(s', h) <= Idx(s', y);
      }
    }
  }

  lemma LowerEscapes(g: Graph, s: Search, s': Search, prev: Lit, x: Lit, m: nat)
    requires Lowers(g, s, s', prev, x, m) && Numbered(g, s) && Injective(s) && Opened(s) && Escapes(g, s)
    ensures Escapes(g, s')
  {
    forall h, w, z {:trigger Closest(s', h, w), Edge(g, w, z)}
      | Closest(s', h, w) && Leaves(s', h, w, z) && Edge(g, w, z)
      ensures Escape(g, s', h, Idx(s', z))
    {
      if x in s.unfinished && Idx(s, x) <= Idx(s, w) {
        LowerTakesOver(g, s, s', prev, x, m, h, w, z);
      } else {
        assert Closest(s, h, w) && Leaves(s, h, w, z);
        EscapeStays(g, s, s', prev, x, m, h, Idx(s, z));
      }
    }
  }

  lemma EscapeStays(g: Graph, s: Search, s': Search, prev: Lit, x: Lit, m: nat, h: Lit, k: nat)
    requires Lowers(g, s, s', prev, x, m) && Escape(g, s, h, k)
    ensures Escape(g, s', h, k)
  {
    var c :| c in s.stack && Edge(g, h, c) && Low(s, c) <= k;
    assert c in s'.stack && Low(s', c) <= k;
  }

  /** What was known to the successors of `x` is now known to `x`, a successor of the open
      node before it. */
  lemma LowerTakesOver(g: Graph, s: Search, s': Search, prev: Lit, x: Lit, m: nat, h: Lit, w: Lit, z: Lit)
    requires Lowers(g, s, s', prev, x, m) && Numbered(g, s) && Injective(s) && Opened(s) && Escapes(g, s)
    requires x in s.unfinished && Idx(s, x) <= Idx(s, w)
    requires Closest(s', h, w) && Leaves(s', h, w, z) && Edge(g, w, z)
    ensures Escape(g, s', h, Idx(s', z))
  {
    assert prev in s'.unfinished && Idx(s', prev) <= Idx(s', w);
    assert h == prev;
    if w != x {
      assert Closest(s, x, w) && Leaves(s, x, w, z);
      var c :| c in s.stack && Edge(g, x, c) && Low(s, c) <= Idx(s, z);
    }
    assert m <= Idx(s, z);
    assert x in s'.stack && Edge(g, h, x) && Low(s', x) == m;
  }

  lemma LowerKeeps(g: Graph, s: Search, s': Search, prev: Lit, x: Lit, m: nat)
    requires Inv(g, s) && Lowers(g, s, s', prev, x, m) && s'.dfs.Keys == s.dfs.Keys
    ensures Inv(g, s')
  {
    LowerNumbered(g, s, s', prev, x, m);
    LowerExplored(g, s, s', prev, x, m);
    LowerLow(g, s, s', prev, x, m);
    LowerAnchored(g, s, s', prev, x, m);
    LowerEscapes(g, s, s', prev, x, m);
    SameVisited(s, s');
  }

  lemma SameVisited(s: Search, s': Search)
    requires s'.dfs.Keys == s.dfs.Keys && forall y :: Idx(s', y) == Idx(s, y)
    ensures Visited(s') == Visited(s)
  {}

  // ----- Completing a component -----

  ghost predicate InComponent(s: Search, x: Lit, y: Lit) {
    y in s.stack && Idx(s, x) <= Idx(s, y)
  }

  /** `x` is the last open node and an entry: no successor has a minimum below its number. */
  ghost predicate IsEntry(g: Graph, s: Search, x: Lit) {
    && x in s.unfinished && Highest(s, x)
    && (forall y | Edge(g, x, y) :: Idx(s, y) > 0 && Idx(s, x) <= Low(s, y))
  }

  /** The stack from `x` on is traversed. */
  ghost predicate Completes(g: Graph, s: Search, s': Search, x: Lit) {
    && IsEntry(g, s, x)
    && (forall y :: Idx(s', y) == Idx(s, y))
    && (forall y :: Low(s', y) == if InComponent(s, x, y) then TRAVERSED else Low(s, y))
    && (forall y :: y in s'.stack <==> y in s.stack && !InComponent(s, x, y))
    && s'.unfinished == s.unfinished - {x} && s'.count == s.count
  }

  /** No edge leaves the component except to traversed nodes. */
  lemma ComponentLeaves(g: Graph, s: Search, x: Lit, w: Lit, z: Lit)
    requires IsEntry(g, s, x) && Numbered(g, s) && Injective(s) && Opened(s) && Explored(g, s) && Escapes(g, s)
    requires InComponent(s, x, w) && Edge(g, w, z)
    ensures InComponent(s, x, z) || Done(s, z)
  {
    assert !Escape(g, s, x, Idx(s, z)) || InComponent(s, x, z) || Done(s, z);
    assert w != x ==> w !in s.unfinished && Closest(s, x, w);
    assert z in s.stack && !InComponent(s, x, z) && w != x ==> Leaves(s, x, w, z);
  }

  /** Nor does a path. */
  lemma ComponentReach(g: Graph, s: Search, x: Lit, w: Lit, z: Lit)
    requires IsEntry(g, s, x) && Inv(g, s) && InComponent(s, x, w) && Reach(g, w, z)
    ensures InComponent(s, x, z) || Done(s, z)
  {
    var c := set y | y in g.nodes && (InComponent(s, x, y) || Done(s, y));
    forall a, b | a in c && Edge(g, a, b) ensures b in c {
      if InComponent(s, x, a) {
        ComponentLeaves(g, s, x, a, b);
      }
    }
    ClosedReach(g, c, w, z);
  }

  lemma DoneReach(g: Graph, s: Search, w: Lit, z: Lit)
    requires WellFormed(g) && DoneClosed(g, s) && s.dfs.Keys <= g.nodes && Done(s, w) && Reach(g, w, z)
    ensures Done(s, z)
  {
    var c := set y | y in s.dfs && Done(s, y);
    ClosedReach(g, c, w, z);
  }

  /** The stack from an entry on is its strongly connected component. */
  lemma ComponentExact(g: Graph, s: Search, x: Lit, y: Lit)
    requires IsEntry(g, s, x) && Inv(g, s)
    ensures InComponent(s, x, y) <==> Equivalent(g, x, y)
  {
    if InComponent(s, x, y) {
      assert Anchor(g, s, y);
      var h :| h in s.unfinished && Idx(s, h) <= Idx(s, y) && Reach(g, y, h);
      assert Reach(g, h, x);
      ReachTrans(g, y, h, x);
    }
    if Equivalent(g, x, y) {
      ComponentReach(g, s, x, x, y);
      if Done(s, y) {
        DoneReach(g, s, y, x);
      }
    }
  }

  lemma CompleteNumbered(g: Graph, s: Search, s': Search, x: Lit)
    requires Completes(g, s, s', x) && Numbered(g, s) && Injective(s) && Opened(s)
    ensures Numbered(g, s') && Injective(s') && Opened(s')
  {}

  lemma CompleteExplored(g: Graph, s: Search, s': Search, x: Lit)
    requires Completes(g, s, s', x) && Inv(g, s)
    ensures DoneClosed(g, s') && Explored(g, s')
  {
    forall w, z | Edge(g, w, z) && InComponent(s, x, w) ensures InComponent(s, x, z) || Done(s, z) {
      ComponentLeaves(g, s, x, w, z);
    }
  }

  lemma CompleteLow(g: Graph, s: Search, s': Search, x: Lit)
    requires Completes(g, s, s', x) && Numbered(g, s) && LowReached(g, s)
    ensures LowReached(g, s')
  {
    forall y | y in s'.stack ensures ReachesIdx(g, s', y, Low(s', y)) {
      assert ReachesIdx(g, s, y, Low(s, y));
      var z :| z in s.stack && Idx(s, z) == Low(s, y) && Reach(g, y, z);
      assert z in s'.stack && Idx(s', z) == Low(s', y);
    }
  }

  lemma CompleteAnchored(g: Graph, s: Search, s': Search, x: Lit)
    requires Completes(g, s, s', x) && Numbered(g, s) && OpenReach(g, s) && Anchored(g, s)
    ensures OpenReach(g, s') && Anchored(g, s')
  {
    forall y | y in s'.stack ensures Anchor(g, s', y) {
      assert Anchor(g, s, y);
      var h :| h in s.unfinished && Idx(s, h) <= Idx(s, y) && Reach(g, y, h);
      assert h in s'.unfinished && Idx(s', h) <= Idx(s', y);
    }
  }

  lemma CompleteEscapes(g: Graph, s: Search, s': Search, x: Lit)
    requires Completes(g, s, s', x) && Inv(g, s)
    ensures Escapes(g, s')
  {
    forall h, w, z {:trigger Closest(s', h, w), Edge(g, w, z)}
      | Closest(s', h, w) && Leaves(s', h, w, z) && Edge(g, w, z)
      ensures Escape(g, s', h, Idx(s', z))
    {
      assert Closest(s, h, w) && Leaves(s, h, w, z);
      var c :| c in s.stack && Edge(g, h, c) && Low(s, c) <= Idx(s, z);
      LowOutside(g, s, x, c);
      assert c in s'.stack && Low(s', c) == Low(s, c);
    }
  }

  /** No minimum within the component is below its entry. */
  lemma LowOutside(g: Graph, s: Search, x: Lit, c: Lit)
    requires IsEntry(g, s, x) && Inv(g, s)
    ensures InComponent(s, x, c) ==> Idx(s, x) <= Low(s, c)
  {
    if InComponent(s, x, c) {
      assert ReachesIdx(g, s, c, Low(s, c));
      var z :| z in s.stack && Idx(s, z) == Low(s, c) && Reach(g, c, z);
      ComponentReach(g, s, x, c, z);
    }
  }

  lemma CompleteKeeps(g: Graph, s: Search, s': Search, x: Lit)
    requires Inv(g, s) && Completes(g, s, s', x) && s'.dfs.Keys == s.dfs.Keys
    ensures Inv(g, s')
  {
    CompleteNumbered(g, s, s', x);
    CompleteExplored(g, s, s', x);
    CompleteLow(g, s, s', x);
    CompleteAnchored(g, s, s', x);
    CompleteEscapes(g, s, s', x);
    SameVisited(s, s');
  }
}
