/** The two stacks of the iterative search.  The working stack holds a node more than once when
    several parents found it unvisited; only the last copy is live, the one on top of which the
    successors of the node were pushed. */
module TarjanStacks {
  import opened Sat
  import opened BinaryGraph
  import opened Tarjan

  // ----- The stack of components -----

  ghost predicate SccOk(s: Search, scc: seq<Lit>) {
    && (forall x :: x in scc <==> x in s.stack)
    && (forall i, j | 0 <= i < j < |scc| :: Idx(s, scc[i]) < Idx(s, scc[j]))
  }

  /** What is above an entry is its component. */
  lemma SccAbove(s: Search, scc: seq<Lit>, k: nat, y: Lit)
    requires SccOk(s, scc) && k < |scc|
    ensures y in scc[k..] <==> InComponent(s, scc[k], y)
    ensures y in scc[..k] <==> y in s.stack && !InComponent(s, scc[k], y)
  {
    if y in s.stack {
      var i :| 0 <= i < |scc| && scc[i] == y;
      assert i >= k ==> scc[k..][i - k] == y;
      assert i < k ==> scc[..k][i] == y;
    }
  }

  // ----- The working stack -----

  /** The open nodes, oldest first, and the places of their live copies. */
  datatype Live = Live(open: seq<Lit>, pos: seq<nat>)

  /** The open nodes are listed in the order of their numbers. */
  ghost predicate Listed(s: Search, live: Live) {
    && (forall x :: x in live.open <==> x in s.unfinished)
    && (forall i, j | 0 <= i < j < |live.open| :: Idx(s, live.open[i]) < Idx(s, live.open[j]))
  }

  /** Live copies are in that order too, and they are the last ones. */
  ghost predicate Placed(work: seq<Lit>, live: Live) {
    && |live.pos| == |live.open|
    && (forall i, j | 0 <= i < j < |live.open| :: live.pos[i] < live.pos[j])
    && (forall i | 0 <= i < |live.open| :: live.pos[i] < |work| && work[live.pos[i]] == live.open[i])
    && (forall i, k | 0 <= i < |live.open| && live.pos[i] < k < |work| :: work[k] != live.open[i])
    && (live.open == [] ==> |work| <= 1) && (live.open != [] ==> live.pos[0] == 0)
  }

  /** What is between two live copies are successors of the lower one. */
  ghost predicate Filled(g: Graph, work: seq<Lit>, live: Live) {
    && |live.pos| == |live.open|
    && (forall i: nat, k: nat :: Fills(g, work, live, i, k))
    && (forall x | x in work :: x in g.nodes)
  }

  ghost predicate Fills(g: Graph, work: seq<Lit>, live: Live, i: nat, k: nat)
    requires |live.pos| == |live.open|
  {
    i < |live.open| && live.pos[i] < k < |work| && (i + 1 < |live.open| ==> k <= live.pos[i + 1]) ==>
      Edge(g, live.open[i], work[k])
  }

  ghost predicate Above(work: seq<Lit>, k: nat, y: Lit) {
    exists j :: k < j < |work| && work[j] == y
  }

  /** The unvisited successors of an open node are above it. */
  ghost predicate Pending(g: Graph, s: Search, work: seq<Lit>, live: Live) {
    && |live.pos| == |live.open|
    && forall i, y | 0 <= i < |live.open| && Edge(g, live.open[i], y) && Idx(s, y) == 0 ::
         Above(work, live.pos[i], y)
  }

  ghost predicate WorkOk(g: Graph, s: Search, work: seq<Lit>, live: Live) {
    Listed(s, live) && Placed(work, live) && Filled(g, work, live) && Pending(g, s, work, live)
  }

  function Top(work: seq<Lit>): Lit
    requires work != []
  {
    work[|work| - 1]
  }

  /** The last open node, or anything if there is none. */
  function Last(live: Live): Lit {
    if live.open == [] then 1 else live.open[|live.open| - 1]
  }

  function Older(live: Live): Live
    requires live.open != [] && |live.pos| == |live.open|
  {
    var n := |live.open| - 1;
    Live(live.open[..n], live.pos[..n])
  }

  lemma LastIsHighest(s: Search, live: Live)
    requires Listed(s, live)
    ensures Highest(s, Last(live))
  {
    var n := |live.open| - 1;
    if s.unfinished != {} {
      var h :| h in s.unfinished;
      assert h in live.open;
      assert Last(live) in live.open;
      forall k | k in s.unfinished ensures Idx(s, k) <= Idx(s, Last(live)) {
        assert k in live.open;
        var i :| 0 <= i < |live.open| && live.open[i] == k;
        assert i < n ==> Idx(s, live.open[i]) < Idx(s, live.open[n]);
      }
    }
  }

  /** A node on top that is not open is a successor of the last open node. */
  lemma TopIsSuccessor(g: Graph, work: seq<Lit>, live: Live)
    requires Placed(work, live) && Filled(g, work, live) && work != [] && Top(work) !in live.open
    ensures live.open != [] ==> Edge(g, Last(live), Top(work))
    ensures forall i | 0 <= i < |live.open| :: live.pos[i] < |work| - 1
    ensures live.open == [] ==> |work| == 1
  {
    forall i | 0 <= i < |live.open| ensures live.pos[i] < |work| - 1 {
      assert live.open[i] in live.open;
    }
    if live.open != [] {
      var n := |live.open| - 1;
      assert live.pos[n] < |work| - 1;
      assert Fills(g, work, live, n, |work| - 1);
    }
  }

  /** An open node on top is the last one, all its successors have been visited, and the open
      node before it has an edge to it. */
  lemma TopIsLast(g: Graph, s: Search, work: seq<Lit>, live: Live)
    requires WorkOk(g, s, work, live) && work != [] && Top(work) in s.unfinished
    ensures live.open != [] && Last(live) == Top(work)
    ensures forall y | Edge(g, Top(work), y) :: Idx(s, y) > 0
    ensures Before(g, s, Top(work), Last(Older(live)))
  {
    var x, n := Top(work), |live.open| - 1;
    assert x in live.open;
    var i :| 0 <= i < |live.open| && live.open[i] == x;
    assert live.pos[i] == |work| - 1;
    assert live.pos[n] < |work|;
    forall y | Edge(g, x, y) ensures Idx(s, y) > 0 {
      assert !Above(work, live.pos[i], y);
    }
    LastIsHighest(s, live);
    if n > 0 {
      OlderEdge(g, work, live);
    }
    OlderIsBefore(g, s, live);
  }

  lemma OlderEdge(g: Graph, work: seq<Lit>, live: Live)
    requires Placed(work, live) && Filled(g, work, live) && |live.open| > 1
    ensures Edge(g, live.open[|live.open| - 2], Last(live))
  {
    var n := |live.open| - 1;
    assert live.pos[n - 1] < live.pos[n] < |work| && work[live.pos[n]] == live.open[n];
    assert Fills(g, work, live, n - 1, live.pos[n]);
  }

  lemma OlderIsBefore(g: Graph, s: Search, live: Live)
    requires Listed(s, live) && live.open != [] && |live.pos| == |live.open| && Highest(s, Last(live))
    requires |live.open| > 1 ==> Edge(g, live.open[|live.open| - 2], Last(live))
    ensures Before(g, s, Last(live), Last(Older(live)))
  {
    var n := |live.open| - 1;
    var x := live.open[n];
    if n > 0 {
      assert live.open[n - 1] in live.open && Idx(s, live.open[n - 1]) < Idx(s, x);
    }
    forall k | k in s.unfinished && k != x ensures n > 0 && Idx(s, k) <= Idx(s, live.open[n - 1]) {
      OlderListed(s, live, k);
    }
    assert x in live.open;
    if s.unfinished != {x} {
      var k :| k in s.unfinished && k != x;
    }
  }

  lemma OlderListed(s: Search, live: Live, k: Lit)
    requires Listed(s, live) && live.open != [] && k in s.unfinished && k != Last(live)
    ensures var n := |live.open| - 1; n > 0 && Idx(s, k) <= Idx(s, live.open[n - 1])
  {
    var n := |live.open| - 1;
    assert k in live.open;
    var i :| 0 <= i < |live.open| && live.open[i] == k;
    assert i < n - 1 ==> Idx(s, live.open[i]) < Idx(s, live.open[n - 1]);
  }

  // ----- Taking the top away -----

  /** A copy that is not live goes. */
  lemma StaleGoes(g: Graph, s: Search, s': Search, work: seq<Lit>, live: Live)
    requires WorkOk(g, s, work, live) && work != [] && Top(work) !in s.unfinished && Idx(s, Top(work)) > 0
    requires s'.unfinished == s.unfinished && forall y :: Idx(s', y) == Idx(s, y)
    ensures WorkOk(g, s', work[..|work| - 1], live)
  {
    TopIsSuccessor(g, work, live);
    StalePlaced(g, work, live);
    assert Listed(s', live);
    PendingStays(g, s, s', work, live);
  }

  lemma StalePlaced(g: Graph, work: seq<Lit>, live: Live)
    requires Placed(work, live) && Filled(g, work, live) && work != []
    requires forall i | 0 <= i < |live.open| :: live.pos[i] < |work| - 1
    ensures Placed(work[..|work| - 1], live) && Filled(g, work[..|work| - 1], live)
  {
    var work' := work[..|work| - 1];
    forall i: nat, k: nat ensures Fills(g, work', live, i, k) {
      assert Fills(g, work, live, i, k);
    }
  }

  lemma PendingStays(g: Graph, s: Search, s': Search, work: seq<Lit>, live: Live)
    requires Pending(g, s, work, live) && work != [] && Idx(s, Top(work)) > 0
    requires forall y :: Idx(s', y) == Idx(s, y)
    ensures Pending(g, s', work[..|work| - 1], live)
  {
    forall i, y | 0 <= i < |live.open| && Edge(g, live.open[i], y) && Idx(s', y) == 0
      ensures Above(work[..|work| - 1], live.pos[i], y)
    {
      assert Above(work, live.pos[i], y);
      var j :| live.pos[i] < j < |work| && work[j] == y;
      assert work[..|work| - 1][j] == y;
    }
  }

  /** The live copy of the last open node goes. */
  lemma LiveGoes(g: Graph, s: Search, s': Search, work: seq<Lit>, live: Live)
    requires WorkOk(g, s, work, live) && work != [] && Idx(s, Top(work)) > 0
    requires live.open != [] && Last(live) == Top(work)
    requires s'.unfinished == s.unfinished - {Top(work)} && forall y :: Idx(s', y) == Idx(s, y)
    ensures WorkOk(g, s', work[..|work| - 1], Older(live))
  {
    LivePlaced(g, work, live);
    OlderLists(s, s', live);
    PendingStays(g, s, s', work, live);
  }

  lemma LivePlaced(g: Graph, work: seq<Lit>, live: Live)
    requires Placed(work, live) && Filled(g, work, live) && work != []
    requires live.open != [] && Last(live) == Top(work)
    ensures Placed(work[..|work| - 1], Older(live)) && Filled(g, work[..|work| - 1], Older(live))
  {
    var n := |live.open| - 1;
    assert live.pos[n] == |work| - 1;
    assert forall i | 0 <= i < n :: live.pos[i] < live.pos[n];
    var work', live' := work[..|work| - 1], Older(live);
    forall i: nat, k: nat ensures Fills(g, work', live', i, k) {
      assert Fills(g, work, live, i, k);
    }
  }

  lemma OlderLists(s: Search, s': Search, live: Live)
    requires Listed(s, live) && live.open != [] && |live.pos| == |live.open|
    requires s'.unfinished == s.unfinished - {Last(live)} && forall y :: Idx(s', y) == Idx(s, y)
    ensures Listed(s', Older(live))
  {
    var n := |live.open| - 1;
    assert live.open == live.open[..n] + [live.open[n]];
    assert live.open[n] !in live.open[..n];
  }

  // ----- Pushing successors -----

  /** The live stack with the node on top opened. */
  function Newer(work: seq<Lit>, live: Live): Live
    requires work != []
  {
    Live(live.open + [Top(work)], live.pos + [|work| - 1])
  }

  lemma NewerLists(g: Graph, s: Search, s': Search, work: seq<Lit>, live: Live)
    requires Listed(s, live) && work != [] && Discovers(g, s, s', Last(live), Top(work))
    requires Numbered(g, s) && Opened(s)
    ensures Listed(s', Newer(work, live))
  {
    forall i | 0 <= i < |live.open|
      ensures Idx(s', live.open[i]) == Idx(s, live.open[i]) <= s.count
    {
      assert live.open[i] in live.open;
    }
  }

  lemma PushPlaced(work: seq<Lit>, live: Live, pushed: seq<Lit>)
    requires Placed(work, live) && work != [] && Top(work) !in live.open
    requires live.open == [] ==> |work| == 1
    requires forall i | 0 <= i < |live.open| :: live.pos[i] < |work| - 1
    requires forall y | y in pushed :: y !in live.open && y != Top(work)
    ensures Placed(work + pushed, Newer(work, live))
  {
    var work', live' := work + pushed, Newer(work, live);
    forall i, k | 0 <= i < |live'.open| && live'.pos[i] < k < |work'| ensures work'[k] != live'.open[i] {
      if k >= |work| {
        assert work'[k] in pushed && live'.open[i] in live'.open;
      } else {
        assert i < |live.open| && live.open[i] in live.open;
      }
    }
  }

  lemma PushFilled(g: Graph, work: seq<Lit>, live: Live, pushed: seq<Lit>)
    requires Filled(g, work, live) && WellFormed(g) && work != []
    requires forall i | 0 <= i < |live.open| :: live.pos[i] < |work| - 1
    requires forall y | y in pushed :: Edge(g, Top(work), y)
    ensures Filled(g, work + pushed, Newer(work, live))
  {
    var work', live' := work + pushed, Newer(work, live);
    forall i: nat, k: nat ensures Fills(g, work', live', i, k) {
      assert Fills(g, work, live, i, k);
      if i == |live.open| && |work| <= k < |work'| {
        assert work'[k] in pushed;
      }
    }
    forall x | x in work' ensures x in g.nodes {
      assert x in work || x in pushed;
    }
  }

  lemma PushPending(g: Graph, s: Search, s': Search, work: seq<Lit>, live: Live, pushed: seq<Lit>)
    requires Pending(g, s, work, live) && work != []
    requires forall y :: Idx(s', y) == 0 ==> Idx(s, y) == 0
    requires forall y | Edge(g, Top(work), y) && Idx(s', y) == 0 :: y in pushed
    ensures Pending(g, s', work + pushed, Newer(work, live))
  {
    var live' := Newer(work, live);
    forall i, y | 0 <= i < |live'.open| && Edge(g, live'.open[i], y) && Idx(s', y) == 0
      ensures Above(work + pushed, live'.pos[i], y)
    {
      if i < |live.open| {
        assert Above(work, live.pos[i], y);
        var j :| live.pos[i] < j < |work| && work[j] == y;
        assert (work + pushed)[j] == y;
      } else {
        var j :| 0 <= j < |pushed| && pushed[j] == y;
        assert (work + pushed)[|work| + j] == y;
      }
    }
  }

  // ----- Empty stacks -----

  /** When nothing is left to do, every visited node is traversed. */
  lemma NothingLeft(g: Graph, s: Search, live: Live)
    requires Inv(g, s) && Listed(s, live) && Placed([], live)
    ensures live.open == [] && s.stack == {}
  {
    forall h ensures h !in s.unfinished {
      assert h in live.open <==> h in s.unfinished;
    }
    forall y ensures y !in s.stack {
      assert y in s.stack ==> Anchor(g, s, y);
    }
  }
}
