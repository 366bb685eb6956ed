/** The binary implication graph over literals: paths, strongly connected components, and
    what they say about the models of the binary clauses. */
module BinaryGraph {
  import opened Sat

  datatype Graph = Graph(nodes: set<Lit>, edges: set<(Lit, Lit)>)

  predicate Edge(g: Graph, x: Lit, y: Lit) {
    (x, y) in g.edges
  }

  ghost predicate WellFormed(g: Graph) {
    forall x, y | Edge(g, x, y) :: x in g.nodes && y in g.nodes
  }

  ghost predicate Path(g: Graph, p: seq<Lit>, x: Lit, y: Lit) {
    && p != [] && p[0] == x && p[|p| - 1] == y
    && forall i | 0 <= i < |p| - 1 :: Edge(g, p[i], p[i + 1])
  }

  ghost predicate Reach(g: Graph, x: Lit, y: Lit) {
    exists p :: Path(g, p, x, y)
  }

  /** In one strongly connected component. */
  ghost predicate Equivalent(g: Graph, x: Lit, y: Lit) {
    Reach(g, x, y) && Reach(g, y, x)
  }

  lemma ReachSelf(g: Graph, x: Lit)
    ensures Reach(g, x, x)
  {
    assert Path(g, [x], x, x);
  }

  lemma ReachEdge(g: Graph, x: Lit, y: Lit)
    requires Edge(g, x, y)
    ensures Reach(g, x, y)
  {
    assert Path(g, [x, y], x, y);
  }

  lemma ReachTrans(g: Graph, x: Lit, y: Lit, z: Lit)
    requires Reach(g, x, y) && Reach(g, y, z)
    ensures Reach(g, x, z)
  {
    var p :| Path(g, p, x, y);
    var q :| Path(g, q, y, z);
    var r := p + q[1..];
    forall i | 0 <= i < |r| - 1 ensures Edge(g, r[i], r[i + 1]) {
      if i >= |p| - 1 {
        assert Edge(g, q[i - |p| + 1], q[i - |p| + 2]);
      }
    }
    assert Path(g, r, x, z);
  }

  lemma EquivalentTrans(g: Graph, x: Lit, y: Lit, z: Lit)
    requires Equivalent(g, x, y) && Equivalent(g, y, z)
    ensures Equivalent(g, x, z)
  {
    ReachTrans(g, x, y, z);
    ReachTrans(g, z, y, x);
  }

  ghost predicate Closed(g: Graph, s: set<Lit>) {
    forall x, y | x in s && Edge(g, x, y) :: y in s
  }

  /** A closed set is never left. */
  lemma ClosedReach(g: Graph, s: set<Lit>, x: Lit, y: Lit)
    requires Closed(g, s) && x in s && Reach(g, x, y)
    ensures y in s
  {
    var p :| Path(g, p, x, y);
    for i := 0 to |p| - 1
      invariant p[i] in s
    {
      assert Edge(g, p[i], p[i + 1]);
    }
  }

  // ----- Contraposition -----

  /** With an implication its contrapositive is an edge. */
  ghost predicate Skew(g: Graph) {
    forall x, y | Edge(g, x, y) :: Edge(g, Neg(y), Neg(x))
  }

  lemma {:induction false} SkewPath(g: Graph, p: seq<Lit>, x: Lit, y: Lit)
    requires Skew(g) && Path(g, p, x, y)
    ensures Reach(g, Neg(y), Neg(x))
    decreases |p|
  {
    if |p| == 1 {
      ReachSelf(g, Neg(x));
    } else {
      assert Edge(g, p[0], p[1]);
      forall i | 0 <= i < |p[1..]| - 1 ensures Edge(g, p[1..][i], p[1..][i + 1]) {
        assert Edge(g, p[i + 1], p[i + 2]);
      }
      SkewPath(g, p[1..], p[1], y);
      ReachEdge(g, Neg(p[1]), Neg(x));
      ReachTrans(g, Neg(y), Neg(p[1]), Neg(x));
    }
  }

  lemma SkewEquivalent(g: Graph, x: Lit, y: Lit)
    requires Skew(g) && Equivalent(g, x, y)
    ensures Equivalent(g, Neg(x), Neg(y))
  {
    var p :| Path(g, p, x, y);
    SkewPath(g, p, x, y);
    var q :| Path(g, q, y, x);
    SkewPath(g, q, y, x);
  }

  /** If one component has both `x` and its negation, so has it for every other member. */
  lemma ComplementSpreads(g: Graph, x: Lit, y: Lit)
    requires Skew(g) && Equivalent(g, x, y) && Equivalent(g, x, Neg(x))
    ensures Equivalent(g, y, Neg(y))
  {
    SkewEquivalent(g, x, y);
    EquivalentTrans(g, y, x, Neg(x));
    EquivalentTrans(g, y, Neg(x), Neg(y));
  }

  // ----- Models -----

  ghost predicate Respects(m: Assignment, g: Graph) {
    forall x, y | Edge(g, x, y) :: True(m, x) ==> True(m, y)
  }

  lemma ReachRespected(m: Assignment, g: Graph, x: Lit, y: Lit)
    requires Respects(m, g) && Reach(g, x, y)
    ensures True(m, x) ==> True(m, y)
  {
    var p :| Path(g, p, x, y);
    if True(m, x) {
      for i := 0 to |p| - 1
        invariant True(m, p[i])
      {
        assert Edge(g, p[i], p[i + 1]);
      }
    }
  }
}
