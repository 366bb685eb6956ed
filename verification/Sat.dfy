/** Propositional clauses over signed integer literals, their models, and what a bound on the
    variables and weights on literals mean. */
module Sat {

  /** A signed literal: a positive number is a variable, a negative one its negation. */
  type Lit = l: int | l != 0 witness 1

  type Clause = seq<Lit>

  /** An assignment is the set of variables that are true. */
  type Assignment = set<int>

  predicate True(m: Assignment, l: Lit) {
    if l > 0 then Abs(l) in m else Abs(l) !in m
  }

  predicate Holds(m: Assignment, c: Clause) {
    exists l | l in c :: True(m, l)
  }

  predicate Models(m: Assignment, cs: seq<Clause>) {
    forall c | c in cs :: Holds(m, c)
  }

  predicate AllTrue(m: Assignment, ls: seq<Lit>) {
    forall l | l in ls :: True(m, l)
  }

  ghost predicate Satisfiable(cs: seq<Clause>, ls: seq<Lit>) {
    exists m: Assignment :: Models(m, cs) && AllTrue(m, ls)
  }

  lemma ModelsAppend(m: Assignment, cs: seq<Clause>, c: Clause)
    ensures Models(m, cs + [c]) <==> Models(m, cs) && Holds(m, c)
  {
    assert c in cs + [c];
    forall d | d in cs ensures d in cs + [c] {}
  }

  lemma AllTrueAppend(m: Assignment, ls: seq<Lit>, l: Lit)
    ensures AllTrue(m, ls + [l]) <==> AllTrue(m, ls) && True(m, l)
  {
    assert l in ls + [l];
    forall k | k in ls ensures k in ls + [l] {}
  }

  lemma AllTruePrepend(m: Assignment, l: Lit, ls: seq<Lit>)
    ensures AllTrue(m, [l] + ls) <==> True(m, l) && AllTrue(m, ls)
  {
    assert forall k :: k in [l] + ls <==> k == l || k in ls;
  }

  lemma HoldsAppend(m: Assignment, c: Clause, l: Lit)
    ensures Holds(m, c + [l]) <==> Holds(m, c) || True(m, l)
  {
    if Holds(m, c) {
      var k :| k in c && True(m, k);
      assert k in c + [l];
    }
    assert l in c + [l];
  }

  lemma HoldsGrows(c: Clause, l: Lit)
    ensures forall m :: Holds(m, c + [l]) <==> Holds(m, c) || True(m, l)
  {
    forall m ensures Holds(m, c + [l]) <==> Holds(m, c) || True(m, l) {
      HoldsAppend(m, c, l);
    }
  }

  function Abs(l: int): (r: nat) {
    if l < 0 then -l else l
  }

  function Neg(l: Lit): Lit {
    var k: int := l;
    -k
  }

  lemma SameVariable(l: Lit, k: Lit)
    ensures Abs(l) == Abs(k) <==> l == k || l == Neg(k)
    ensures l != Neg(l) && Neg(Neg(l)) == l
  {}

  // ----- Clauses up to order -----

  function Members(ls: seq<Lit>): set<Lit> {
    set l | l in ls
  }

  ghost predicate DistinctLits(c: seq<Lit>) {
    forall a, b | 0 <= a < b < |c| :: c[a] != c[b]
  }

  lemma SameMembers(c: Clause, c': Clause)
    requires multiset(c) == multiset(c')
    ensures forall l :: l in c <==> l in c'
    ensures |c| == |c'|
    ensures forall m :: Holds(m, c) <==> Holds(m, c')
  {
    forall l: Lit ensures l in c <==> l in c' {
      assert l in c <==> l in multiset(c);
      assert l in c' <==> l in multiset(c');
    }
    assert |c| == |multiset(c)| && |c'| == |multiset(c')|;
  }

  lemma DistinctByCount(c: Clause)
    ensures DistinctLits(c) <==> forall l | l in multiset(c) :: multiset(c)[l] == 1
  {
    if c != [] {
      var last := |c| - 1;
      var front := c[..last];
      DistinctByCount(front);
      assert c == front + [c[last]];
      assert multiset(c) == multiset(front) + multiset{c[last]};
      assert c[last] in front <==> c[last] in multiset(front);
      if DistinctLits(c) {
        assert c[last] !in front;
      } else if DistinctLits(front) {
        assert c[last] in front;
        assert multiset(c)[c[last]] == 2;
      } else {
        var l :| l in multiset(front) && multiset(front)[l] != 1;
        assert multiset(c)[l] >= 2;
      }
    }
  }

  // ----- A bound on the variables that occur, for the exhaustive search -----

  function MaxVar(c: Clause): (v: nat)
    ensures forall l | l in c :: Abs(l) <= v
  {
    if c == [] then 0
    else
      var v := MaxVar(c[1..]);
      if v < Abs(c[0]) then Abs(c[0]) else v
  }

  function MaxVars(cs: seq<Clause>): (v: nat)
    ensures forall c, l | c in cs && l in c :: Abs(l) <= v
  {
    if cs == [] then 0
    else
      var u, v := MaxVar(cs[0]), MaxVars(cs[1..]);
      if u < v then v else u
  }

  datatype Option<+T> = None | Some(value: T)

  /** Exhaustive search for a model that agrees with `m` above variable `v`. */
  function FindModel(cs: seq<Clause>, ls: seq<Lit>, v: nat, m: Assignment): (r: Option<Assignment>)
    ensures r.Some? ==> Models(r.value, cs) && AllTrue(r.value, ls)
  {
    if v == 0 then
      if Models(m, cs) && AllTrue(m, ls) then Some(m) else None
    else
      var r := FindModel(cs, ls, v - 1, m - {v});
      if r.Some? then r else FindModel(cs, ls, v - 1, m + {v})
  }

  lemma {:induction false} FindModelComplete(cs: seq<Clause>, ls: seq<Lit>, v: nat, m: Assignment, w: Assignment)
    requires Models(w, cs) && AllTrue(w, ls)
    requires forall c, l | c in cs && l in c && Abs(l) > v :: Abs(l) in m <==> Abs(l) in w
    requires forall l | l in ls && Abs(l) > v :: Abs(l) in m <==> Abs(l) in w
    ensures FindModel(cs, ls, v, m).Some?
  {
    if v == 0 {
      forall c | c in cs ensures Holds(m, c) {
        var l :| l in c && True(w, l);
        assert True(m, l);
      }
    } else if v in w {
      FindModelComplete(cs, ls, v - 1, m + {v}, w);
    } else {
      FindModelComplete(cs, ls, v - 1, m - {v}, w);
    }
  }

  /** The search over all occurring variables decides satisfiability. */
  lemma FindModelDecides(cs: seq<Clause>, ls: seq<Lit>)
    ensures FindModel(cs, ls, MaxVars(cs + [ls]), {}).Some? <==> Satisfiable(cs, ls)
  {
    var v := MaxVars(cs + [ls]);
    if Satisfiable(cs, ls) {
      var w :| Models(w, cs) && AllTrue(w, ls);
      assert ls in cs + [ls];
      forall c, l | c in cs && l in c ensures Abs(l) <= v {
        assert c in cs + [ls];
      }
      FindModelComplete(cs, ls, v, {}, w);
    }
  }

  // ----- Counting -----

  lemma {:induction false} SubsetSize<T>(A: set<T>, B: set<T>)
    requires A <= B
    ensures |A| <= |B|
    ensures |A| == |B| ==> A == B
  {
    if A != {} {
      var x :| x in A;
      SubsetSize(A - {x}, B - {x});
    }
  }

  lemma {:induction false} MembersCount(c: Clause)
    requires DistinctLits(c)
    ensures |Members(c)| == |c|
  {
    if c != [] {
      var n := |c| - 1;
      MembersCount(c[..n]);
      assert Members(c) == Members(c[..n]) + {c[n]};
    }
  }

  // ----- Soft literals -----

  /** A soft literal costs one when it is true. */
  function Cost(m: Assignment, soft: set<Lit>): nat {
    |set l | l in soft && True(m, l)|
  }

  /** The cost reaches the number of soft literals exactly when all of them are true. */
  lemma FullCost(m: Assignment, soft: set<Lit>)
    ensures Cost(m, soft) <= |soft|
    ensures Cost(m, soft) == |soft| <==> forall l | l in soft :: True(m, l)
  {
    SubsetSize((set l | l in soft && True(m, l)), soft);
    if forall l | l in soft :: True(m, l) {
      assert (set l | l in soft && True(m, l)) == soft;
    }
  }

  function Cheaper(a: Option<Assignment>, b: Option<Assignment>, soft: set<Lit>): Option<Assignment> {
    if a.None? then b
    else if b.None? || Cost(a.value, soft) <= Cost(b.value, soft) then a else b
  }

  /** Exhaustive search for a cheapest model that agrees with `m` above variable `v`. */
  function FindCheapest(cs: seq<Clause>, soft: set<Lit>, v: nat, m: Assignment): (r: Option<Assignment>)
    ensures r.Some? ==> Models(r.value, cs)
  {
    if v == 0 then
      if Models(m, cs) then Some(m) else None
    else
      Cheaper(FindCheapest(cs, soft, v - 1, m - {v}), FindCheapest(cs, soft, v - 1, m + {v}), soft)
  }

  lemma {:induction false} FindCheapestOptimal(cs: seq<Clause>, soft: set<Lit>, v: nat, m: Assignment, w: Assignment)
    requires Models(w, cs)
    requires forall c, l | c in cs && l in c && Abs(l) > v :: Abs(l) in m <==> Abs(l) in w
    requires forall l | l in soft && Abs(l) > v :: Abs(l) in m <==> Abs(l) in w
    ensures FindCheapest(cs, soft, v, m).Some?
    ensures Cost(FindCheapest(cs, soft, v, m).value, soft) <= Cost(w, soft)
  {
    if v == 0 {
      forall c | c in cs ensures Holds(m, c) {
        var l :| l in c && True(w, l);
        assert True(m, l);
      }
      assert (set l | l in soft && True(m, l)) == (set l | l in soft && True(w, l));
    } else if v in w {
      FindCheapestOptimal(cs, soft, v - 1, m + {v}, w);
    } else {
      FindCheapestOptimal(cs, soft, v - 1, m - {v}, w);
    }
  }
}
