/** The indexed binary heap: a priority queue of numbers whose positions are known, so that an
    element whose priority changed can be moved to where it belongs. */
module Heap {

  const INVALID: nat := 0xFFFF_FFFF

  type Order = (nat, nat) -> bool

  ghost predicate StrictWeak(less: Order) {
    && (forall a :: !less(a, a))
    && (forall a, b, c {:trigger less(a, b), less(b, c)} :: less(a, b) && less(b, c) ==> less(a, c))
    && (forall a, b, c {:trigger less(a, b), less(b, c)} :: !less(a, b) && !less(b, c) ==> !less(a, c))
  }

  function Parent(i: nat): nat
    requires i > 0
  {
    (i - 1) / 2
  }

  /** The element at `i` is not above its parent. */
  ghost predicate Below(less: Order, a: seq<nat>, i: nat) {
    0 < i < |a| ==> !less(a[Parent(i)], a[i])
  }

  ghost predicate Ordered(less: Order, a: seq<nat>) {
    forall i: nat :: Below(less, a, i)
  }

  /** The element at `c` is not above its grandparent, if its parent is at `i`. */
  ghost predicate Spans(less: Order, a: seq<nat>, i: nat, c: nat) {
    0 < c < |a| && Parent(c) == i && 0 < i ==> !less(a[Parent(i)], a[c])
  }

  /** Only comparisons with the element at `i` may be wrong. */
  ghost predicate OrderedBut(less: Order, a: seq<nat>, i: nat) {
    && (forall j: nat | j != i && (0 < j ==> Parent(j) != i) :: Below(less, a, j))
    && (forall c: nat :: Spans(less, a, i, c))
  }

  /** Each element knows its position, and nothing else has one. */
  ghost predicate Located(a: seq<nat>, pos: seq<nat>) {
    && |a| <= INVALID
    && (forall i | 0 <= i < |a| :: a[i] < |pos| && pos[a[i]] == i)
    && (forall e | 0 <= e < |pos| && pos[e] != INVALID :: pos[e] < |a| && a[pos[e]] == e)
  }

  function Swap(a: seq<nat>, i: nat, j: nat): seq<nat>
    requires i < |a| && j < |a|
  {
    a[i := a[j]][j := a[i]]
  }

  ghost function Elements(a: seq<nat>): set<nat> {
    set e | e in a
  }

  lemma SwapLocated(a: seq<nat>, pos: seq<nat>, i: nat, j: nat)
    requires Located(a, pos) && i < |a| && j < |a|
    ensures Located(Swap(a, i, j), Swap(pos, a[i], a[j]))
    ensures Elements(Swap(a, i, j)) == Elements(a)
  {
    var b := Swap(a, i, j);
    forall e ensures e in b <==> e in a {
      assert b[i] == a[j] && b[j] == a[i];
      if e in a {
        var k :| 0 <= k < |a| && a[k] == e;
        assert b[if k == i then j else if k == j then i else k] == e;
      }
    }
  }

  // ----- Moving one element -----

  /** The element at `i` is above its parent: after exchanging them only it can be wrong. */
  lemma UpStep(less: Order, a: seq<nat>, i: nat)
    requires StrictWeak(less) && OrderedBut(less, a, i) && 0 < i < |a| && less(a[Parent(i)], a[i])
    ensures OrderedBut(less, Swap(a, Parent(i), i), Parent(i))
  {
    var p := Parent(i);
    var b := Swap(a, p, i);
    forall j: nat | j != p && (0 < j ==> Parent(j) != p) ensures Below(less, b, j) {
      assert Below(less, a, j) || Parent(j) == i;
      assert Spans(less, a, i, j);
    }
    forall c: nat ensures Spans(less, b, p, c) {
      assert Below(less, a, p) && (c != i ==> Below(less, a, c) || Parent(c) == i);
    }
  }

  /** The higher child of `i` is above the element at `i`, which is not above its parent: after
      exchanging them only the moved element can be wrong, and it is not above its parent. */
  lemma DownStep(less: Order, a: seq<nat>, i: nat, c: nat)
    requires StrictWeak(less) && OrderedBut(less, a, i) && Below(less, a, i)
    requires 0 < c < |a| && Parent(c) == i && less(a[i], a[c]) && HigherChild(less, a, i, c)
    ensures OrderedBut(less, Swap(a, i, c), c) && Below(less, Swap(a, i, c), c)
  {
    var b := Swap(a, i, c);
    forall j: nat | j != c && (0 < j ==> Parent(j) != c) ensures Below(less, b, j) {
      assert j != i && (0 < j ==> Parent(j) != i) ==> Below(less, a, j);
      assert Spans(less, a, i, c);
    }
    forall d: nat ensures Spans(less, b, c, d) {
      assert 0 < d && Parent(d) == c ==> Below(less, a, d);
    }
  }

  ghost predicate HigherChild(less: Order, a: seq<nat>, i: nat, c: nat) {
    && c < |a| && forall d: nat | 0 < d < |a| && Parent(d) == i :: !less(a[c], a[d])
  }

  /** The element at `i` is right when it is below its parent and no child is above it. */
  lemma Settles(less: Order, a: seq<nat>, i: nat)
    requires OrderedBut(less, a, i) && Below(less, a, i)
    requires forall d: nat | 0 < d < |a| && Parent(d) == i :: !less(a[i], a[d])
    ensures Ordered(less, a)
  {
    forall j: nat ensures Below(less, a, j) {
      assert j != i && (0 < j ==> Parent(j) != i) ==> Below(less, a, j);
    }
  }

  /** The front is a maximum. */
  lemma {:induction false} FrontIsMaximum(less: Order, a: seq<nat>, i: nat)
    requires StrictWeak(less) && Ordered(less, a) && i < |a|
    ensures !less(a[0], a[i])
    decreases i
  {
    if i > 0 {
      FrontIsMaximum(less, a, Parent(i));
      assert Below(less, a, i);
    }
  }

  /** When only the priority of the element at `i` changed, only it can be wrong. */
  lemma ChangedOne(before: Order, less: Order, a: seq<nat>, i: nat)
    requires StrictWeak(before) && Ordered(before, a) && i < |a|
    requires forall j, k | 0 <= j < |a| && 0 <= k < |a| && j != i && k != i :: less(a[j], a[k]) == before(a[j], a[k])
    ensures OrderedBut(less, a, i)
  {
    forall j: nat | j != i && (0 < j ==> Parent(j) != i) ensures Below(less, a, j) {
      assert Below(before, a, j);
    }
    forall c: nat ensures Spans(less, a, i, c) {
      assert Below(before, a, c) && Below(before, a, i);
    }
  }

  /** The last element at the front: only it can be wrong. */
  lemma FrontRemoved(less: Order, a: seq<nat>)
    requires Ordered(less, a) && a != []
    ensures OrderedBut(less, Swap(a, 0, |a| - 1)[..|a| - 1], 0)
  {
    var b := Swap(a, 0, |a| - 1)[..|a| - 1];
    forall j: nat | j != 0 && (0 < j ==> Parent(j) != 0) ensures Below(less, b, j) {
      assert Below(less, a, j);
    }
  }

  /** The last element of the array leaves it, and its position is cleared. */
  lemma LastRemoved(a: seq<nat>, pos: seq<nat>)
    requires Located(a, pos) && a != []
    ensures Located(a[..|a| - 1], pos[a[|a| - 1] := INVALID])
    ensures Elements(a[..|a| - 1]) == Elements(a) - {a[|a| - 1]}
  {
    var n := |a| - 1;
    assert a == a[..n] + [a[n]];
    forall i | 0 <= i < n ensures a[i] != a[n] {}
  }

  class Heap {
    var elems: seq<nat>
    var pos: seq<nat>
    var less: Order

    ghost predicate Valid()
      reads this
    {
      Located(elems, pos) && StrictWeak(less) && Ordered(less, elems)
    }

    constructor (less: Order)
      requires StrictWeak(less)
      ensures Valid() && elems == [] && this.less == less
    {
      this.less, elems, pos := less, [], [];
    }

    predicate Contains(e: nat)
      reads this
    {
      e < |pos| && pos[e] != INVALID
    }

    /** An element is contained when it is in the array. */
    lemma ContainsMeans(e: nat)
      requires Located(elems, pos)
      ensures Contains(e) <==> e in elems
    {}

    /** Two elements trade places, in the array and in the table of positions. */
    method Exchange(a: nat, b: nat)
      requires Located(elems, pos) && Contains(a) && Contains(b)
      modifies this`elems, this`pos
      ensures Located(elems, pos) && Elements(elems) == Elements(old(elems))
      ensures elems == Swap(old(elems), old(pos)[a], old(pos)[b])
      ensures pos == Swap(old(pos), a, b)
    {
      SwapLocated(elems, pos, pos[a], pos[b]);
      var i, j := pos[a], pos[b];
      elems := elems[i := elems[j]][j := elems[i]];
      pos := pos[a := j][b := i];
    }

    /** Towards the root until the parent is not below `e`; only the order between `e` and what
        is under it may then still be wrong. */
    method Up(e: nat)
      requires Located(elems, pos) && Contains(e) && StrictWeak(less) && OrderedBut(less, elems, pos[e])
      modifies this`elems, this`pos
      ensures Located(elems, pos) && Contains(e) && |pos| == |old(pos)|
      ensures Elements(elems) == Elements(old(elems)) && |elems| == |old(elems)|
      ensures OrderedBut(less, elems, pos[e]) && Below(less, elems, pos[e])
    {
      while pos[e] > 0 && less(elems[(pos[e] - 1) / 2], e)
        invariant Located(elems, pos) && Contains(e) && |pos| == |old(pos)|
        invariant Elements(elems) == Elements(old(elems)) && |elems| == |old(elems)|
        invariant OrderedBut(less, elems, pos[e])
        decreases pos[e]
      {
        var p := elems[(pos[e] - 1) / 2];
        UpStep(less, elems, pos[e]);
        Exchange(p, e);
      }
    }

    /** The position of the higher child. */
    method ChooseChild(e: nat) returns (c: nat)
      requires Located(elems, pos) && Contains(e) && StrictWeak(less) && 2 * pos[e] + 1 < |elems|
      ensures c in elems && Contains(c) && pos[c] > 0 && Parent(pos[c]) == pos[e]
      ensures HigherChild(less, elems, pos[e], pos[c])
    {
      c := elems[2 * pos[e] + 1];
      if 2 * pos[e] + 2 < |elems| {
        var r := elems[2 * pos[e] + 2];
        if less(c, r) {
          c := r;
        }
      }
      forall d: nat | 0 < d < |elems| && Parent(d) == pos[e] ensures !less(c, elems[d]) {
        assert d == 2 * pos[e] + 1 || d == 2 * pos[e] + 2;
      }
    }

    /** Away from the root, past each child above `e`; the whole heap is then in order. */
    method Down(e: nat)
      requires Located(elems, pos) && Contains(e) && StrictWeak(less)
      requires OrderedBut(less, elems, pos[e]) && Below(less, elems, pos[e])
      modifies this`elems, this`pos
      ensures Valid() && |pos| == |old(pos)|
      ensures Elements(elems) == Elements(old(elems)) && |elems| == |old(elems)|
    {
      while 2 * pos[e] + 1 < |elems|
        invariant Located(elems, pos) && Contains(e) && |pos| == |old(pos)|
        invariant Elements(elems) == Elements(old(elems)) && |elems| == |old(elems)|
        invariant OrderedBut(less, elems, pos[e]) && Below(less, elems, pos[e])
        decreases |elems| - pos[e]
      {
        var c := ChooseChild(e);
        if !less(e, c) {
          Settles(less, elems, pos[e]);
          return;
        }
        DownStep(less, elems, pos[e], pos[c]);
        Exchange(e, c);
      }
      Settles(less, elems, pos[e]);
    }

    /** Add an element that is not contained. */
    method PushBack(e: nat)
      requires Valid() && !Contains(e) && e < INVALID && |elems| < INVALID
      modifies this`elems, this`pos
      ensures Valid() && Elements(elems) == Elements(old(elems)) + {e} && |elems| == |old(elems)| + 1
    {
      var i := |elems|;
      ContainsMeans(e);
      elems := elems + [e];
      if e >= |pos| {
        pos := pos + seq(1 + e - |pos|, k => INVALID);
      }
      pos := pos[e := i];
      assert Located(elems, pos);
      forall j: nat | j != i && (0 < j ==> Parent(j) != i) ensures Below(less, elems, j) {
        assert Below(less, old(elems), j);
      }
      assert Elements(elems) == Elements(old(elems)) + {e};
      Up(e);
      Down(e);
    }

    /** The maximum. */
    method Front() returns (e: nat)
      requires Valid() && elems != []
      ensures e == elems[0] && forall d | d in elems :: !less(e, d)
    {
      e := elems[0];
      forall d | d in elems ensures !less(e, d) {
        var i :| 0 <= i < |elems| && elems[i] == d;
        FrontIsMaximum(less, elems, i);
      }
    }

    /** Remove the maximum. */
    method PopFront() returns (res: nat)
      requires Valid() && elems != []
      modifies this`elems, this`pos
      ensures Valid() && Elements(elems) == Elements(old(elems)) - {res} && |elems| == |old(elems)| - 1
      ensures res == old(elems)[0] && forall d | d in old(elems) :: !less(res, d)
    {
      res := Front();
      var last := elems[|elems| - 1];
      FrontRemoved(less, elems);
      if |elems| > 1 {
        Exchange(res, last);
      }
      LastRemoved(elems, pos);
      pos := pos[res := INVALID];
      elems := elems[..|elems| - 1];
      if |elems| > 1 {
        Down(last);
      }
    }

    /** Move an element whose priority changed. */
    method Update(e: nat, ghost before: Order)
      requires Located(elems, pos) && StrictWeak(less) && Contains(e)
      requires StrictWeak(before) && Ordered(before, elems)
      requires forall a, b | a != e && b != e :: less(a, b) == before(a, b)
      modifies this`elems, this`pos
      ensures Valid() && Elements(elems) == Elements(old(elems)) && |elems| == |old(elems)|
    {
      ChangedOne(before, less, elems, pos[e]);
      Up(e);
      Down(e);
    }
  }
}
