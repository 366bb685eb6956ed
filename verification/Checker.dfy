/** The forward proof checker: unit propagation over watched clauses, additions of original
    and derived clauses, deletions and garbage collection.  Whatever it holds to be true
    follows from the original clauses. */
module Checker {
  import opened Sat
  import opened CheckerData

  // ----- The order of literals -----

  predicate LitSmaller(a: Lit, b: Lit) {
    Abs(a) < Abs(b) || (Abs(a) == Abs(b) && a < b)
  }

  lemma SmallerByKey(a: Lit, b: Lit)
    ensures LitSmaller(a, b) <==> Key(a) < Key(b)
  {}

  ghost function Key(l: Lit): int {
    2 * Abs(l) + if l > 0 then 1 else 0
  }

  ghost predicate Sorted(s: seq<Lit>) {
    forall i, j | 0 <= i < j < |s| :: !LitSmaller(s[j], s[i])
  }

  lemma InsertedSorted(s: seq<Lit>, k: nat, l: Lit)
    requires Sorted(s) && k <= |s|
    requires (k > 0 ==> !LitSmaller(l, s[k - 1])) && forall j | k <= j < |s| :: LitSmaller(l, s[j])
    ensures Sorted(s[..k] + [l] + s[k..])
  {
    var s' := s[..k] + [l] + s[k..];
    forall i, j | 0 <= i < j < |s'| ensures !LitSmaller(s'[j], s'[i]) {
      assert i != k && j != k ==> !LitSmaller(s[if j < k then j else j - 1], s[if i < k then i else i - 1]);
      if j == k {
        SmallerByKey(l, s[k - 1]);
        SmallerByKey(s[k - 1], s[i]);
        SmallerByKey(l, s[i]);
      }
      if i == k {
        SmallerByKey(l, s[j - 1]);
        SmallerByKey(s[j - 1], l);
      }
    }
  }

  method Sort(c: seq<Lit>) returns (s: seq<Lit>)
    ensures Sorted(s) && multiset(s) == multiset(c)
  {
    s := [];
    for i := 0 to |c|
      invariant Sorted(s) && multiset(s) == multiset(c[..i])
    {
      var k := |s|;
      while k > 0 && LitSmaller(c[i], s[k - 1])
        invariant 0 <= k <= |s| && forall j | k <= j < |s| :: LitSmaller(c[i], s[j])
      {
        k := k - 1;
      }
      InsertedSorted(s, k, c[i]);
      assert s == s[..k] + s[k..];
      assert c[..i + 1] == c[..i] + [c[i]];
      s := s[..k] + [c[i]] + s[k..];
    }
    assert c[..|c|] == c;
  }

  /** In a sorted sequence a literal or its negation occurs before place `i` only if it is
      the previous one or the previous one is its variable's other literal. */
  lemma BeforeIsPrevious(s: seq<Lit>, i: nat)
    requires Sorted(s) && i < |s|
    ensures s[i] in s[..i] ==> i > 0 && s[i - 1] == s[i]
    ensures Neg(s[i]) in s[..i] ==> i > 0 && (s[i - 1] == s[i] || s[i - 1] == Neg(s[i]))
  {
    SameVariable(s[i], s[i]);
    if s[i] in s[..i] {
      var k :| 0 <= k < i && s[k] == s[i];
      assert !LitSmaller(s[i], s[i - 1]) && (k < i - 1 ==> !LitSmaller(s[i - 1], s[k]));
    }
    if Neg(s[i]) in s[..i] {
      var k :| 0 <= k < i && s[k] == Neg(s[i]);
      assert !LitSmaller(s[i], s[i - 1]) && (k < i - 1 ==> !LitSmaller(s[i - 1], s[k]));
      SameVariable(s[i - 1], s[i]);
    }
  }

  /** Whether no literal, one or more of a clause are not false. */
  datatype Open = Nothing | Unit(lit: Lit) | Several

  class Checker {
    var vals: map<Lit, int>
    var trail: seq<Lit>
    var nextToPropagate: nat
    var watchers: map<Lit, seq<Watch>>
    var arena: seq<CheckerClause>   // every clause ever stored, by reference
    var table: seq<nat>             // the live clauses, as one collision chain
    var garbage: seq<nat>           // clauses waiting to be freed
    ghost var active: set<nat>      // the table, and the garbage that is still propagated
    ghost var freed: set<nat>
    var inconsistent: bool
    var simplified: seq<Lit>
    ghost var ids: seq<Id>          // the identifier each was added with
    ghost var originals: seq<Clause>
    const nonces: seq<nat>

    ghost predicate Core()
      reads this
    {
      && TrailOk(vals, trail)
      && ArenaOk(originals, arena)
      && ListsOk(arena, table, garbage, freed) && ActiveOk(arena, active, table, garbage)
      && nextToPropagate <= |trail|
      && Hashed(nonces, arena, ids)
    }

    /** A right watch list without a way into freed memory. */
    ghost predicate SafeList(l: Lit, ws: seq<Watch>)
      reads this
    {
      ListOk(arena, l, ws) && NoneOf(ws, freed)
    }

    ghost predicate Wired()
      reads this
    {
      && Core()
      && (forall l | l in watchers :: SafeList(l, watchers[l]))
    }

    /** As `Wired`, with `ws` in the place of the list of `f`. */
    ghost predicate WiredWith(f: Lit, ws: seq<Watch>)
      reads this
    {
      && Core()
      && (forall l | l in watchers && l != f :: SafeList(l, watchers[l]))
      && SafeList(f, ws)
    }

    /** Between calls: the trail follows from the original clauses and is propagated, and
        inconsistency means that they have no model. */
    ghost predicate Valid()
      reads this
    {
      && Wired()
      && TrailEntailed(originals, {}, trail)
      && (inconsistent ==> Contradicts(originals, {}))
      && (!inconsistent ==> nextToPropagate == |trail| && Going(trail, trail, 1, ListOf(watchers, 1), [], true))
    }

    /** The clauses of the table. */
    ghost function Table(): seq<Row>
      reads this
    {
      TableOf(arena, ids, table)
    }

    /** The clauses propagation looks at. */
    ghost function Stored(): set<set<Lit>>
      reads this
    {
      StoredOf(arena, active)
    }

    /** A stored clause that is no garbage, or binary, is active. */
    lemma UsableIsActive(c: nat)
      requires Core() && c < |arena| && c !in freed && (arena[c].size != 0 || |arena[c].literals| == 2)
      ensures c in active
    {
      assert Placed(table, garbage, freed, c);
    }

    /** The nonces are the given random numbers made odd. */
    constructor (randoms: seq<nat>)
      requires |randoms| == 4 && forall r | r in randoms :: r < WORD
      ensures Valid() && originals == [] && !inconsistent && trail == [] && Table() == [] && garbage == []
      ensures forall n | 0 <= n < 4 :: nonces[n] == if randoms[n] % 2 == 0 then randoms[n] + 1 else randoms[n]
    {
      var odd: seq<nat> := [];
      for n := 0 to 4
        invariant |odd| == n
        invariant forall k | 0 <= k < n :: odd[k] == if randoms[k] % 2 == 0 then randoms[k] + 1 else randoms[k]
      {
        assert randoms[n] in randoms;
        var nonce := randoms[n];
        if nonce % 2 == 0 {
          nonce := nonce + 1;
        }
        odd := odd + [nonce];
      }
      forall n | n in odd ensures n % 2 == 1 && n < WORD {
        var k :| 0 <= k < 4 && odd[k] == n;
        assert randoms[k] in randoms;
      }
      nonces := odd;
      vals, trail, nextToPropagate := map[], [], 0;
      watchers, arena, ids, table, garbage, freed, active := map[], [], [], [], [], {}, {};
      inconsistent, simplified, originals := false, [], [];
    }

    function Val(l: Lit): int
      reads this
    {
      ValueOf(vals, l)
    }

    function Watchers(l: Lit): seq<Watch>
      reads this
    {
      if l in watchers then watchers[l] else []
    }

    method Assign(l: Lit)
      requires TrailOk(vals, trail) && Val(l) == 0
      modifies this`vals, this`trail
      ensures TrailOk(vals, trail) && trail == old(trail) + [l]
    {
      SameVariable(l, l);
      vals := vals[l := 1];
      vals := vals[Neg(l) := -1];
      trail := trail + [l];
      forall k: Lit
        ensures ValueOf(vals, k) == (if k in trail then 1 else if Neg(k) in trail then -1 else 0)
      {
        SameVariable(k, l);
        assert ValueOf(old(vals), k) == (if k in old(trail) then 1 else if Neg(k) in old(trail) then -1 else 0);
      }
    }

    // ----- Propagation -----

    /** The trail follows from the original clauses and the assumptions, and by unit
        propagation steps over clauses that include the active ones. */
    ghost predicate Entailed(basis: Basis)
      reads this
    {
      && TrailEntailed(originals, basis.hyp, trail) && Derived(basis, trail)
      && forall c | c in active && c < |arena| :: Members(arena[c].literals) in basis.clauses
    }

    /** The assumptions are contradictory, and unit propagation shows it. */
    ghost predicate Refuted(basis: Basis)
      reads this
    {
      Contradicts(originals, basis.hyp) && UnitRefuted(basis.clauses, basis.start)
    }

    lemma RefutedBy(basis: Basis, c: nat)
      requires Core() && Entailed(basis) && c < |arena| && c in active
      requires forall l | l in arena[c].literals :: Neg(l) in trail
      ensures Refuted(basis)
    {
      AllFalseContradicts(originals, basis.hyp, trail, arena[c].literals);
      DerivedRefutes(basis, trail, arena[c].literals);
    }

    lemma EntailedStays(before: seq<CheckerClause>, basis: Basis)
      requires SameClauses(before) && TrailEntailed(originals, basis.hyp, trail) && Derived(basis, trail)
      requires forall c | c in active && c < |before| :: Members(before[c].literals) in basis.clauses
      ensures Entailed(basis)
    {
      forall c | c in active && c < |arena| ensures Members(arena[c].literals) in basis.clauses {
        SameMembers(arena[c].literals, before[c].literals);
        assert Members(arena[c].literals) == Members(before[c].literals);
      }
    }

    /** Only order within clauses changed. */
    ghost predicate SameClauses(before: seq<CheckerClause>)
      reads this
    {
      && |arena| == |before| && Universe(arena) == Universe(before)
      && forall c | 0 <= c < |arena| ::
           arena[c].size == before[c].size && arena[c].hash == before[c].hash
           && multiset(arena[c].literals) == multiset(before[c].literals)
    }

    /** Assign a literal of a stored clause whose other literals are all false. */
    method AssignImplied(u: Lit, c: nat, ghost basis: Basis)
      requires Core() && Entailed(basis) && Val(u) == 0
      requires c < |arena| && c in active && u in arena[c].literals && FalseBut(arena[c].literals, trail, u)
      modifies this`vals, this`trail
      ensures Core() && Entailed(basis) && trail == old(trail) + [u]
      ensures u in Universe(arena) && u !in old(trail)
    {
      UnitEntailed(originals, basis.hyp, trail, arena[c].literals, u);
      DerivedGrows(basis, trail, arena[c].literals, u);
      Assign(u);
    }

    /** A binary clause is decided by its blocking literal alone. */
    method VisitBinary(f: Lit, w: Watch, ghost basis: Basis) returns (res: bool)
      requires Core() && Entailed(basis) && Neg(f) in trail
      requires WatchOk(arena, f, w) && w.size == 2 && Val(w.blit) <= 0 && w.clause !in freed
      modifies this`vals, this`trail
      ensures Core() && Entailed(basis) && Grown(old(trail), old(arena))
      ensures res ==> w.blit in trail
      ensures !res ==> Refuted(basis)
    {
      ghost var lits := arena[w.clause].literals;
      UsableIsActive(w.clause);
      assert forall l | l in lits :: l == f || l == w.blit;
      res := true;
      if Val(w.blit) < 0 {
        RefutedBy(basis, w.clause);
        res := false;
      } else {
        AssignImplied(w.blit, w.clause, basis);
      }
    }

    ghost predicate Grown(before: seq<Lit>, stored: seq<CheckerClause>)
      reads this
    {
      || trail == before
      || (|trail| == |before| + 1 && before <= trail && trail[|before|] in Universe(stored)
          && trail[|before|] !in before)
    }

    lemma DropWired(f: Lit, kept: seq<Watch>, w: Watch, rest: seq<Watch>)
      requires WiredWith(f, kept + [w] + rest)
      ensures WiredWith(f, kept + rest)
    {
      var ws, ws' := kept + [w] + rest, kept + rest;
      WatchDropped(arena, f, kept, w, rest);
      forall i | 0 <= i < |ws'| ensures ws'[i].clause !in freed {
        assert ws'[i] == ws[if i < |kept| then i else i + 1];
      }
    }

    lemma KeepWired(f: Lit, kept: seq<Watch>, w: Watch, w': Watch, rest: seq<Watch>)
      requires WiredWith(f, kept + [w] + rest)
      requires WatchOk(arena, f, w') && w'.clause == w.clause
      ensures WiredWith(f, kept + [w'] + rest)
    {
      var ws, ws' := kept + [w] + rest, kept + [w'] + rest;
      forall i | 0 <= i < |ws'| ensures ws'[i].clause == ws[i].clause && WatchOk(arena, f, ws'[i]) {
        assert i != |kept| ==> ws'[i] == ws[i];
        assert WatchOk(arena, f, ws[i]);
      }
    }

    /** Put `f` into the second place of the clause. */
    method OrderClause(c: nat, f: Lit, ghost ws: seq<Watch>, ghost rest: seq<Watch>,
                       ghost root: seq<Lit>, ghost done: seq<Lit>)
      requires WiredWith(f, ws) && c < |arena|
      requires arena[c].literals[0] == f || arena[c].literals[1] == f
      requires Going(root, done, f, ws, rest, true)
      modifies this`arena
      ensures WiredWith(f, ws) && SameClauses(old(arena))
      ensures Going(root, done, f, ws, rest, true)
      ensures arena == old(arena)[c := old(arena)[c].(literals := Ordered(old(arena)[c].literals, f))]
    {
      LiveOrdered(arena, active, watchers, trail, root, done, c, f, ws, rest);
      OrderedSame(arena[c].literals, f);
      Repermuted(originals, arena, c, Ordered(arena[c].literals, f));
      ListOrdered(arena, c, f, f, ws);
      forall l | l in watchers && l != f
        ensures ListOk(arena[c := arena[c].(literals := Ordered(arena[c].literals, f))], l, watchers[l])
      {
        assert SafeList(l, watchers[l]);
        ListOrdered(arena, c, f, l, watchers[l]);
      }
      arena := arena[c := arena[c].(literals := Ordered(arena[c].literals, f))];
    }

    /** The first literal from place two on that is not false; the length if there is none. */
    method FindReplacement(lits: seq<Lit>) returns (k: nat)
      requires |lits| >= 2
      ensures 2 <= k <= |lits|
      ensures k < |lits| ==> Val(lits[k]) >= 0
      ensures forall x | 2 <= x < k :: Val(lits[x]) < 0
    {
      k := 2;
      while k < |lits|
        invariant 2 <= k <= |lits| && forall x | 2 <= x < k :: Val(lits[x]) < 0
      {
        if Val(lits[k]) >= 0 {
          return;
        }
        k := k + 1;
      }
    }

    /** Watch the replacement and leave the list of `f`. */
    method MoveWatch(f: Lit, c: nat, k: nat, ghost kept: seq<Watch>, ghost w: Watch, ghost rest: seq<Watch>)
      requires WiredWith(f, kept + [w] + rest) && c == w.clause < |arena| && c !in freed
      requires 2 <= k < |arena[c].literals| && arena[c].literals[1] == f && arena[c].size == |arena[c].literals|
      modifies this`watchers, this`arena
      ensures WiredWith(f, kept + rest) && ListOf(watchers, f) == old(ListOf(watchers, f))
      ensures SameClauses(old(arena))
      ensures var lits := old(arena)[c].literals;
              && arena == old(arena)[c := old(arena)[c].(literals := Swapped(lits, k))]
              && watchers == old(watchers)[lits[k] := ListOf(old(watchers), lits[k]) + [Watch(f, |lits|, c)]]
    {
      var lits := arena[c].literals;
      ghost var arena' := arena[c := arena[c].(literals := Swapped(lits, k))];
      SwappedSame(lits, 1, k);
      Repermuted(originals, arena, c, Swapped(lits, k));
      DropWired(f, kept, w, rest);
      WatchDropped(arena, f, kept, w, rest);
      ListSwapped(arena, c, k, f, kept + rest);
      forall l | l in watchers && l != f ensures ListOk(arena', l, watchers[l]) {
        assert SafeList(l, watchers[l]);
        ListSwapped(arena, c, k, l, watchers[l]);
      }
      var r := lits[k];
      assert r in watchers ==> SafeList(r, watchers[r]);
      WatchAdded(arena, c, k, ListOf(watchers, r));
      watchers := watchers[r := Watchers(r) + [Watch(f, arena[c].size, c)]];
      arena := arena[c := arena[c].(literals := Swapped(lits, k))];
    }

    /** The clauses of the table are attached and settled, as in `Live`. */
    ghost predicate Going(root: seq<Lit>, done: seq<Lit>, f: Lit, ws: seq<Watch>, rest: seq<Watch>, ok: bool)
      reads this
    {
      Live(arena, active, watchers, trail, root, done, f, ws, rest, ok)
    }

    /** A long clause: look for a literal that is not false to watch instead of `f`. */
    method VisitLong(f: Lit, w: Watch, ghost kept: seq<Watch>, ghost rest: seq<Watch>, ghost basis: Basis,
                     ghost root: seq<Lit>, ghost done: seq<Lit>)
        returns (res: bool, keep: bool, w': Watch)
      requires WiredWith(f, kept + [w] + rest) && Entailed(basis) && Neg(f) in trail
      requires w.size > 2 && Val(w.blit) <= 0
      requires Going(root, done, f, kept + [w] + rest, [w] + rest, true)
      modifies this`vals, this`trail, this`watchers, this`arena
      ensures WiredWith(f, (if keep then kept + [w'] else kept) + rest) && Entailed(basis)
      ensures ListOf(watchers, f) == old(ListOf(watchers, f))
      ensures Grown(old(trail), old(arena)) && SameClauses(old(arena))
      ensures !res ==> keep && Refuted(basis)
      ensures Going(root, done, f, (if keep then kept + [w'] else kept) + rest, rest, res)
    {
      res, keep, w' := true, true, w;
      var c := w.clause;
      ghost var ws := kept + [w] + rest;
      assert ws[|kept|] == w;
      assert WatchOk(arena, f, w) && c !in freed;
      if arena[c].size == 0 {
        keep := false;
        DropWired(f, kept, w, rest);
        LiveDropped(arena, active, watchers, trail, root, done, f, kept, w, rest);
        return;
      }
      var other := Other(arena[c].literals, f);
      if Val(other) > 0 {
        w' := w.(blit := other);
        KeepWired(f, kept, w, w', rest);
        LiveKept(arena, active, watchers, trail, trail, root, done, f, kept, w, w', rest, true);
        return;
      }
      res, keep := VisitFalse(f, w, other, kept, rest, basis, root, done);
    }

    /** The other watched literal is not true either. */
    method VisitFalse(f: Lit, w: Watch, other: Lit, ghost kept: seq<Watch>, ghost rest: seq<Watch>,
                      ghost basis: Basis, ghost root: seq<Lit>, ghost done: seq<Lit>)
        returns (res: bool, keep: bool)
      requires WiredWith(f, kept + [w] + rest) && Entailed(basis) && Neg(f) in trail
      requires w.clause < |arena| && w.clause !in freed && arena[w.clause].size == |arena[w.clause].literals|
      requires WatchOk(arena, f, w) && other == Other(arena[w.clause].literals, f) && Val(other) <= 0
      requires Going(root, done, f, kept + [w] + rest, [w] + rest, true)
      modifies this`vals, this`trail, this`watchers, this`arena
      ensures WiredWith(f, (if keep then kept + [w] else kept) + rest) && Entailed(basis)
      ensures ListOf(watchers, f) == old(ListOf(watchers, f))
      ensures Grown(old(trail), old(arena)) && SameClauses(old(arena))
      ensures !res ==> keep && Refuted(basis)
      ensures Going(root, done, f, (if keep then kept + [w] else kept) + rest, rest, res)
    {
      res, keep := true, true;
      var c := w.clause;
      ghost var ws := kept + [w] + rest;
      OrderClause(c, f, ws, [w] + rest, root, done);
      EntailedStays(old(arena), basis);
      assert ws[|kept|] == w;
      assert WatchOk(arena, f, w);
      res, keep := VisitOrdered(f, w, other, kept, rest, basis, root, done);
      SameClausesTransitive(old(arena), arena);
    }

    /** The two watched literals are in place: `other` and `f`. */
    method VisitOrdered(f: Lit, w: Watch, other: Lit, ghost kept: seq<Watch>, ghost rest: seq<Watch>,
                        ghost basis: Basis, ghost root: seq<Lit>, ghost done: seq<Lit>)
        returns (res: bool, keep: bool)
      requires WiredWith(f, kept + [w] + rest) && Entailed(basis) && Neg(f) in trail
      requires w.clause < |arena| && w.clause !in freed && arena[w.clause].size == |arena[w.clause].literals|
      requires |arena[w.clause].literals| >= 2 && Val(other) <= 0
      requires arena[w.clause].literals[0] == other && arena[w.clause].literals[1] == f
      requires Going(root, done, f, kept + [w] + rest, [w] + rest, true)
      modifies this`vals, this`trail, this`watchers, this`arena
      ensures WiredWith(f, (if keep then kept + [w] else kept) + rest) && Entailed(basis)
      ensures ListOf(watchers, f) == old(ListOf(watchers, f))
      ensures Grown(old(trail), old(arena)) && SameClauses(old(arena))
      ensures !res ==> keep && Refuted(basis)
      ensures Going(root, done, f, (if keep then kept + [w] else kept) + rest, rest, res)
    {
      res, keep := true, true;
      var c := w.clause;
      UsableIsActive(c);
      var k := FindReplacement(arena[c].literals);
      if k < |arena[c].literals| {
        keep := false;
        LiveMoved(arena, active, watchers, trail, root, done, c, k, f, kept, w, rest);
        MoveWatch(f, c, k, kept, w, rest);
        EntailedStays(old(arena), basis);
      } else {
        ghost var before := trail;
        res := UseLast(c, f, other, basis);
        LiveKept(arena, active, watchers, before, trail, root, done, f, kept, w, w, rest, res);
      }
    }

    /** All literals but `other` are false: assign it, or there is a conflict. */
    method UseLast(c: nat, f: Lit, other: Lit, ghost basis: Basis) returns (res: bool)
      requires Core() && Entailed(basis) && Neg(f) in trail && c < |arena| && c in active && Val(other) <= 0
      requires |arena[c].literals| >= 2 && arena[c].literals[0] == other && arena[c].literals[1] == f
      requires forall x | 2 <= x < |arena[c].literals| :: Val(arena[c].literals[x]) < 0
      modifies this`vals, this`trail
      ensures Core() && Entailed(basis) && Grown(old(trail), old(arena))
      ensures res ==> other in trail
      ensures !res ==> Refuted(basis)
    {
      ghost var lits := arena[c].literals;
      forall l | l in lits && l != other ensures Neg(l) in trail {
        var x :| 0 <= x < |lits| && lits[x] == l;
      }
      res := true;
      if Val(other) == 0 {
        AssignImplied(other, c, basis);
      } else {
        RefutedBy(basis, c);
        res := false;
      }
    }

    /** Visit one watch, the blocking literal first. */
    method Visit(f: Lit, w: Watch, kept: seq<Watch>, ghost rest: seq<Watch>, ghost basis: Basis,
                 ghost root: seq<Lit>, ghost done: seq<Lit>)
        returns (res: bool, kept': seq<Watch>)
      requires WiredWith(f, kept + [w] + rest) && Entailed(basis) && Neg(f) in trail
      requires Going(root, done, f, kept + [w] + rest, [w] + rest, true)
      modifies this`vals, this`trail, this`watchers, this`arena
      ensures WiredWith(f, kept' + rest) && Entailed(basis)
      ensures ListOf(watchers, f) == old(ListOf(watchers, f))
      ensures Grown(old(trail), old(arena)) && SameClauses(old(arena))
      ensures !res ==> Refuted(basis)
      ensures Going(root, done, f, kept' + rest, rest, res)
    {
      assert (kept + [w] + rest)[|kept|] == w;
      assert WatchOk(arena, f, w);
      res := true;
      if Val(w.blit) > 0 {
        kept' := kept + [w];
        LiveKept(arena, active, watchers, trail, trail, root, done, f, kept, w, w, rest, true);
      } else if w.size == 2 {
        ghost var before := trail;
        res := VisitBinary(f, w, basis);
        kept' := kept + [w];
        LiveKept(arena, active, watchers, before, trail, root, done, f, kept, w, w, rest, res);
      } else {
        var keep, w';
        res, keep, w' := VisitLong(f, w, kept, rest, basis, root, done);
        kept' := if keep then kept + [w'] else kept;
      }
    }

    /** What a scan of the list of `f` keeps, `list` being what is kept and to be visited. */
    ghost predicate Scanning(f: Lit, list: seq<Watch>, rest: seq<Watch>, ok: bool, run: Run)
      reads this
    {
      && WiredWith(f, list) && Entailed(run.basis) && Neg(f) in trail
      && Longer(run.trail) && SameClauses(run.arena)
      && Going(run.root, run.done, f, list, rest, ok)
      && (!ok ==> Refuted(run.basis))
    }

    method VisitNext(f: Lit, ws: seq<Watch>, i: nat, kept: seq<Watch>, ghost run: Run)
        returns (res: bool, kept': seq<Watch>)
      requires i < |ws| && Scanning(f, kept + ws[i..], ws[i..], true, run)
      modifies this`vals, this`trail, this`watchers, this`arena
      ensures Scanning(f, kept' + ws[i + 1..], ws[i + 1..], res, run)
      ensures ListOf(watchers, f) == old(ListOf(watchers, f))
    {
      ghost var before, stored := trail, arena;
      NextOf(kept, ws, i);
      res, kept' := Visit(f, ws[i], kept, ws[i + 1..], run.basis, run.root, run.done);
      SameClausesTransitive(run.arena, stored);
      GrownIsLonger(run.trail, before, stored, run.arena);
    }

    /** Visit the watches of `f`, keeping those that stay. */
    method PropagateList(f: Lit, ghost run: Run) returns (res: bool)
      requires Scanning(f, ListOf(watchers, f), ListOf(watchers, f), true, run)
      modifies this`vals, this`trail, this`watchers, this`arena
      ensures Scanning(f, ListOf(watchers, f), [], res, run) && Wired()
    {
      res := true;
      var ws := Watchers(f);
      var kept: seq<Watch> := [];
      var i := 0;
      assert [] + ws[0..] == ws == ws[0..];
      while res && i < |ws|
        invariant i <= |ws| && Scanning(f, kept + ws[i..], ws[i..], res, run)
      {
        res, kept := VisitNext(f, ws, i, kept, run);
        i := i + 1;
      }
      StoreList(f, kept + ws[i..], ws[i..], res, run);
    }

    method StoreList(f: Lit, ws: seq<Watch>, ghost rest: seq<Watch>, ghost ok: bool, ghost run: Run)
      requires Scanning(f, ws, rest, ok, run) && (ok ==> rest == [])
      modifies this`watchers
      ensures Scanning(f, ListOf(watchers, f), [], ok, run) && Wired()
    {
      LiveStored(arena, active, watchers, trail, run.root, run.done, f, ws, rest, ok);
      assert SafeList(f, ws);
      watchers := watchers[f := ws];
      assert ListOf(watchers, f) == ws;
    }

    /** The trail kept its beginning, and what is new are stored literals. */
    ghost predicate Longer(before: seq<Lit>)
      reads this
    {
      && before <= trail
      && forall i | |before| <= i < |trail| :: trail[i] in Universe(arena) && trail[i] !in before
    }

    lemma SameClausesTransitive(a: seq<CheckerClause>, b: seq<CheckerClause>)
      requires SameClauses(b) && |a| == |b| && Universe(a) == Universe(b)
      requires forall c | 0 <= c < |a| ::
                 a[c].size == b[c].size && a[c].hash == b[c].hash && multiset(a[c].literals) == multiset(b[c].literals)
      ensures SameClauses(a)
    {}

    lemma GrownIsLonger(start: seq<Lit>, before: seq<Lit>, stored: seq<CheckerClause>, first: seq<CheckerClause>)
      requires start <= before
      requires forall i | |start| <= i < |before| :: before[i] in Universe(arena) && before[i] !in start
      requires Grown(before, stored) && Universe(stored) == Universe(arena)
      ensures Longer(start)
    {}

    /** What propagation keeps between two lists; with nothing to visit, any literal will do
        for the one whose list is at work. */
    ghost predicate Steady(run: Run, ok: bool)
      reads this
    {
      && Wired() && Entailed(run.basis)
      && Longer(run.trail) && SameClauses(run.arena)
      && Going(run.root, trail[..nextToPropagate], 1, ListOf(watchers, 1), [], ok)
      && (!ok ==> Refuted(run.basis))
    }

    method PropagateNext(ghost run: Run) returns (res: bool)
      requires Steady(run, true) && nextToPropagate < |trail|
      modifies this`vals, this`trail, this`watchers, this`arena, this`nextToPropagate
      ensures Steady(run, res)
      ensures nextToPropagate == old(nextToPropagate) + 1
      ensures Universe(arena) - Members(trail) <= Universe(old(arena)) - Members(old(trail))
      ensures |trail| != |old(trail)| ==>
                Universe(arena) - Members(trail) < Universe(old(arena)) - Members(old(trail))
    {
      ghost var stored, before := arena, trail;
      var lit := trail[nextToPropagate];
      SameVariable(lit, lit);
      ghost var done := trail[..nextToPropagate + 1];
      assert done == trail[..nextToPropagate] + [lit];
      nextToPropagate := nextToPropagate + 1;
      LiveStart(arena, active, watchers, trail, run.root, trail[..nextToPropagate - 1], lit);
      res := PropagateList(Neg(lit), Run(run.basis, before, stored, run.root, done));
      assert trail[..nextToPropagate] == done;
      LiveEnd(arena, active, watchers, trail, run.root, done, Neg(lit), res);
      SameClausesTransitive(run.arena, stored);
      LongerTransitive(run.trail, before);
      NewLeavesUniverse(before, stored);
    }

    /** Unit propagation from where it stopped, until nothing is left or a clause is false. */
    method Propagate(ghost run: Run) returns (res: bool)
      requires Steady(run, true)
      modifies this`vals, this`trail, this`watchers, this`arena, this`nextToPropagate
      ensures Steady(run, res) && nextToPropagate >= old(nextToPropagate)
      ensures res ==> nextToPropagate == |trail|
    {
      res := true;
      while res && nextToPropagate < |trail|
        invariant Steady(run, res) && nextToPropagate >= old(nextToPropagate)
        decreases Universe(arena) - Members(trail), |trail| - nextToPropagate, res
      {
        res := PropagateNext(run);
      }
    }

    lemma LongerTransitive(start: seq<Lit>, before: seq<Lit>)
      requires Longer(before) && start <= before
      requires forall i | |start| <= i < |before| :: before[i] in Universe(arena) && before[i] !in start
      ensures Longer(start)
    {}

    lemma NewLeavesUniverse(before: seq<Lit>, stored: seq<CheckerClause>)
      requires Longer(before) && Universe(stored) == Universe(arena)
      ensures Universe(arena) - Members(trail) <= Universe(stored) - Members(before)
      ensures |trail| > |before| ==> Universe(arena) - Members(trail) < Universe(stored) - Members(before)
    {
      assert forall l | l in before :: l in trail;
      if |trail| > |before| {
        var l := trail[|before|];
        assert l in Universe(stored) - Members(before) && l !in Universe(arena) - Members(trail);
      }
    }

    /** Undo the trail down to the given length. */
    method Backtrack(previously: nat)
      requires TrailOk(vals, trail) && previously <= |trail|
      modifies this`vals, this`trail, this`nextToPropagate
      ensures TrailOk(vals, trail) && trail == old(trail)[..previously] && nextToPropagate == previously
    {
      while |trail| > previously
        invariant TrailOk(vals, trail) && previously <= |trail| <= |old(trail)|
        invariant trail == old(trail)[..|trail|]
      {
        var lit := trail[|trail| - 1];
        ghost var before, values := trail, vals;
        SameVariable(lit, lit);
        vals := vals[lit := 0];
        vals := vals[Neg(lit) := 0];
        trail := trail[..|trail| - 1];
        assert before == trail + [lit];
        forall k: Lit
          ensures ValueOf(vals, k) == (if k in trail then 1 else if Neg(k) in trail then -1 else 0)
        {
          SameVariable(k, lit);
          assert ValueOf(values, k) == (if k in before then 1 else if Neg(k) in before then -1 else 0);
        }
      }
      nextToPropagate := previously;
    }

    /** Assume the negation of each literal and propagate.  Unless there is a conflict already,
        the clause is accepted exactly if unit propagation over the active clauses refutes its
        negation; it is implied then.  Trail and values are restored. */
    method Check() returns (res: bool)
      requires Valid() && Simplified()
      modifies this`vals, this`trail, this`watchers, this`arena, this`nextToPropagate
      ensures Valid() && trail == old(trail) && Table() == old(Table())
      ensures Stored() == old(Stored()) && Dead() == old(Dead())
      ensures res ==> Implied(originals, simplified)
      ensures res <==> inconsistent || Refutes(Stored(), trail, Members(simplified))
      ensures !res ==> Withstands(Stored(), trail, Members(simplified))
    {
      hide Valid, Steady, SameClauses, Refutes, Withstands;
      if inconsistent {
        ConflictWhenInconsistent(simplified);
        return true;
      }
      var previously := nextToPropagate;
      ghost var basis := AssumeNegations();
      ghost var run := Run(basis, trail, arena, old(trail), old(trail));
      res := Refute(run);
      Undo(previously, run, !res);
      Resettled(old(arena));
      WithstandingIsUnrefuted(Stored(), trail, Members(simplified));
    }

    /** After a conflict everything is implied. */
    lemma ConflictWhenInconsistent(c: Clause)
      requires Valid() && inconsistent
      ensures Implied(originals, c)
    {
      ConflictImplies(originals, c);
    }

    /** Another order of the literals in the clauses changes nothing of what is stored. */
    lemma Resettled(before: seq<CheckerClause>)
      requires Valid() && SameClauses(before)
      ensures Table() == TableOf(before, ids, table)
      ensures Stored() == StoredOf(before, active) && Dead() == BinaryOf(before, garbage)
    {
      TableSame(before, arena, ids, table);
      StoredSame(before, arena, active);
      BinarySame(before, arena, garbage);
    }

    method Undo(previously: nat, ghost run: Run, ghost ok: bool)
      requires Steady(run, ok) && !inconsistent && previously == |run.root| && TrailEntailed(originals, {}, run.root)
      modifies this`vals, this`trail, this`nextToPropagate
      ensures Valid() && trail == run.root && SameClauses(run.arena)
    {
      hide ListOk, ArenaOk, Live, Contradicts, TrailEntailed, Universe, Hashed;
      LiveShorter(arena, active, watchers, trail, run.root, trail[..nextToPropagate], ok);
      assert trail[..previously] == run.root;
      Backtrack(previously);
    }

    /** Sorted, without duplicates, and no literal of it true or there with its negation. */
    ghost predicate Simplified()
      reads this
    {
      && DistinctLits(simplified)
      && forall l | l in simplified :: Neg(l) !in simplified && l !in trail
    }

    /** Propagate what was assumed, and look for a conflict. */
    method Refute(ghost run: Run) returns (res: bool)
      requires Steady(run, true) && run.basis.hyp == Negations(simplified) && run.root <= run.trail == trail
      requires StartsFrom(trail, run.root, Members(simplified)) && run.basis.start == trail
      modifies this`vals, this`trail, this`watchers, this`arena, this`nextToPropagate
      ensures Steady(run, !res)
      ensures res ==> Implied(originals, simplified)
      ensures res ==> Refutes(run.basis.clauses, run.root, Members(simplified))
      ensures !res ==> Withstands(Stored(), run.root, Members(simplified))
    {
      ghost var start := trail;
      assert forall l | l in simplified :: Neg(l) in trail by {
        AllNegated(trail, run.root, simplified);
      }
      var ok := Propagate(run);
      assert forall l | l in start :: l in trail;
      res := !ok;
      if res {
        RefutedIsImplied(originals, simplified, run.basis.hyp);
      } else {
        assert trail[..nextToPropagate] == trail;
        SettledSaturates(originals, arena, active, vals, trail);
        assert Extends(trail, run.root, Members(simplified));
      }
    }

    method AssumeNegations() returns (ghost basis: Basis)
      requires Valid() && !inconsistent && Simplified()
      modifies this`vals, this`trail
      ensures Steady(Run(basis, trail, arena, old(trail), old(trail)), true) && old(trail) <= trail
      ensures nextToPropagate == |old(trail)| && TrailEntailed(originals, {}, old(trail))
      ensures basis == Basis(Negations(simplified), trail, Stored())
      ensures StartsFrom(trail, old(trail), Members(simplified))
    {
      ghost var hyp: set<Lit> := {};
      ghost var start := trail;
      assert forall l | l in simplified :: l !in start;
      for i := 0 to |simplified|
        invariant Wired() && TrailEntailed(originals, hyp, trail) && start <= trail
        invariant hyp == Negations(simplified[..i])
        invariant forall t | t in trail :: t in start || t in hyp
        invariant forall h | h in hyp :: h in trail
      {
        var l := simplified[i];
        SameVariable(l, l);
        EntailsMore(originals, hyp, hyp + {Neg(l)}, trail);
        assert simplified[..i + 1] == simplified[..i] + [l];
        AssumeNegation(l, hyp);
        hyp := hyp + {Neg(l)};
      }
      assert simplified[..|simplified|] == simplified;
      NegationsAre(simplified);
      LiveLonger(arena, active, watchers, start, trail);
      assert trail[..nextToPropagate] == start;
      basis := Basis(hyp, trail, Stored());
      DerivedStart(basis);
    }

    /** Assume the negation of a literal that is not true. */
    method AssumeNegation(l: Lit, ghost hyp: set<Lit>)
      requires Wired() && l !in trail
      requires TrailEntailed(originals, hyp + {Neg(l)}, trail)
      modifies this`vals, this`trail
      ensures Wired() && TrailEntailed(originals, hyp + {Neg(l)}, trail)
      ensures trail == old(trail) || trail == old(trail) + [Neg(l)]
      ensures Neg(l) in trail
    {
      SameVariable(l, l);
      if Val(Neg(l)) > 0 {
        return;
      }
      Assign(Neg(l));
    }

    // ----- Importing a clause -----

    /** Sort the clause, drop duplicates, and find out whether it holds anyway: because of a
        literal that is true, or one that is there with its negation. */
    method Tautological(ghost c: Clause) returns (res: bool)
      requires simplified == c && TrailOk(vals, trail)
      modifies this`simplified
      ensures res <==> Redundant(c, trail)
      ensures !res ==> Simplified() && Members(simplified) == Members(c) && Sorted(simplified)
    {
      var s := Sort(simplified);
      SameMembers(s, c);
      simplified := [];
      var prev: int := 0;
      for i := 0 to |s|
        invariant i > 0 ==> prev == s[i - 1]
        invariant DistinctLits(simplified) && forall l :: l in s[..i] <==> l in simplified
        invariant Sorted(simplified)
        invariant i == 0 ==> prev == 0
        invariant forall l | l in simplified :: Neg(l) !in simplified && l !in trail
      {
        var lit := s[i];
        assert s[..i + 1] == s[..i] + [lit];
        BeforeIsPrevious(s, i);
        if lit == prev {
          continue;
        }
        if prev != 0 && lit == -prev {
          assert s[i - 1] in c && lit in c;
          return true;
        }
        if Val(lit) > 0 {
          assert lit in c;
          return true;
        }
        assert forall l | l in simplified :: l in s[..i] && !LitSmaller(lit, l);
        simplified, prev := simplified + [lit], lit;
      }
      assert s[..|s|] == s;
      assert forall l :: l in c <==> l in simplified;
      return false;
    }

    /** Take over the clause that is given, and find out whether it holds anyway. */
    method Import(c: Clause) returns (redundant: bool)
      requires Valid()
      modifies this`simplified
      ensures Valid() && Table() == old(Table()) && Stored() == old(Stored()) && Dead() == old(Dead())
      ensures redundant <==> Redundant(c, trail)
      ensures !redundant ==> Simplified() && Members(simplified) == Members(c)
    {
      hide Hashed;
      simplified := c;
      redundant := Tautological(c);
    }

    /** The literals that are not false, as far as it matters how many there are. */
    method FindOpen() returns (open: Open)
      requires TrailOk(vals, trail) && Simplified()
      ensures match open {
                case Nothing => OpenLits(simplified, trail) == {}
                case Unit(u) => OpenLits(simplified, trail) == {u}
                case Several => HasTwo(OpenLits(simplified, trail))
              }
    {
      open := Nothing;
      for i := 0 to |simplified|
        invariant open != Several
        invariant open == Nothing ==> OpenLits(simplified[..i], trail) == {}
        invariant open.Unit? ==> OpenLits(simplified[..i], trail) == {open.lit} && open.lit in simplified[..i]
      {
        var lit := simplified[i];
        assert simplified[..i + 1] == simplified[..i] + [lit];
        if Val(lit) < 0 {
          continue;
        }
        if open.Unit? {
          assert lit in OpenLits(simplified, trail) && open.lit in OpenLits(simplified, trail);
          assert lit !in simplified[..i];
          return Several;
        }
        open := Unit(lit);
      }
      assert simplified[..|simplified|] == simplified;
    }

    // ----- Additions -----

    /** Bring an unassigned literal to place `i`. */
    method PickOpen(lits: seq<Lit>, i: nat) returns (lits': seq<Lit>)
      requires exists j :: i <= j < |lits| && Val(lits[j]) == 0
      ensures multiset(lits') == multiset(lits) && |lits'| == |lits|
      ensures lits'[..i] == lits[..i] && Val(lits'[i]) == 0
    {
      if Val(lits[i]) == 0 {
        return lits;
      }
      var j := i + 1;
      while Val(lits[j]) != 0
        invariant i < j < |lits| && exists x :: j <= x < |lits| && Val(lits[x]) == 0
        decreases |lits| - j
      {
        j := j + 1;
      }
      SwappedSame(lits, i, j);
      return lits[i := lits[j]][j := lits[i]];
    }

    /** The literals of the new clause, the first two of them unassigned. */
    method ChooseWatches() returns (lits: seq<Lit>)
      requires TrailOk(vals, trail) && Simplified() && HasTwo(OpenLits(simplified, trail))
      ensures multiset(lits) == multiset(simplified) && |lits| >= 2
      ensures Val(lits[0]) == 0 && Val(lits[1]) == 0
    {
      ghost var l, k :| l in OpenLits(simplified, trail) && k in OpenLits(simplified, trail) && l != k;
      assert Val(l) == 0 && Val(k) == 0;
      lits := PickOpen(simplified, 0);
      SameMembers(lits, simplified);
      ghost var other := if lits[0] == l then k else l;
      assert other in lits && other != lits[0] && Val(other) == 0;
      ghost var first := lits[0];
      lits := PickOpen(lits, 1);
      assert lits[0] == lits[..1][0] == first;
    }

    /** Store a clause with at least two literals that are not false, and watch the first two. */
    method Insert(id: Id)
      requires Valid() && !inconsistent && Simplified() && Implied(originals, simplified)
      requires HasTwo(OpenLits(simplified, trail))
      modifies this`watchers, this`arena, this`ids, this`table, this`active
      ensures Valid() && Table() == [Row(id, Members(simplified))] + old(Table())
      ensures Stored() == old(Stored()) + {Members(simplified)} && Dead() == old(Dead())
    {
      var lits := ChooseWatches();
      StoreClause(lits, id);
    }

    method StoreClause(lits: seq<Lit>, id: Id)
      requires Valid() && !inconsistent && Simplified() && Implied(originals, simplified)
      requires multiset(lits) == multiset(simplified) && |lits| >= 2
      requires Val(lits[0]) == 0 && Val(lits[1]) == 0
      modifies this`watchers, this`arena, this`ids, this`table, this`active
      ensures Valid() && Table() == [Row(id, Members(simplified))] + old(Table())
      ensures Stored() == old(Stored()) + {Members(simplified)} && Dead() == old(Dead())
    {
      hide Valid, HashOf, Hashed, ListsOk, BinaryOf;
      NoncesOdd();
      ghost var hash := HashOf(nonces, id);
      ghost var d := CheckerClause(|lits|, lits, hash);
      SameMembers(lits, simplified);
      assert Members(lits) == Members(simplified);
      AllAllocated();
      TableInserted(arena, ids, table, d, id);
      StoredInserted(arena, active, d);
      BinarySame(arena, arena + [d], garbage);
      Attach(lits, id);
    }

    lemma AllAllocated()
      requires Valid()
      ensures |ids| == |arena| && |nonces| == 4 && (forall c | c in table :: c < |arena|)
      ensures (forall c | c in active :: c < |arena|) && forall c | c in garbage :: c < |arena|
    {}

    /** Enter the clause everywhere. */
    method Attach(lits: seq<Lit>, id: Id)
      requires Valid() && !inconsistent && Simplified() && Implied(originals, simplified)
      requires multiset(lits) == multiset(simplified) && |lits| >= 2
      requires Val(lits[0]) == 0 && Val(lits[1]) == 0
      modifies this`watchers, this`arena, this`ids, this`table, this`active
      ensures Valid() && |nonces| == 4
      ensures arena == old(arena) + [CheckerClause(|lits|, lits, HashOf(nonces, id))] && ids == old(ids) + [id]
      ensures table == [|old(arena)|] + old(table) && active == {|old(arena)|} + old(active)
    {
      hide TrailEntailed, Contradicts, Live, Implied, ListsOk, ActiveOk, ListOk, NoneOf, Inserted, ArenaOk, HashOf,
           Hashed;
      HashedFacts(nonces, arena, ids);
      SameMembers(lits, simplified);
      DistinctByCount(simplified);
      DistinctByCount(lits);
      var c := |arena|;
      var hash := ComputeHash(id);
      ListsInserted(arena, CheckerClause(|lits|, lits, hash), active, table, garbage, freed);
      ArenaExtended(originals, arena, simplified, lits, hash);
      LiveInserted(arena, active, watchers, trail, lits, hash);
      HashedInserted(nonces, arena, ids, CheckerClause(|lits|, lits, hash), id);
      InsertedSafe(lits, hash);
      arena := arena + [CheckerClause(|lits|, lits, hash)];
      ids := ids + [id];
      watchers := Inserted(watchers, lits, c);
      table := [c] + table;
      active := {c} + active;
    }

    /** The watch lists with a new clause stay right. */
    lemma InsertedSafe(lits: seq<Lit>, hash: int)
      requires Wired() && |lits| >= 2 && lits[0] != lits[1] && |arena| !in freed
      ensures var watchers' := Inserted(watchers, lits, |arena|);
              forall l | l in watchers' ::
                ListOk(arena + [CheckerClause(|lits|, lits, hash)], l, watchers'[l]) && NoneOf(watchers'[l], freed)
    {
      hide Inserted, ListOk, Core;
      var watchers' := Inserted(watchers, lits, |arena|);
      forall l | l in watchers'
        ensures ListOk(arena + [CheckerClause(|lits|, lits, hash)], l, watchers'[l]) && NoneOf(watchers'[l], freed)
      {
        assert l in watchers ==> SafeList(l, watchers[l]);
        NoWatches(arena, l);
        ListInserted(arena, watchers, lits, hash, l, freed);
      }
    }

    /** Assign a unit that follows from the original clauses, and propagate it. */
    method AddUnit(u: Lit)
      requires Valid() && !inconsistent && Val(u) == 0 && Entails(originals, {}, u)
      modifies this`vals, this`trail, this`watchers, this`arena, this`nextToPropagate, this`inconsistent
      ensures Valid() && Table() == old(Table()) && Stored() == old(Stored()) && Dead() == old(Dead())
      ensures Propagated(old(trail) + [u], old(Stored()), trail, inconsistent)
    {
      hide ListOk, ArenaOk, Live, Contradicts, TrailEntailed, Entails, UnitRefuted, Saturated, Derived, ActiveOk;
      ghost var root := trail;
      GarbageAllocated(arena, table, garbage, freed);
      EntailedGrows(originals, trail, u);
      Assign(u);
      LiveLonger(arena, active, watchers, root, trail);
      assert trail[..nextToPropagate] == root;
      ghost var basis := Basis({}, trail, Stored());
      DerivedStart(basis);
      var ok := Propagate(Run(basis, trail, arena, root, root));
      TableSame(old(arena), arena, ids, table);
      StoredSame(old(arena), arena, active);
      BinarySame(old(arena), arena, garbage);
      LiveRooted(arena, active, watchers, trail, root, trail[..nextToPropagate], ok);
      if ok {
        PropagatedSaturates();
        SaturatedIsUnrefuted(Stored(), root + [u], trail);
      } else {
        inconsistent := true;
      }
    }

    lemma PropagatedSaturates()
      requires Core() && Going(trail, trail, 1, ListOf(watchers, 1), [], true)
      ensures Saturated(Stored(), trail) && forall l | l in trail :: Neg(l) !in trail
    {
      SettledSaturates(originals, arena, active, vals, trail);
    }

    /** What adding a clause without true or complementary literals does, given the trail, the
        table and the propagated clauses before: it is a conflict, a new unit, or a new entry of
        the table. */
    ghost predicate Recorded(c: Clause, id: Id, before: seq<Lit>, rows: seq<Row>, cs: set<set<Lit>>)
      reads this
    {
      && (OpenLits(c, before) == {} ==> inconsistent && trail == before && Table() == rows && Stored() == cs)
      && (forall u | OpenLits(c, before) == {u} ::
            Table() == rows && Stored() == cs && Propagated(before + [u], cs, trail, inconsistent))
      && (HasTwo(OpenLits(c, before)) ==>
            && !inconsistent && trail == before
            && Table() == [Row(id, Members(c))] + rows && Stored() == cs + {Members(c)})
    }

    /** Nothing that matters changed. */
    ghost predicate Unmoved(conflict: bool, before: seq<Lit>, rows: seq<Row>, cs: set<set<Lit>>)
      reads this
    {
      inconsistent == conflict && trail == before && Table() == rows && Stored() == cs
    }

    /** Add the simplified clause, which follows from the original ones. */
    method AddClause(id: Id)
      requires Valid() && !inconsistent && Simplified() && Implied(originals, simplified)
      modifies this`vals, this`trail, this`watchers, this`arena, this`nextToPropagate, this`inconsistent,
               this`ids, this`table, this`active
      ensures Dead() == old(Dead())
      ensures Valid() && Recorded(simplified, id, old(trail), old(Table()), old(Stored()))
    {
      hide Valid, Derived, Saturated, UnitRefuted;
      TrailIsOk();
      var open := FindOpen();
      match open {
        case Nothing =>
          LearnConflict();
        case Unit(u) =>
          UnitFollows(u);
          AddUnit(u);
        case Several =>
          Insert(id);
      }
    }

    lemma TrailIsOk()
      requires Valid()
      ensures TrailOk(vals, trail)
    {}

    lemma UnitFollows(u: Lit)
      requires Valid() && Implied(originals, simplified) && OpenLits(simplified, trail) == {u} && Simplified()
      ensures Val(u) == 0 && Entails(originals, {}, u)
    {
      assert u in OpenLits(simplified, trail);
      UnitEntailed(originals, {}, trail, simplified, u) by {
        assert forall l | l in simplified && Neg(l) !in trail :: l in OpenLits(simplified, trail);
      }
    }

    /** All literals of a clause that follows from the original ones are false. */
    method LearnConflict()
      requires Valid() && !inconsistent && Implied(originals, simplified) && OpenLits(simplified, trail) == {}
      modifies this`inconsistent
      ensures Valid() && inconsistent
      ensures Table() == old(Table()) && Stored() == old(Stored()) && Dead() == old(Dead())
    {
      hide Hashed;
      AllFalseContradicts(originals, {}, trail, simplified) by {
        assert forall l | l in simplified :: Neg(l) !in trail ==> l in OpenLits(simplified, trail);
      }
      inconsistent := true;
    }

    /** One of four odd numbers of 64 bits times the clause's id. */
    function ComputeHash(id: Id): nat
      requires |nonces| == 4
    {
      HashOf(nonces, id)
    }

    /** An original clause is recorded whatever it is, unless there is a conflict already or
        it is true anyway. */
    method AddOriginalClause(id: Id, c: Clause)
      requires Valid()
      modifies this`originals, this`vals, this`trail, this`watchers, this`arena, this`ids, this`nextToPropagate,
               this`inconsistent, this`table, this`active, this`simplified
      ensures Valid() && originals == old(originals) + [c] && Dead() == old(Dead())
      ensures if old(inconsistent) || Redundant(c, old(trail))
              then Unmoved(old(inconsistent), old(trail), old(Table()), old(Stored()))
              else Recorded(c, id, old(trail), old(Table()), old(Stored()))
    {
      hide Valid, OpenLits, Redundant, Propagated;
      AddOriginal(c);
      if inconsistent {
        return;
      }
      var redundant := Import(c);
      if !redundant {
        ImpliedSameLits(originals, simplified, c);
        SameLits(simplified, c, trail);
        AddClause(id);
      }
    }

    ghost method AddOriginal(c: Clause)
      requires Valid()
      modifies this`originals
      ensures Valid() && originals == old(originals) + [c] && Implied(originals, c)
      ensures Table() == old(Table()) && Stored() == old(Stored()) && Dead() == old(Dead())
    {
      hide Hashed;
      OriginalAdded(originals, c, arena, trail);
      originals := originals + [c];
    }

    /** A derived clause has to pass the check; if it does not, the program stops. */
    method AddDerivedClause(id: Id, c: Clause) returns (ok: bool)
      requires Valid()
      modifies this`vals, this`trail, this`watchers, this`arena, this`ids, this`nextToPropagate, this`inconsistent,
               this`table, this`active, this`simplified
      ensures Valid() && Dead() == old(Dead())
      ensures ok ==> Implied(originals, c)
      ensures ok <==> old(inconsistent) || Redundant(c, old(trail)) || Refutes(old(Stored()), old(trail), Members(c))
      ensures !ok ==> Withstands(Stored(), trail, Members(c))
      ensures if !ok || old(inconsistent) || Redundant(c, old(trail))
              then Unmoved(old(inconsistent), old(trail), old(Table()), old(Stored()))
              else Recorded(c, id, old(trail), old(Table()), old(Stored()))
    {
      hide Valid, Redundant, OpenLits, Propagated, Refutes, Withstands;
      if inconsistent {
        ConflictWhenInconsistent(c);
        return true;
      }
      var redundant := Import(c);
      if redundant {
        RedundantFollows(c);
        return true;
      }
      ok := Check();
      if ok {
        ImpliedSameLits(originals, simplified, c);
        SameLits(simplified, c, trail);
        AddClause(id);
      }
    }

    lemma RedundantFollows(c: Clause)
      requires Valid() && Redundant(c, trail)
      ensures Implied(originals, c)
    {
      RedundantIsImplied(originals, trail, c);
    }

    // ----- Deletions and garbage -----

    /** Whether all literals of a stored clause are among the simplified ones. */
    method AllMarked(literals: seq<Lit>) returns (found: bool)
      ensures found <==> forall l | l in literals :: l in simplified
    {
      found := true;
      var i := 0;
      while found && i < |literals|
        invariant i <= |literals|
        invariant found <==> forall l | l in literals[..i] :: l in simplified
      {
        assert literals[..i + 1] == literals[..i] + [literals[i]];
        found := literals[i] in simplified;
        i := i + 1;
      }
      assert found ==> literals[..i] == literals;
    }

    /** The place in the table of the first clause with this id's hash and the simplified literals. */
    method Find(id: Id) returns (i: nat)
      requires Valid() && DistinctLits(simplified)
      ensures i <= |table| && (i < |table| ==> IsStored(nonces, Table(), i, Members(simplified), id))
      ensures forall j :: IsStored(nonces, Table(), j, Members(simplified), id) ==> i <= j < |table|
    {
      hide HashOf, Hashed, TrailOk;
      HashedFacts(nonces, arena, ids);
      var hash := ComputeHash(id);
      i := 0;
      while i < |table|
        invariant i <= |table|
        invariant forall j | 0 <= j < i :: !IsStored(nonces, Table(), j, Members(simplified), id)
      {
        var c := table[i];
        assert c in table;
        RowAt(i);
        SameByCount(arena[c].literals, simplified);
        if arena[c].hash == hash && arena[c].size == |simplified| {
          var found := AllMarked(arena[c].literals);
          if found {
            return;
          }
        }
        i := i + 1;
      }
    }

    /** Take a clause out of the table and mark it as garbage. */
    method Retire(i: nat)
      requires Valid() && !inconsistent && i < |table|
      modifies this`arena, this`table, this`garbage, this`active
      ensures Valid() && Table() == Without(old(Table()), i)
      ensures |garbage| == |old(garbage)| + 1
      ensures Dead() == old(Dead()) + if |old(Table())[i].lits| == 2 then {old(Table())[i].lits} else {}
    {
      hide Live, Contradicts, TrailEntailed, TrailOk, ListsOk, ActiveOk, ListOk, Hashed, BinaryOf;
      var c := table[i];
      TableAllocated(arena, table, garbage, freed);
      assert c in table;
      ghost var arena' := arena[c := arena[c].(size := 0)];
      ghost var table' := table[..i] + table[i + 1..];
      ghost var active' := if |arena[c].literals| == 2 then active else active - {c};
      ListsRetired(arena, arena', active, table, garbage, freed, i);
      HashedFacts(nonces, arena, ids);
      HashedSame(nonces, arena, arena', ids);
      BinaryRetired(arena, arena', garbage, c);
      assert Table()[i].lits == Members(arena[c].literals);
      LiveFewer(arena, arena', active, active', watchers, trail);
      TableWithout(arena, arena', ids, table, i);
      forall l | l in watchers ensures ListOk(arena', l, watchers[l]) {
        assert SafeList(l, watchers[l]);
        ListSized(arena, arena', l, watchers[l]);
      }
      table := table[..i] + table[i + 1..];
      garbage := [c] + garbage;
      active := active';
      arena := arena[c := arena[c].(size := 0)];
    }

    method ClauseSatisfied(c: nat) returns (res: bool)
      requires Core() && c in table
      ensures res <==> SatisfiedBy(arena[c].literals, trail)
    {
      assert arena[c].size == |arena[c].literals|;
      for i := 0 to arena[c].size
        invariant forall j | 0 <= j < i :: arena[c].literals[j] !in trail
      {
        if Val(arena[c].literals[i]) > 0 {
          return true;
        }
      }
      return false;
    }

    /** Mark the clauses of the table that are true. */
    method RetireSatisfied()
      requires Valid() && !inconsistent
      modifies this`arena, this`table, this`garbage, this`active
      ensures Valid() && Table() == Unsatisfied(old(Table()), trail)
    {
      hide ListOk, ArenaOk, ListsOk, ActiveOk, Live, Contradicts, TrailEntailed, Unsatisfied;
      var i := 0;
      while i < |table|
        invariant Valid() && !inconsistent && i <= |table| == |Table()|
        invariant Unsatisfied(Table(), trail) == Unsatisfied(old(Table()), trail)
        invariant forall j | 0 <= j < i :: !TrueIn(Table()[j].lits, trail)
        decreases |table| - i
      {
        TableAllocated(arena, table, garbage, freed);
        assert table[i] in table;
        var satisfied := ClauseSatisfied(table[i]);
        ghost var stored := Table();
        SatisfiedByMembers(arena[table[i]].literals, trail);
        if satisfied {
          UnsatisfiedWithout(Table(), i, trail);
          Retire(i);
          assert forall j | 0 <= j < i :: Table()[j] == stored[j];
        } else {
          i := i + 1;
        }
      }
      NoneSatisfied(Table(), trail);
    }

    /** A watch list without the watches of garbage. */
    method FilterList(l: Lit, ws: seq<Watch>) returns (kept: seq<Watch>)
      requires SafeList(l, ws)
      ensures SafeList(l, kept) && Alive(arena, kept)
      ensures forall c | 0 <= c < |arena| && arena[c].size != 0 && Watches(ws, c) :: Watches(kept, c)
    {
      kept := [];
      for i := 0 to |ws|
        invariant SafeList(l, kept) && Alive(arena, kept)
        invariant forall k | 0 <= k < |kept| :: Watches(ws[..i], kept[k].clause)
        invariant forall j | 0 <= j < i && arena[ws[j].clause].size != 0 :: Watches(kept, ws[j].clause)
      {
        assert WatchOk(arena, l, ws[i]);
        assert ws[..i + 1] == ws[..i] + [ws[i]];
        forall c ensures Watches(ws[..i + 1], c) <==> Watches(ws[..i], c) || c == ws[i].clause {
          WatchesSplit(ws[..i], [ws[i]], c);
          WatchesOne(ws[i], c);
        }
        if arena[ws[i].clause].size != 0 {
          assert !Watches(ws[..i], ws[i].clause);
          forall c ensures Watches(kept + [ws[i]], c) <==> Watches(kept, c) || c == ws[i].clause {
            WatchesSplit(kept, [ws[i]], c);
            WatchesOne(ws[i], c);
          }
          kept := kept + [ws[i]];
        }
      }
    }

    /** As `Valid`, with only the table propagated: its other watches are being dropped. */
    ghost predicate Collecting()
      reads this
    {
      && TrailOk(vals, trail) && ArenaOk(originals, arena) && ListsOk(arena, table, garbage, freed)
      && Hashed(nonces, arena, ids)
      && (forall l | l in watchers :: SafeList(l, watchers[l]))
      && TrailEntailed(originals, {}, trail) && nextToPropagate == |trail|
      && Live(arena, InTable(), watchers, trail, trail, trail, 1, ListOf(watchers, 1), [], true)
    }

    ghost function InTable(): set<nat>
      reads this
    {
      set c | c in table
    }

    /** Filter all watch lists. */
    method FilterLists()
      requires Collecting()
      modifies this`watchers
      ensures Collecting() && forall l | l in watchers :: Alive(arena, watchers[l])
    {
      hide Live, ArenaOk, TrailEntailed, TrailOk;
      var keys := watchers.Keys;
      while keys != {}
        invariant Collecting()
        invariant keys <= watchers.Keys && forall l | l in watchers && l !in keys :: Alive(arena, watchers[l])
        decreases |keys|
      {
        var l :| l in keys;
        keys := keys - {l};
        assert SafeList(l, watchers[l]);
        var kept := FilterList(l, watchers[l]);
        LiveFiltered(arena, InTable(), watchers, trail, l, kept);
        watchers := watchers[l := kept];
      }
    }

    /** Free the garbage; no watch leads to it. */
    method FreeGarbage()
      requires Collecting() && !inconsistent && forall l | l in watchers :: Alive(arena, watchers[l])
      modifies this`garbage, this`freed, this`active
      ensures Valid() && garbage == [] && freed == old(freed) + set c | c in old(garbage)
    {
      hide Live, ArenaOk, TrailEntailed, TrailOk;
      forall l | l in watchers ensures NoneOf(watchers[l], freed + set c | c in garbage) {
        assert SafeList(l, watchers[l]);
      }
      forall c | 0 <= c < |arena| ensures c in table || c in freed + set g | g in garbage {
        assert Placed(table, garbage, freed, c);
      }
      freed := freed + set c | c in garbage;
      garbage := [];
      active := InTable();
    }

    /** Retire what is true at the top, and free all garbage. */
    method CollectGarbageClauses()
      requires Valid() && !inconsistent
      modifies this`arena, this`table, this`garbage, this`watchers, this`freed, this`active
      ensures Valid() && Table() == Unsatisfied(old(Table()), trail) && garbage == [] && Dead() == {}
    {
      RetireSatisfied();
      LiveFewer(arena, arena, active, InTable(), watchers, trail);
      FilterLists();
      FreeGarbage();
    }

    /** The garbage that is still propagated. */
    ghost function Dead(): set<set<Lit>>
      reads this
    {
      BinaryOf(arena, garbage)
    }

    /** Propagation looks at the table and at binary garbage. */
    lemma StoredIs()
      requires Valid()
      ensures Stored() == (set r | r in Table() :: r.lits) + Dead()
    {
      forall c | c in active && c < |arena|
        ensures Members(arena[c].literals) in (set r | r in Table() :: r.lits) + Dead()
      {
        if c in table {
          var i :| 0 <= i < |table| && table[i] == c;
          assert Table()[i].lits == Members(arena[c].literals);
        }
      }
      forall r | r in Table() ensures r.lits in Stored() {
        var i :| 0 <= i < |Table()| && Table()[i] == r;
        assert table[i] in table;
      }
    }

    /** Delete one copy of the clause, and collect garbage if there is enough of it.  If the
        table has no clause with these literals and this id's hash, the program stops; so it
        does for a clause that is stored only under other ids with the same remainder. */
    method DeleteClause(id: Id, c: Clause, capacity: nat) returns (ok: bool)
      requires Valid()
      modifies this`arena, this`table, this`garbage, this`watchers, this`freed, this`active, this`simplified
      ensures Valid() && trail == old(trail)
      ensures ok <==> old(inconsistent) || Redundant(c, old(trail)) ||
                      exists i :: IsStored(nonces, old(Table()), i, Members(c), id)
      ensures !ok || old(inconsistent) || Redundant(c, old(trail)) ==>
                Table() == old(Table()) && Dead() == old(Dead()) && |garbage| == |old(garbage)|
      ensures ok && !old(inconsistent) && !Redundant(c, old(trail)) ==>
                exists i :: Deletes(Members(c), id, old(Table()), i, old(Dead()), |old(garbage)|, capacity)
      ensures !old(inconsistent) && !Redundant(c, old(trail)) && OtherIds(old(Table()), Members(c), id) ==> !ok
    {
      hide Valid, HashOf, Redundant, OtherIds, OddNonces, Unsatisfied;
      NoncesOdd();
      if inconsistent {
        return true;
      }
      var redundant := Import(c);
      if redundant {
        return true;
      }
      var i := Find(id);
      ok := i < |table|;
      assert forall j :: IsStored(nonces, old(Table()), j, Members(c), id) ==> i <= j < |table|;
      if ok {
        assert IsStored(nonces, old(Table()), i, Members(c), id);
        OtherIdsDiffer(nonces, old(Table()), Members(c), id, i);
        RetireFound(i, Members(c), id, capacity);
        assert Deletes(Members(c), id, old(Table()), i, old(Dead()), |old(garbage)|, capacity);
      }
    }

    /** Retire an entry, and collect garbage if there is enough of it. */
    method RetireFound(i: nat, ghost c: set<Lit>, ghost id: Id, capacity: nat)
      requires Valid() && !inconsistent && |nonces| == 4 && IsStored(nonces, Table(), i, c, id)
      requires forall j | 0 <= j < i :: !IsStored(nonces, Table(), j, c, id)
      modifies this`arena, this`table, this`garbage, this`watchers, this`freed, this`active
      ensures Valid() && Deletes(c, id, old(Table()), i, old(Dead()), |old(garbage)|, capacity)
    {
      hide Valid, HashOf, Unsatisfied, Dead;
      assert Table()[i].lits == c;
      Retire(i);
      if 2 * |garbage| > capacity {
        CollectGarbageClauses();
      }
    }

    lemma NoncesOdd()
      requires Valid()
      ensures OddNonces(nonces) && |nonces| == 4
    {}

    lemma RowAt(j: int)
      requires Core()
      ensures 0 <= j < |table| ==>
                && table[j] < |arena| && arena[table[j]].hash == HashOf(nonces, ids[table[j]])
                && Table()[j] == Row(ids[table[j]], Members(arena[table[j]].literals))
    {
      assert 0 <= j < |table| ==> table[j] in table;
    }

    /** Entry `i` was the first with these literals and this hash.  If there is enough garbage
        now, the table is as before without it and without what is true, and no garbage is
        left; otherwise it is as before without it, and there is one clause more of garbage. */
    ghost predicate Deletes(c: set<Lit>, id: Id, rows: seq<Row>, i: int, dead: set<set<Lit>>, trash: nat, capacity: nat)
      requires |nonces| == 4
      reads this
    {
      && IsStored(nonces, rows, i, c, id)
      && (forall j | 0 <= j < i :: !IsStored(nonces, rows, j, c, id))
      && if 2 * (trash + 1) > capacity
         then Table() == Unsatisfied(Without(rows, i), trail) && garbage == [] && Dead() == {}
         else
           && Table() == Without(rows, i) && |garbage| == trash + 1
           && Dead() == dead + if |c| == 2 then {c} else {}
    }

    /** Check the clause and delete it again.  An accepted clause is always found again, so the
        program stops only for the check; the table is as before, maybe without what is true,
        and of the clause only a unit or a conflict stays. */
    method AddAssumptionClause(id: Id, c: Clause, capacity: nat) returns (ok: bool)
      requires Valid()
      modifies this`vals, this`trail, this`watchers, this`arena, this`ids, this`nextToPropagate, this`inconsistent,
               this`table, this`active, this`simplified, this`garbage, this`freed
      ensures Valid()
      ensures ok ==> Implied(originals, c)
      ensures ok <==> old(inconsistent) || Redundant(c, old(trail)) || Refutes(old(Stored()), old(trail), Members(c))
      ensures !ok ==> Withstands(Stored(), trail, Members(c))
      ensures if !ok || old(inconsistent) || Redundant(c, old(trail))
              then
                && inconsistent == old(inconsistent) && trail == old(trail) && Table() == old(Table())
                && Dead() == old(Dead()) && |garbage| == |old(garbage)|
              else Passed(c, old(trail), old(Table()), old(Stored()), old(Dead()), |old(garbage)|, capacity)
    {
      hide Valid, Implied, Refutes, Withstands, Redundant, HashOf, Propagated, OddNonces;
      NoncesOdd();
      ok := AddDerivedClause(id, c);
      if ok {
        if !old(inconsistent) && !Redundant(c, old(trail)) {
          RecordedIsStored(c, id, old(trail), old(Table()), old(Stored()));
        }
        ok := DeleteClause(id, c, capacity);
      }
    }

    /** An added clause either needs no deletion or is the first of the table. */
    lemma RecordedIsStored(c: Clause, id: Id, before: seq<Lit>, rows: seq<Row>, cs: set<set<Lit>>)
      requires Recorded(c, id, before, rows, cs) && |nonces| == 4
      ensures HasTwo(OpenLits(c, before)) ==>
                IsStored(nonces, Table(), 0, Members(c), id) && Without(Table(), 0) == rows
      ensures if HasTwo(OpenLits(c, before)) then !inconsistent && trail == before
              else (inconsistent || Redundant(c, trail))
      ensures !HasTwo(OpenLits(c, before)) ==>
                forall capacity: nat :: Passed(c, before, rows, cs, Dead(), |garbage|, capacity)
    {
      var open := OpenLits(c, before);
      if HasTwo(open) {
        var a, b :| a in open && b in open && a != b;
      } else if open != {} {
        var u :| u in open;
        assert open == {u};
        assert trail[|before|] == u;
      }
    }

    /** What an accepted clause leaves behind that is deleted at once. */
    ghost predicate Passed(c: Clause, before: seq<Lit>, rows: seq<Row>, cs: set<set<Lit>>, dead: set<set<Lit>>,
                           trash: nat, capacity: nat)
      reads this
    {
      && (OpenLits(c, before) == {} ==> inconsistent && trail == before && Table() == rows)
      && (forall u | OpenLits(c, before) == {u} :: Table() == rows && Propagated(before + [u], cs, trail, inconsistent))
      && (HasTwo(OpenLits(c, before)) ==>
            && !inconsistent && trail == before
            && if 2 * (trash + 1) > capacity then Table() == Unsatisfied(rows, trail) && garbage == [] && Dead() == {}
               else
                 && Table() == rows && |garbage| == trash + 1
                 && Dead() == dead + if |Members(c)| == 2 then {Members(c)} else {})
      && (!HasTwo(OpenLits(c, before)) ==> Dead() == dead && |garbage| == trash)
    }

    /** The verdict: after a conflict the original clauses have no model. */
    lemma InconsistentIsUnsatisfiable()
      requires Valid() && inconsistent
      ensures !Satisfiable(originals, [])
    {
      assert forall m | Models(m, originals) :: exists h: Lit :: h in {} && !True(m, h);
    }
  }
}
