/** What the proof checker's data structures mean: consequence, watch lists over stored
    clauses, the trail, and unit propagation defined without any of them. */
module CheckerData {
  import opened Sat

  // ----- Consequence -----

  /** Every model of the clauses in which all of `hyp` is true makes `l` true. */
  ghost predicate Entails(cs: seq<Clause>, hyp: set<Lit>, l: Lit) {
    forall m | Models(m, cs) && (forall h | h in hyp :: True(m, h)) :: True(m, l)
  }

  ghost predicate Contradicts(cs: seq<Clause>, hyp: set<Lit>) {
    forall m | Models(m, cs) :: exists h :: h in hyp && !True(m, h)
  }

  ghost predicate Implied(cs: seq<Clause>, c: Clause) {
    forall m | Models(m, cs) :: Holds(m, c)
  }

  // ----- The data structures -----

  /** A stored clause; size zero marks garbage. */
  datatype CheckerClause = CheckerClause(size: nat, literals: seq<Lit>, hash: int)

  datatype Watch = Watch(blit: Lit, size: nat, clause: nat)

  /** The watched literal is one of the first two, the blocking literal another one. */
  ghost predicate WatchOk(arena: seq<CheckerClause>, l: Lit, w: Watch) {
    && w.clause < |arena|
    && var lits := arena[w.clause].literals;
       && w.size == |lits| >= 2
       && (lits[0] == l || lits[1] == l)
       && w.blit in lits && w.blit != l
  }

  ghost predicate ListOk(arena: seq<CheckerClause>, l: Lit, ws: seq<Watch>) {
    && (forall i | 0 <= i < |ws| :: WatchOk(arena, l, ws[i]))
    && (forall i, j | 0 <= i < j < |ws| :: ws[i].clause != ws[j].clause)
  }

  ghost predicate ArenaOk(originals: seq<Clause>, arena: seq<CheckerClause>) {
    forall c | 0 <= c < |arena| ::
      && DistinctLits(arena[c].literals) && |arena[c].literals| >= 2
      && (arena[c].size == 0 || arena[c].size == |arena[c].literals|)
      && Implied(originals, arena[c].literals)
  }

  /** `vals` shows exactly the literals on the trail, each once and none with its negation. */
  ghost predicate TrailOk(vals: map<Lit, int>, trail: seq<Lit>) {
    && (forall l: Lit :: ValueOf(vals, l) == (if l in trail then 1 else if Neg(l) in trail then -1 else 0))
    && DistinctLits(trail)
    && (forall l | l in trail :: Neg(l) !in trail)
  }

  /** A clause ever stored is in the table, waiting to be freed, or freed. */
  ghost predicate Placed(table: seq<nat>, garbage: seq<nat>, freed: set<nat>, c: nat) {
    c in table || c in garbage || c in freed
  }

  ghost predicate AllPlaced(n: nat, table: seq<nat>, garbage: seq<nat>, freed: set<nat>) {
    forall c: nat {:trigger Placed(table, garbage, freed, c)} | c < n :: Placed(table, garbage, freed, c)
  }

  /** Clauses in the lists are allocated, and their size tells live from garbage. */
  ghost predicate ListsOk(arena: seq<CheckerClause>, table: seq<nat>, garbage: seq<nat>, freed: set<nat>) {
    && (forall c | c in table :: c < |arena| && c !in freed && arena[c].size != 0)
    && (forall i, j | 0 <= i < j < |table| :: table[i] != table[j])
    && (forall c | c in garbage :: c < |arena| && c !in freed && arena[c].size == 0)
    && (forall c | c in freed :: c < |arena| && arena[c].size == 0)
    && AllPlaced(|arena|, table, garbage, freed)
  }

  /** Propagation looks at the table and at binary garbage. */
  ghost predicate ActiveOk(arena: seq<CheckerClause>, active: set<nat>, table: seq<nat>, garbage: seq<nat>) {
    forall c: nat {:trigger c in active} ::
      c in active <==> c in table || (c in garbage && c < |arena| && |arena[c].literals| == 2)
  }

  lemma TableAllocated(arena: seq<CheckerClause>, table: seq<nat>, garbage: seq<nat>, freed: set<nat>)
    requires ListsOk(arena, table, garbage, freed)
    ensures forall c | c in table :: c < |arena|
  {}

  lemma ListsInserted(arena: seq<CheckerClause>, d: CheckerClause, active: set<nat>, table: seq<nat>,
                      garbage: seq<nat>, freed: set<nat>)
    requires ListsOk(arena, table, garbage, freed) && ActiveOk(arena, active, table, garbage) && d.size != 0
    ensures ListsOk(arena + [d], [|arena|] + table, garbage, freed)
    ensures ActiveOk(arena + [d], {|arena|} + active, [|arena|] + table, garbage)
    ensures |arena| !in freed && (forall c | c in table :: c < |arena|) && forall c | c in active :: c < |arena|
  {
    forall c: nat | c < |arena| + 1 ensures Placed([|arena|] + table, garbage, freed, c) {
      assert c < |arena| ==> Placed(table, garbage, freed, c);
    }
  }

  lemma ListsRetired(arena: seq<CheckerClause>, arena': seq<CheckerClause>, active: set<nat>, table: seq<nat>,
                     garbage: seq<nat>, freed: set<nat>, i: nat)
    requires ListsOk(arena, table, garbage, freed) && ActiveOk(arena, active, table, garbage)
    requires i < |table| && table[i] < |arena| && arena' == arena[table[i] := arena[table[i]].(size := 0)]
    ensures var c, table' := table[i], table[..i] + table[i + 1..];
            && c !in freed && ListsOk(arena', table', [c] + garbage, freed)
            && ActiveOk(arena', if |arena[c].literals| == 2 then active else active - {c}, table', [c] + garbage)
  {
    var c, table' := table[i], table[..i] + table[i + 1..];
    RemovedFrom(table, i);
    assert forall d :: d in table' ==> d in table && d != c;
    forall j, k | 0 <= j < k < |table'| ensures table'[j] != table'[k] {
      assert table[if j < i then j else j + 1] != table[if k < i then k else k + 1];
    }
    forall d: nat | d < |arena| ensures Placed(table', [c] + garbage, freed, d) {
      assert Placed(table, garbage, freed, d);
    }
  }

  /** A clause of the table occurs there once. */
  lemma RemovedFrom(table: seq<nat>, i: nat)
    requires i < |table| && forall j, k | 0 <= j < k < |table| :: table[j] != table[k]
    ensures forall d :: d in table[..i] + table[i + 1..] <==> d in table && d != table[i]
  {
    var table' := table[..i] + table[i + 1..];
    forall d ensures d in table' <==> d in table && d != table[i] {
      if d in table && d != table[i] {
        var j :| 0 <= j < |table| && table[j] == d;
        assert table'[if j < i then j else j - 1] == d;
      }
    }
  }

  function ValueOf(vals: map<Lit, int>, l: Lit): int {
    if l in vals then vals[l] else 0
  }

  /** An entry of the table: the identifier it was added with, and its literals. */
  datatype Row = Row(id: nat, lits: set<Lit>)

  ghost function TableOf(arena: seq<CheckerClause>, ids: seq<nat>, table: seq<nat>): (rows: seq<Row>)
    ensures |rows| == |table|
  {
    seq(|table|, i => if 0 <= i < |table| && table[i] < |arena| && table[i] < |ids|
                      then Row(ids[table[i]], Members(arena[table[i]].literals)) else Row(0, {}))
  }

  /** The literal sets of some of the clauses ever stored. */
  ghost function StoredOf(arena: seq<CheckerClause>, active: set<nat>): set<set<Lit>> {
    set c | c in active && c < |arena| :: Members(arena[c].literals)
  }

  // ----- Hashing identifiers -----

  const WORD: nat := 0x1_0000_0000_0000_0000

  type Id = i: nat | i < WORD

  /** Four odd numbers of 64 bits. */
  ghost predicate OddNonces(nonces: seq<nat>) {
    |nonces| == 4 && forall n | n in nonces :: n % 2 == 1 && n < WORD
  }

  /** The identifier times one of the four numbers, with 64 bits. */
  function HashOf(nonces: seq<nat>, id: Id): nat
    requires |nonces| == 4
  {
    (nonces[id % 4] * id) % WORD
  }

  /** Each fourth identifier adds the same to the hash, from zero to three on. */
  lemma HashSteps(nonces: seq<nat>, id: Id)
    requires |nonces| == 4
    ensures HashOf(nonces, 0) == 0 && HashOf(nonces, 1) == nonces[1] % WORD
    ensures HashOf(nonces, 2) == (nonces[2] + nonces[2]) % WORD
    ensures HashOf(nonces, 3) == (nonces[3] + nonces[3] + nonces[3]) % WORD
    ensures id + 4 < WORD ==> HashOf(nonces, id + 4) == (HashOf(nonces, id) + 4 * nonces[id % 4]) % WORD
  {
    if id + 4 < WORD {
      var n := nonces[id % 4];
      assert (id + 4) % 4 == id % 4;
      assert n * (id + 4) == n * id + 4 * n;
      ModAdds(n * id, 4 * n);
    }
  }

  lemma ModAdds(a: nat, b: nat)
    ensures (a + b) % WORD == (a % WORD + b) % WORD
  {
    var q := a / WORD;
    assert a == q * WORD + a % WORD;
    ModShift(a % WORD + b, q);
  }

  lemma {:induction false} ModShift(a: nat, q: nat)
    ensures (q * WORD + a) % WORD == a % WORD
  {
    if q > 0 {
      ModShift(a, q - 1);
      assert q * WORD + a == (q - 1) * WORD + a + WORD;
    }
  }

  /** Different identifiers with the same remainder modulo four have different hashes. */
  lemma HashesDiffer(nonces: seq<nat>, a: Id, b: Id)
    requires OddNonces(nonces) && a % 4 == b % 4
    ensures HashOf(nonces, a) == HashOf(nonces, b) ==> a == b
  {
    var n := nonces[a % 4];
    assert n in nonces;
    if (n * a) % WORD == (n * b) % WORD {
      if a <= b {
        OddIsInjective(n, a, b);
      } else {
        OddIsInjective(n, b, a);
      }
    }
  }

  lemma OddIsInjective(n: nat, a: Id, b: Id)
    requires n % 2 == 1 && a <= b && (n * a) % WORD == (n * b) % WORD
    ensures a == b
  {
    assert n * b - n * a == n * (b - a) by {
      assert n * b == n * a + n * (b - a);
    }
    var q := SameRemainder(n * a, n * b);
    PowerOfTwo64();
    var e := OddFactor(n, b - a, 64, q);
  }

  lemma SameRemainder(x: nat, y: nat) returns (q: nat)
    requires x <= y && x % WORD == y % WORD
    ensures y - x == WORD * q
  {
    q := y / WORD - x / WORD;
  }

  function Power(k: nat): nat {
    if k == 0 then 1 else 2 * Power(k - 1)
  }

  lemma PowerOfTwo64()
    ensures Power(64) == WORD
  {
    PowerAdds(8, 8);
    PowerAdds(16, 16);
    PowerAdds(32, 32);
    assert Power(8) == 256;
  }

  lemma {:induction false} PowerAdds(a: nat, b: nat)
    ensures Power(a + b) == Power(a) * Power(b)
  {
    if a > 0 {
      PowerAdds(a - 1, b);
      assert 2 * (Power(a - 1) * Power(b)) == (2 * Power(a - 1)) * Power(b);
    }
  }

  /** An odd factor does not help to be divisible by a power of two. */
  lemma {:induction false} OddFactor(n: nat, d: nat, k: nat, q: nat) returns (e: nat)
    requires n % 2 == 1 && n * d == Power(k) * q
    ensures d == Power(k) * e
  {
    if k == 0 {
      e := d;
    } else {
      var p := Power(k - 1);
      assert n * d == 2 * (p * q);
      var h := EvenFactor(n, d, p * q);
      assert 2 * (n * h) == n * d;
      e := OddFactor(n, h, k - 1, q);
      assert d == 2 * (p * e);
    }
  }

  lemma EvenFactor(n: nat, d: nat, m: nat) returns (h: nat)
    requires n % 2 == 1 && n * d == 2 * m
    ensures d == 2 * h
  {
    var i := n / 2;
    assert n == 2 * i + 1;
    assert n * d == 2 * (i * d) + d;
    h := m - i * d;
  }

  /** Every clause ever stored has the hash of its identifier. */
  ghost predicate Hashed(nonces: seq<nat>, arena: seq<CheckerClause>, ids: seq<Id>) {
    && OddNonces(nonces) && |ids| == |arena|
    && forall c | 0 <= c < |arena| :: arena[c].hash == HashOf(nonces, ids[c])
  }

  lemma HashedInserted(nonces: seq<nat>, arena: seq<CheckerClause>, ids: seq<Id>, d: CheckerClause, id: Id)
    requires Hashed(nonces, arena, ids) && d.hash == HashOf(nonces, id)
    ensures Hashed(nonces, arena + [d], ids + [id])
  {}

  lemma HashedSame(nonces: seq<nat>, arena: seq<CheckerClause>, arena': seq<CheckerClause>, ids: seq<Id>)
    requires Hashed(nonces, arena, ids) && |arena'| == |arena|
    requires forall c | 0 <= c < |arena| :: arena'[c].hash == arena[c].hash
    ensures Hashed(nonces, arena', ids)
  {}

  lemma HashedFacts(nonces: seq<nat>, arena: seq<CheckerClause>, ids: seq<Id>)
    requires Hashed(nonces, arena, ids)
    ensures |nonces| == 4 && |ids| == |arena|
  {}

  /** Row `i` has these literals and this hash. */
  ghost predicate IsStored(nonces: seq<nat>, rows: seq<Row>, i: int, c: set<Lit>, id: Id)
    requires |nonces| == 4
  {
    && 0 <= i < |rows| && rows[i].lits == c && rows[i].id < WORD
    && HashOf(nonces, rows[i].id) == HashOf(nonces, id)
  }

  /** All literals of stored clauses. */
  ghost function Universe(arena: seq<CheckerClause>): set<Lit> {
    set c, l | 0 <= c < |arena| && l in arena[c].literals :: l
  }

  /** The clause is in the table under other identifiers alone, all with the same remainder. */
  ghost predicate OtherIds(rows: seq<Row>, c: set<Lit>, id: Id) {
    forall i | 0 <= i < |rows| && rows[i].lits == c :: rows[i].id != id && rows[i].id % 4 == id % 4
  }

  lemma OtherIdsDiffer(nonces: seq<nat>, rows: seq<Row>, c: set<Lit>, id: Id, i: int)
    requires OddNonces(nonces) && IsStored(nonces, rows, i, c, id)
    ensures !OtherIds(rows, c, id)
  {
    if OtherIds(rows, c, id) {
      HashesDiffer(nonces, rows[i].id, id);
    }
  }

  // ----- Reordering a clause for its watches -----

  /** The watched literal beside `f`. */
  function Other(lits: seq<Lit>, f: Lit): Lit
    requires |lits| >= 2
  {
    if lits[0] == f then lits[1] else lits[0]
  }

  /** `f` in the second place. */
  function Ordered(lits: seq<Lit>, f: Lit): seq<Lit>
    requires |lits| >= 2
  {
    [Other(lits, f), f] + lits[2..]
  }

  lemma OrderedSame(lits: seq<Lit>, f: Lit)
    requires |lits| >= 2 && (lits[0] == f || lits[1] == f)
    ensures multiset(Ordered(lits, f)) == multiset(lits) && |Ordered(lits, f)| == |lits|
  {
    assert lits == [lits[0], lits[1]] + lits[2..];
    assert multiset([lits[0], lits[1]]) == multiset([lits[1], lits[0]]);
  }

  /** Exchange places one and `k`. */
  function Swapped(lits: seq<Lit>, k: nat): seq<Lit>
    requires 2 <= k < |lits|
  {
    lits[1 := lits[k]][k := lits[1]]
  }

  lemma SwappedSame(lits: seq<Lit>, i: nat, j: nat)
    requires i < |lits| && j < |lits|
    ensures multiset(lits[i := lits[j]][j := lits[i]]) == multiset(lits)
  {}

  lemma Repermuted(originals: seq<Clause>, arena: seq<CheckerClause>, c: nat, lits: seq<Lit>)
    requires ArenaOk(originals, arena) && c < |arena|
    requires multiset(lits) == multiset(arena[c].literals)
    ensures ArenaOk(originals, arena[c := arena[c].(literals := lits)])
    ensures Universe(arena[c := arena[c].(literals := lits)]) == Universe(arena)
    ensures forall l :: l in lits <==> l in arena[c].literals
    ensures |lits| == |arena[c].literals|
  {
    var lits0 := arena[c].literals;
    SameMembers(lits0, lits);
    DistinctByCount(lits0);
    DistinctByCount(lits);
    assert Implied(originals, lits);
    var arena' := arena[c := arena[c].(literals := lits)];
    forall l ensures l in Universe(arena') <==> l in Universe(arena) {
      if l in Universe(arena') {
        var d :| 0 <= d < |arena'| && l in arena'[d].literals;
        assert l in arena[d].literals;
      }
      if l in Universe(arena) {
        var d :| 0 <= d < |arena| && l in arena[d].literals;
        assert l in arena'[d].literals;
      }
    }
  }

  /** A list stays right when a clause of it is reordered within its first two places. */
  lemma ListOrdered(arena: seq<CheckerClause>, c: nat, f: Lit, l: Lit, ws: seq<Watch>)
    requires c < |arena| && |arena[c].literals| >= 2
    requires arena[c].literals[0] == f || arena[c].literals[1] == f
    requires ListOk(arena, l, ws)
    ensures ListOk(arena[c := arena[c].(literals := Ordered(arena[c].literals, f))], l, ws)
  {
    var lits := arena[c].literals;
    var arena' := arena[c := arena[c].(literals := Ordered(lits, f))];
    OrderedSame(lits, f);
    SameMembers(lits, Ordered(lits, f));
    forall i | 0 <= i < |ws| ensures WatchOk(arena', l, ws[i]) {
      assert WatchOk(arena, l, ws[i]);
    }
  }

  /** A list that does not watch `c` through its second place stays right when that place is
      exchanged. */
  lemma ListSwapped(arena: seq<CheckerClause>, c: nat, k: nat, l: Lit, ws: seq<Watch>)
    requires c < |arena| && 2 <= k < |arena[c].literals|
    requires l == arena[c].literals[1] ==> forall i | 0 <= i < |ws| :: ws[i].clause != c
    requires ListOk(arena, l, ws)
    ensures ListOk(arena[c := arena[c].(literals := Swapped(arena[c].literals, k))], l, ws)
  {
    var lits := arena[c].literals;
    var arena' := arena[c := arena[c].(literals := Swapped(lits, k))];
    SwappedSame(lits, 1, k);
    SameMembers(lits, Swapped(lits, k));
    forall i | 0 <= i < |ws| ensures WatchOk(arena', l, ws[i]) {
      assert WatchOk(arena, l, ws[i]);
    }
  }

  function ListOf(ws: map<Lit, seq<Watch>>, l: Lit): seq<Watch> {
    if l in ws then ws[l] else []
  }

  /** Taking one watch out of a list leaves it right, and without that clause. */
  lemma WatchDropped(arena: seq<CheckerClause>, f: Lit, kept: seq<Watch>, w: Watch, rest: seq<Watch>)
    requires ListOk(arena, f, kept + [w] + rest)
    ensures ListOk(arena, f, kept + rest)
    ensures forall i | 0 <= i < |kept + rest| :: (kept + rest)[i].clause != w.clause
  {
    var all := kept + [w] + rest;
    assert all[|kept|] == w;
    forall i | 0 <= i < |kept + rest|
      ensures (kept + rest)[i] == all[if i < |kept| then i else i + 1]
    {}
  }

  /** The list of the replacement with the new watch. */
  lemma WatchAdded(arena: seq<CheckerClause>, c: nat, k: nat, ws: seq<Watch>)
    requires c < |arena| && DistinctLits(arena[c].literals) && 2 <= k < |arena[c].literals|
    requires ListOk(arena, arena[c].literals[k], ws)
    ensures var lits := arena[c].literals;
            ListOk(arena[c := arena[c].(literals := Swapped(lits, k))], lits[k], ws + [Watch(lits[1], |lits|, c)])
  {
    var lits := arena[c].literals;
    var r := lits[k];
    ListSwapped(arena, c, k, r, ws);
    assert Swapped(lits, k)[1] == r && Swapped(lits, k)[k] == lits[1];
    forall i | 0 <= i < |ws| ensures ws[i].clause != c {
      assert WatchOk(arena, r, ws[i]);
    }
  }

  // ----- Live clauses are watched -----

  ghost predicate Watching(arena: seq<CheckerClause>, c: nat, l: Lit) {
    && c < |arena| && |arena[c].literals| >= 2
    && (arena[c].literals[0] == l || arena[c].literals[1] == l)
  }

  ghost predicate Watches(ws: seq<Watch>, c: nat) {
    exists i | 0 <= i < |ws| :: ws[i].clause == c
  }

  /** No watch leads to one of these clauses. */
  ghost predicate NoneOf(ws: seq<Watch>, cs: set<nat>) {
    forall i | 0 <= i < |ws| :: ws[i].clause !in cs
  }

  /** Every clause of the table is on the lists of both its first literals; `ws` stands for
      the list of `f`. */
  ghost predicate Attached(arena: seq<CheckerClause>, active: set<nat>, watchers: map<Lit, seq<Watch>>,
                           f: Lit, ws: seq<Watch>) {
    forall c, l {:trigger Watching(arena, c, l)} | c in active && Watching(arena, c, l) ::
      Watches(if l == f then ws else ListOf(watchers, l), c)
  }

  ghost predicate SatisfiedBy(c: Clause, trail: seq<Lit>) {
    exists l :: l in c && l in trail
  }

  /** A clause of the table with a watched literal false on `done` has a literal on `by`,
      unless that watch is among the `rest` of the list of `f`, still to be visited. */
  ghost predicate Settled(arena: seq<CheckerClause>, active: set<nat>, done: seq<Lit>, held: seq<Lit>,
                          f: Lit, rest: seq<Watch>) {
    forall c, l {:trigger Watching(arena, c, l)} | c in active && Watching(arena, c, l) && Neg(l) in done ::
      SatisfiedBy(arena[c].literals, held) || (l == f && Watches(rest, c))
  }

  lemma WatchesSplit(kept: seq<Watch>, rest: seq<Watch>, c: nat)
    ensures Watches(kept + rest, c) <==> Watches(kept, c) || Watches(rest, c)
  {
    if Watches(kept, c) {
      var i :| 0 <= i < |kept| && kept[i].clause == c;
      assert (kept + rest)[i].clause == c;
    }
    if Watches(rest, c) {
      var i :| 0 <= i < |rest| && rest[i].clause == c;
      assert (kept + rest)[|kept| + i].clause == c;
    }
    if Watches(kept + rest, c) {
      var i :| 0 <= i < |kept + rest| && (kept + rest)[i].clause == c;
      assert i >= |kept| ==> rest[i - |kept|].clause == c;
    }
  }

  lemma WatchesOne(w: Watch, c: nat)
    ensures Watches([w], c) <==> w.clause == c
  {
    assert [w][0] == w;
  }

  /** More on the trail satisfies no less. */
  lemma SettledMore(arena: seq<CheckerClause>, active: set<nat>, done: seq<Lit>, held: seq<Lit>, held': seq<Lit>,
                    f: Lit, rest: seq<Watch>)
    requires Settled(arena, active, done, held, f, rest) && held <= held'
    ensures Settled(arena, active, done, held', f, rest)
  {
    forall c, l {:trigger Watching(arena, c, l)} | c in active && Watching(arena, c, l) && Neg(l) in done
      ensures SatisfiedBy(arena[c].literals, held') || (l == f && Watches(rest, c))
    {
      if SatisfiedBy(arena[c].literals, held) {
        var k :| k in arena[c].literals && k in held;
        assert k in held';
      }
    }
  }

  /** One watch is visited: its clause is dead, is satisfied, or no longer watches `f`. */
  lemma SettledNext(arena: seq<CheckerClause>, active: set<nat>, done: seq<Lit>, held: seq<Lit>,
                    f: Lit, w: Watch, rest: seq<Watch>)
    requires Settled(arena, active, done, held, f, [w] + rest)
    requires w.clause in active && Watching(arena, w.clause, f) ==> SatisfiedBy(arena[w.clause].literals, held)
    ensures Settled(arena, active, done, held, f, rest)
  {
    forall c, l {:trigger Watching(arena, c, l)} | c in active && Watching(arena, c, l) && Neg(l) in done
      ensures SatisfiedBy(arena[c].literals, held) || (l == f && Watches(rest, c))
    {
      WatchesSplit([w], rest, c);
      WatchesOne(w, c);
    }
  }

  /** The next literal is taken from the trail: all watches of its negation are to be visited. */
  lemma SettledStart(arena: seq<CheckerClause>, active: set<nat>, watchers: map<Lit, seq<Watch>>,
                     done: seq<Lit>, held: seq<Lit>, g: Lit, lit: Lit)
    requires Settled(arena, active, done, held, g, [])
    requires Attached(arena, active, watchers, Neg(lit), ListOf(watchers, Neg(lit)))
    ensures Settled(arena, active, done + [lit], held, Neg(lit), ListOf(watchers, Neg(lit)))
  {
    forall c, l {:trigger Watching(arena, c, l)} | c in active && Watching(arena, c, l) && Neg(l) in done + [lit]
      ensures SatisfiedBy(arena[c].literals, held) || (l == Neg(lit) && Watches(ListOf(watchers, Neg(lit)), c))
    {
      SameVariable(l, lit);
      SameVariable(lit, lit);
      assert Neg(l) != lit ==> Neg(l) in done;
    }
  }

  // The two changes of order.

  lemma OrderedWatching(arena: seq<CheckerClause>, c: nat, f: Lit)
    requires Watching(arena, c, f)
    ensures var arena' := arena[c := arena[c].(literals := Ordered(arena[c].literals, f))];
            && (forall d: nat, l: Lit :: Watching(arena', d, l) <==> Watching(arena, d, l))
            && (forall d: nat, held | d < |arena| ::
                  SatisfiedBy(arena'[d].literals, held) <==> SatisfiedBy(arena[d].literals, held))
  {
    OrderedSame(arena[c].literals, f);
    SameMembers(arena[c].literals, Ordered(arena[c].literals, f));
  }

  /** Watches stay attached and settled when a clause that watches `f` is put in order. */
  lemma OrderedStays(arena: seq<CheckerClause>, active: set<nat>, watchers: map<Lit, seq<Watch>>,
                     c: nat, f: Lit, ws: seq<Watch>)
    requires Watching(arena, c, f) && Attached(arena, active, watchers, f, ws)
    ensures Attached(arena[c := arena[c].(literals := Ordered(arena[c].literals, f))], active, watchers, f, ws)
  {
    OrderedWatching(arena, c, f);
  }

  lemma OrderedSettled(arena: seq<CheckerClause>, active: set<nat>, c: nat, f: Lit,
                       done: seq<Lit>, held: seq<Lit>, rest: seq<Watch>)
    requires Watching(arena, c, f) && Settled(arena, active, done, held, f, rest)
    ensures Settled(arena[c := arena[c].(literals := Ordered(arena[c].literals, f))], active, done, held, f, rest)
  {
    OrderedWatching(arena, c, f);
  }

  /** The new watch `r` of `c` replaces `f`. */
  lemma SwappedStays(arena: seq<CheckerClause>, active: set<nat>, watchers: map<Lit, seq<Watch>>,
                     c: nat, k: nat, f: Lit, kept: seq<Watch>, w: Watch, rest: seq<Watch>)
    requires c < |arena| && DistinctLits(arena[c].literals) && 2 <= k < |arena[c].literals|
    requires f == arena[c].literals[1] && w.clause == c
    requires Attached(arena, active, watchers, f, kept + [w] + rest)
    ensures var lits := arena[c].literals;
            var r := lits[k];
            Attached(arena[c := arena[c].(literals := Swapped(lits, k))], active,
                     watchers[r := ListOf(watchers, r) + [Watch(f, |lits|, c)]], f, kept + rest)
  {
    var lits := arena[c].literals;
    var r := lits[k];
    var arena' := arena[c := arena[c].(literals := Swapped(lits, k))];
    var added := [Watch(f, |lits|, c)];
    var watchers' := watchers[r := ListOf(watchers, r) + added];
    forall d, l {:trigger Watching(arena', d, l)} | d in active && Watching(arena', d, l)
      ensures Watches(if l == f then kept + rest else ListOf(watchers', l), d)
    {
      WatchesSplit(ListOf(watchers, r), added, d);
      WatchesOne(added[0], d);
      WatchesSplit(kept + [w], rest, d);
      WatchesSplit(kept, [w], d);
      WatchesSplit(kept, rest, d);
      WatchesOne(w, d);
      assert (d == c && l == r) || Watching(arena, d, l);
    }
  }

  lemma SwappedSettled(arena: seq<CheckerClause>, active: set<nat>, c: nat, k: nat, f: Lit,
                       done: seq<Lit>, held: seq<Lit>, rest: seq<Watch>)
    requires c < |arena| && 2 <= k < |arena[c].literals| && Neg(arena[c].literals[k]) !in done
    requires Settled(arena, active, done, held, f, rest)
    ensures Settled(arena[c := arena[c].(literals := Swapped(arena[c].literals, k))], active, done, held, f, rest)
  {
    var lits := arena[c].literals;
    var arena' := arena[c := arena[c].(literals := Swapped(lits, k))];
    SwappedSame(lits, 1, k);
    SameMembers(lits, Swapped(lits, k));
    forall d, l {:trigger Watching(arena', d, l)} | d in active && Watching(arena', d, l) && Neg(l) in done
      ensures SatisfiedBy(arena'[d].literals, held) || (l == f && Watches(rest, d))
    {
      assert Watching(arena, d, l);
    }
  }

  /** What propagation keeps while it visits the list `ws` of `f`, with `rest` to go: the
      literals `done` are settled by the trail, and the literals `root` by themselves, so that
      undoing the trail down to `root` leaves a settled state. */
  ghost predicate Live(arena: seq<CheckerClause>, active: set<nat>, watchers: map<Lit, seq<Watch>>,
                       trail: seq<Lit>, root: seq<Lit>, done: seq<Lit>,
                       f: Lit, ws: seq<Watch>, rest: seq<Watch>, ok: bool) {
    && Attached(arena, active, watchers, f, ws)
    && root <= trail && done <= trail
    && Settled(arena, active, root, root, f, [])
    && (ok ==> Settled(arena, active, done, trail, f, rest))
  }

  lemma LiveKept(arena: seq<CheckerClause>, active: set<nat>, watchers: map<Lit, seq<Watch>>,
                 trail: seq<Lit>, trail': seq<Lit>, root: seq<Lit>, done: seq<Lit>,
                 f: Lit, kept: seq<Watch>, w: Watch, w': Watch, rest: seq<Watch>, ok: bool)
    requires Live(arena, active, watchers, trail, root, done, f, kept + [w] + rest, [w] + rest, true)
    requires trail <= trail' && w'.clause == w.clause
    requires ok && w.clause in active && Watching(arena, w.clause, f) ==> SatisfiedBy(arena[w.clause].literals, trail')
    ensures Live(arena, active, watchers, trail', root, done, f, kept + [w'] + rest, rest, ok)
  {
    forall c ensures Watches(kept + [w'] + rest, c) <==> Watches(kept + [w] + rest, c) {
      WatchesSplit(kept + [w], rest, c);
      WatchesSplit(kept, [w], c);
      WatchesSplit(kept + [w'], rest, c);
      WatchesSplit(kept, [w'], c);
      WatchesOne(w, c);
      WatchesOne(w', c);
    }
    if ok {
      SettledMore(arena, active, done, trail, trail', f, [w] + rest);
      SettledNext(arena, active, done, trail', f, w, rest);
    }
  }

  lemma LiveDropped(arena: seq<CheckerClause>, active: set<nat>, watchers: map<Lit, seq<Watch>>,
                    trail: seq<Lit>, root: seq<Lit>, done: seq<Lit>,
                    f: Lit, kept: seq<Watch>, w: Watch, rest: seq<Watch>)
    requires Live(arena, active, watchers, trail, root, done, f, kept + [w] + rest, [w] + rest, true)
    requires w.clause !in active
    ensures Live(arena, active, watchers, trail, root, done, f, kept + rest, rest, true)
  {
    forall c | c in active ensures Watches(kept + rest, c) <==> Watches(kept + [w] + rest, c) {
      WatchesSplit(kept + [w], rest, c);
      WatchesSplit(kept, [w], c);
      WatchesSplit(kept, rest, c);
      WatchesOne(w, c);
    }
    SettledNext(arena, active, done, trail, f, w, rest);
  }

  lemma LiveOrdered(arena: seq<CheckerClause>, active: set<nat>, watchers: map<Lit, seq<Watch>>,
                    trail: seq<Lit>, root: seq<Lit>, done: seq<Lit>,
                    c: nat, f: Lit, ws: seq<Watch>, rest: seq<Watch>)
    requires Live(arena, active, watchers, trail, root, done, f, ws, rest, true) && Watching(arena, c, f)
    ensures Live(arena[c := arena[c].(literals := Ordered(arena[c].literals, f))], active, watchers,
                 trail, root, done, f, ws, rest, true)
  {
    OrderedStays(arena, active, watchers, c, f, ws);
    OrderedSettled(arena, active, c, f, root, root, []);
    OrderedSettled(arena, active, c, f, done, trail, rest);
  }

  lemma LiveMoved(arena: seq<CheckerClause>, active: set<nat>, watchers: map<Lit, seq<Watch>>,
                  trail: seq<Lit>, root: seq<Lit>, done: seq<Lit>,
                  c: nat, k: nat, f: Lit, kept: seq<Watch>, w: Watch, rest: seq<Watch>)
    requires Live(arena, active, watchers, trail, root, done, f, kept + [w] + rest, [w] + rest, true)
    requires c < |arena| && DistinctLits(arena[c].literals) && 2 <= k < |arena[c].literals|
    requires f == arena[c].literals[1] && w.clause == c && Neg(arena[c].literals[k]) !in trail
    ensures var lits := arena[c].literals;
            var r := lits[k];
            Live(arena[c := arena[c].(literals := Swapped(lits, k))], active,
                 watchers[r := ListOf(watchers, r) + [Watch(f, |lits|, c)]],
                 trail, root, done, f, kept + rest, rest, true)
  {
    SwappedStays(arena, active, watchers, c, k, f, kept, w, rest);
    SwappedSettled(arena, active, c, k, f, root, root, []);
    SwappedSettled(arena, active, c, k, f, done, trail, [w] + rest);
    SettledNext(arena[c := arena[c].(literals := Swapped(arena[c].literals, k))], active, done, trail, f, w, rest);
  }

  lemma LiveStart(arena: seq<CheckerClause>, active: set<nat>, watchers: map<Lit, seq<Watch>>,
                  trail: seq<Lit>, root: seq<Lit>, done: seq<Lit>, lit: Lit)
    requires Live(arena, active, watchers, trail, root, done, 1, ListOf(watchers, 1), [], true)
    requires done + [lit] <= trail
    ensures var ws := ListOf(watchers, Neg(lit));
            Live(arena, active, watchers, trail, root, done + [lit], Neg(lit), ws, ws, true)
  {
    SettledStart(arena, active, watchers, done, trail, 1, lit);
  }

  lemma LiveStored(arena: seq<CheckerClause>, active: set<nat>, watchers: map<Lit, seq<Watch>>,
                   trail: seq<Lit>, root: seq<Lit>, done: seq<Lit>, f: Lit, ws: seq<Watch>, rest: seq<Watch>, ok: bool)
    requires Live(arena, active, watchers, trail, root, done, f, ws, rest, ok) && (ok ==> rest == [])
    ensures Live(arena, active, watchers[f := ws], trail, root, done, f, ws, [], ok)
  {}

  lemma LiveEnd(arena: seq<CheckerClause>, active: set<nat>, watchers: map<Lit, seq<Watch>>,
                trail: seq<Lit>, root: seq<Lit>, done: seq<Lit>, f: Lit, ok: bool)
    requires Live(arena, active, watchers, trail, root, done, f, ListOf(watchers, f), [], ok)
    ensures Live(arena, active, watchers, trail, root, done, 1, ListOf(watchers, 1), [], ok)
  {}

  /** Literals assumed on top of settled ones. */
  lemma LiveLonger(arena: seq<CheckerClause>, active: set<nat>, watchers: map<Lit, seq<Watch>>,
                   root: seq<Lit>, trail: seq<Lit>)
    requires Live(arena, active, watchers, root, root, root, 1, ListOf(watchers, 1), [], true) && root <= trail
    ensures Live(arena, active, watchers, trail, root, root, 1, ListOf(watchers, 1), [], true)
  {
    SettledMore(arena, active, root, root, trail, 1, []);
  }

  lemma LiveShorter(arena: seq<CheckerClause>, active: set<nat>, watchers: map<Lit, seq<Watch>>,
                    trail: seq<Lit>, root: seq<Lit>, done: seq<Lit>, ok: bool)
    requires Live(arena, active, watchers, trail, root, done, 1, ListOf(watchers, 1), [], ok)
    ensures Live(arena, active, watchers, root, root, root, 1, ListOf(watchers, 1), [], true) && root <= trail
  {}

  // ----- New clauses -----

  /** The clause is true whatever its other literals are. */
  ghost predicate Redundant(c: Clause, trail: seq<Lit>) {
    exists l :: l in c && (Neg(l) in c || l in trail)
  }

  ghost function OpenLits(c: Clause, trail: seq<Lit>): set<Lit> {
    set l | l in c && Neg(l) !in trail
  }

  ghost predicate HasTwo(ls: set<Lit>) {
    exists l, k :: l in ls && k in ls && l != k
  }

  /** The lists with both watches of a new clause. */
  function Inserted(watchers: map<Lit, seq<Watch>>, lits: seq<Lit>, c: nat): map<Lit, seq<Watch>>
    requires |lits| >= 2
  {
    var once := watchers[lits[0] := ListOf(watchers, lits[0]) + [Watch(lits[1], |lits|, c)]];
    once[lits[1] := ListOf(once, lits[1]) + [Watch(lits[0], |lits|, c)]]
  }

  lemma TableInserted(arena: seq<CheckerClause>, ids: seq<nat>, table: seq<nat>, d: CheckerClause, id: nat)
    requires |ids| == |arena| && forall c | c in table :: c < |arena|
    ensures TableOf(arena + [d], ids + [id], [|arena|] + table) ==
            [Row(id, Members(d.literals))] + TableOf(arena, ids, table)
  {
    var cs, cs' := TableOf(arena, ids, table), TableOf(arena + [d], ids + [id], [|arena|] + table);
    forall i | 0 <= i < |cs| ensures cs'[i + 1] == cs[i] {
      assert table[i] in table;
    }
  }

  lemma NoWatches(arena: seq<CheckerClause>, l: Lit)
    ensures ListOk(arena, l, [])
  {}

  /** Right lists stay right when clauses are added to the arena. */
  lemma ListKept(arena: seq<CheckerClause>, arena': seq<CheckerClause>, l: Lit, ws: seq<Watch>)
    requires ListOk(arena, l, ws) && arena <= arena'
    ensures ListOk(arena', l, ws)
    ensures forall i | 0 <= i < |ws| :: ws[i].clause < |arena|
  {
    forall i | 0 <= i < |ws| ensures WatchOk(arena', l, ws[i]) && ws[i].clause < |arena| {
      assert WatchOk(arena, l, ws[i]);
    }
  }

  lemma ListExtended(arena: seq<CheckerClause>, l: Lit, ws: seq<Watch>, w: Watch)
    requires ListOk(arena, l, ws) && forall i | 0 <= i < |ws| :: ws[i].clause != w.clause
    ensures WatchOk(arena, l, w) ==> ListOk(arena, l, ws + [w])
  {}

  lemma ArenaExtended(originals: seq<Clause>, arena: seq<CheckerClause>, c: Clause, lits: seq<Lit>, hash: int)
    requires ArenaOk(originals, arena) && Implied(originals, c) && DistinctLits(c)
    requires multiset(lits) == multiset(c) && |lits| >= 2
    ensures ArenaOk(originals, arena + [CheckerClause(|lits|, lits, hash)])
  {
    SameMembers(lits, c);
    DistinctByCount(c);
    DistinctByCount(lits);
  }

  lemma ListInserted(arena: seq<CheckerClause>, watchers: map<Lit, seq<Watch>>, lits: seq<Lit>, hash: int,
                     l: Lit, freed: set<nat>)
    requires |lits| >= 2 && lits[0] != lits[1] && |arena| !in freed
    requires ListOk(arena, l, ListOf(watchers, l)) && NoneOf(ListOf(watchers, l), freed)
    ensures var ws := ListOf(Inserted(watchers, lits, |arena|), l);
            ListOk(arena + [CheckerClause(|lits|, lits, hash)], l, ws) && NoneOf(ws, freed)
  {
    hide Inserted, ListOk, ListOf;
    var arena' := arena + [CheckerClause(|lits|, lits, hash)];
    var was := ListOf(watchers, l);
    InsertedList(watchers, lits, |arena|, l);
    ListKept(arena, arena', l, was);
    if l == lits[0] {
      ListExtended(arena', l, was, Watch(lits[1], |lits|, |arena|));
    } else if l == lits[1] {
      ListExtended(arena', l, was, Watch(lits[0], |lits|, |arena|));
    } else {
      assert was + [] == was;
    }
  }

  lemma InsertedList(watchers: map<Lit, seq<Watch>>, lits: seq<Lit>, c: nat, l: Lit)
    requires |lits| >= 2 && lits[0] != lits[1]
    ensures ListOf(Inserted(watchers, lits, c), l) ==
            ListOf(watchers, l) + if l == lits[0] then [Watch(lits[1], |lits|, c)]
                                  else if l == lits[1] then [Watch(lits[0], |lits|, c)] else []
  {}

  lemma LiveInserted(arena: seq<CheckerClause>, active: set<nat>, watchers: map<Lit, seq<Watch>>,
                     trail: seq<Lit>, lits: seq<Lit>, hash: int)
    requires Live(arena, active, watchers, trail, trail, trail, 1, ListOf(watchers, 1), [], true)
    requires |lits| >= 2 && lits[0] != lits[1] && Neg(lits[0]) !in trail && Neg(lits[1]) !in trail
    requires forall c | c in active :: c < |arena|
    ensures var arena' := arena + [CheckerClause(|lits|, lits, hash)];
            var watchers' := Inserted(watchers, lits, |arena|);
            Live(arena', {|arena|} + active, watchers', trail, trail, trail, 1, ListOf(watchers', 1), [], true)
  {
    var arena', active' := arena + [CheckerClause(|lits|, lits, hash)], {|arena|} + active;
    var watchers' := Inserted(watchers, lits, |arena|);
    var first, second := [Watch(lits[1], |lits|, |arena|)], [Watch(lits[0], |lits|, |arena|)];
    forall c, l {:trigger Watching(arena', c, l)} | c in active' && Watching(arena', c, l)
      ensures Watches(ListOf(watchers', l), c)
      ensures Neg(l) in trail ==> SatisfiedBy(arena'[c].literals, trail)
    {
      WatchesSplit(ListOf(watchers, lits[0]), first, c);
      WatchesSplit(ListOf(watchers, lits[1]), second, c);
      WatchesOne(first[0], c);
      WatchesOne(second[0], c);
      assert c != |arena| ==> Watching(arena, c, l);
    }
  }

  /** The order of literals within the clauses does not matter to the table. */
  lemma TableSame(arena: seq<CheckerClause>, arena': seq<CheckerClause>, ids: seq<nat>, table: seq<nat>)
    requires |arena| == |arena'|
    requires forall c | 0 <= c < |arena| :: multiset(arena'[c].literals) == multiset(arena[c].literals)
    ensures TableOf(arena', ids, table) == TableOf(arena, ids, table)
  {
    var cs, cs' := TableOf(arena, ids, table), TableOf(arena', ids, table);
    forall i | 0 <= i < |cs| ensures cs'[i] == cs[i] {
      if table[i] < |arena| {
        SameMembers(arena'[table[i]].literals, arena[table[i]].literals);
      }
    }
  }

  /** The literal sets of the binary clauses of a list. */
  ghost function BinaryOf(arena: seq<CheckerClause>, garbage: seq<nat>): set<set<Lit>> {
    set c | c in garbage && c < |arena| && |arena[c].literals| == 2 :: Members(arena[c].literals)
  }

  /** New clauses and another order of literals change nothing there. */
  lemma BinarySame(arena: seq<CheckerClause>, arena': seq<CheckerClause>, garbage: seq<nat>)
    requires |arena| <= |arena'| && forall c | c in garbage :: c < |arena|
    requires forall c | 0 <= c < |arena| :: multiset(arena'[c].literals) == multiset(arena[c].literals)
    ensures BinaryOf(arena', garbage) == BinaryOf(arena, garbage)
  {
    forall c | c in garbage
      ensures Members(arena'[c].literals) == Members(arena[c].literals) && |arena'[c].literals| == |arena[c].literals|
    {
      SameMembers(arena'[c].literals, arena[c].literals);
    }
  }

  lemma GarbageAllocated(arena: seq<CheckerClause>, table: seq<nat>, garbage: seq<nat>, freed: set<nat>)
    requires ListsOk(arena, table, garbage, freed)
    ensures forall c | c in garbage :: c < |arena|
  {}

  lemma BinaryRetired(arena: seq<CheckerClause>, arena': seq<CheckerClause>, garbage: seq<nat>, c: nat)
    requires c < |arena| == |arena'| && DistinctLits(arena[c].literals)
    requires forall d | 0 <= d < |arena| :: arena'[d].literals == arena[d].literals
    ensures BinaryOf(arena', [c] + garbage) == BinaryOf(arena, garbage) +
              if |Members(arena[c].literals)| == 2 then {Members(arena[c].literals)} else {}
  {
    MembersCount(arena[c].literals);
    assert forall d :: d in [c] + garbage <==> d == c || d in garbage;
    forall d | d in [c] + garbage && d < |arena| ensures arena'[d].literals == arena[d].literals {}
    if |arena[c].literals| == 2 {
      assert Members(arena'[c].literals) in BinaryOf(arena', [c] + garbage);
    }
  }

  lemma StoredInserted(arena: seq<CheckerClause>, active: set<nat>, d: CheckerClause)
    requires forall c | c in active :: c < |arena|
    ensures StoredOf(arena + [d], {|arena|} + active) == StoredOf(arena, active) + {Members(d.literals)}
  {
    var arena' := arena + [d];
    assert |arena| in {|arena|} + active && arena'[|arena|] == d;
    forall c | c in active ensures arena'[c] == arena[c] && c in {|arena|} + active {}
  }

  lemma StoredSame(arena: seq<CheckerClause>, arena': seq<CheckerClause>, active: set<nat>)
    requires |arena| == |arena'|
    requires forall c | 0 <= c < |arena| :: multiset(arena'[c].literals) == multiset(arena[c].literals)
    ensures StoredOf(arena', active) == StoredOf(arena, active)
  {
    forall c | c in active && c < |arena| ensures Members(arena'[c].literals) == Members(arena[c].literals) {
      SameMembers(arena'[c].literals, arena[c].literals);
    }
  }

  lemma LiveRooted(arena: seq<CheckerClause>, active: set<nat>, watchers: map<Lit, seq<Watch>>,
                   trail: seq<Lit>, root: seq<Lit>, done: seq<Lit>, ok: bool)
    requires Live(arena, active, watchers, trail, root, done, 1, ListOf(watchers, 1), [], ok)
    ensures ok && done == trail ==> Live(arena, active, watchers, trail, trail, trail, 1, ListOf(watchers, 1), [], true)
  {}

  /** A clause without duplicates stands for the clause it came from. */
  lemma SameLits(c: Clause, c': Clause, trail: seq<Lit>)
    requires Members(c) == Members(c')
    ensures OpenLits(c, trail) == OpenLits(c', trail)
    ensures forall m :: Holds(m, c) <==> Holds(m, c')
  {
    assert forall l :: l in Members(c) <==> l in c;
    assert forall l :: l in Members(c') <==> l in c';
  }

  lemma ImpliedSameLits(cs: seq<Clause>, c: Clause, c': Clause)
    requires Members(c) == Members(c')
    ensures Implied(cs, c) <==> Implied(cs, c')
  {
    SameLits(c, c', []);
  }

  lemma RedundantIsImplied(cs: seq<Clause>, trail: seq<Lit>, c: Clause)
    requires Redundant(c, trail) && TrailEntailed(cs, {}, trail)
    ensures Implied(cs, c)
  {
    var l :| l in c && (Neg(l) in c || l in trail);
    forall m | Models(m, cs) ensures Holds(m, c) {
      assert l in trail ==> Entails(cs, {}, l);
      assert True(m, l) || True(m, Neg(l));
    }
  }

  /** What followed from the original clauses still does when there is one more. */
  lemma OriginalAdded(originals: seq<Clause>, c: Clause, arena: seq<CheckerClause>, trail: seq<Lit>)
    ensures ArenaOk(originals, arena) ==> ArenaOk(originals + [c], arena)
    ensures TrailEntailed(originals, {}, trail) ==> TrailEntailed(originals + [c], {}, trail)
    ensures Contradicts(originals, {}) ==> Contradicts(originals + [c], {})
    ensures Implied(originals + [c], c)
  {
    forall m | Models(m, originals + [c]) ensures Models(m, originals) && Holds(m, c) {
      ModelsAppend(m, originals, c);
    }
  }

  // ----- Fewer clauses -----

  function Without<T>(s: seq<T>, i: nat): seq<T>
    requires i < |s|
  {
    s[..i] + s[i + 1..]
  }

  /** The clauses that are not true. */
  ghost function Unsatisfied(cs: seq<Row>, trail: seq<Lit>): seq<Row> {
    if cs == [] then []
    else (if TrueIn(cs[0].lits, trail) then [] else [cs[0]]) + Unsatisfied(cs[1..], trail)
  }

  lemma {:induction false} UnsatisfiedWithout(cs: seq<Row>, i: nat, trail: seq<Lit>)
    requires i < |cs| && TrueIn(cs[i].lits, trail)
    ensures Unsatisfied(Without(cs, i), trail) == Unsatisfied(cs, trail)
  {
    if i == 0 {
      assert Without(cs, 0) == cs[1..];
    } else {
      UnsatisfiedWithout(cs[1..], i - 1, trail);
      assert Without(cs, i)[1..] == Without(cs[1..], i - 1);
    }
  }

  lemma {:induction false} NoneSatisfied(cs: seq<Row>, trail: seq<Lit>)
    requires forall j | 0 <= j < |cs| :: !TrueIn(cs[j].lits, trail)
    ensures Unsatisfied(cs, trail) == cs
  {
    if cs != [] {
      NoneSatisfied(cs[1..], trail);
    }
  }

  lemma SatisfiedByMembers(c: Clause, trail: seq<Lit>)
    ensures SatisfiedBy(c, trail) <==> TrueIn(Members(c), trail)
  {
    if SatisfiedBy(c, trail) {
      var l :| l in c && l in trail;
      assert l in Members(c);
    }
  }

  lemma TableWithout(arena: seq<CheckerClause>, arena': seq<CheckerClause>, ids: seq<nat>, table: seq<nat>, i: nat)
    requires i < |table| && |arena'| == |arena|
    requires forall c | 0 <= c < |arena| :: arena'[c].literals == arena[c].literals
    ensures TableOf(arena', ids, table[..i] + table[i + 1..]) == Without(TableOf(arena, ids, table), i)
  {
    var cs, cs' := Without(TableOf(arena, ids, table), i), TableOf(arena', ids, table[..i] + table[i + 1..]);
    forall j | 0 <= j < |cs| ensures cs'[j] == cs[j] {}
  }

  /** The size stored with a clause does not matter to its watches. */
  lemma ListSized(arena: seq<CheckerClause>, arena': seq<CheckerClause>, l: Lit, ws: seq<Watch>)
    requires ListOk(arena, l, ws) && |arena'| == |arena|
    requires forall c | 0 <= c < |arena| :: arena'[c].literals == arena[c].literals
    ensures ListOk(arena', l, ws)
  {
    forall i | 0 <= i < |ws| ensures WatchOk(arena', l, ws[i]) {
      assert WatchOk(arena, l, ws[i]);
    }
  }

  lemma LiveFewer(arena: seq<CheckerClause>, arena': seq<CheckerClause>, active: set<nat>, active': set<nat>,
                  watchers: map<Lit, seq<Watch>>, trail: seq<Lit>)
    requires Live(arena, active, watchers, trail, trail, trail, 1, ListOf(watchers, 1), [], true)
    requires |arena'| == |arena| && forall c | c in active' :: c in active
    requires forall c | 0 <= c < |arena| :: arena'[c].literals == arena[c].literals
    ensures Live(arena', active', watchers, trail, trail, trail, 1, ListOf(watchers, 1), [], true)
  {
    forall c, l {:trigger Watching(arena', c, l)} | c in active' && Watching(arena', c, l)
      ensures Watches(ListOf(watchers, l), c)
      ensures Neg(l) in trail ==> SatisfiedBy(arena'[c].literals, trail)
    {
      assert Watching(arena, c, l);
    }
  }

  ghost predicate Alive(arena: seq<CheckerClause>, ws: seq<Watch>) {
    forall i | 0 <= i < |ws| :: ws[i].clause < |arena| && arena[ws[i].clause].size != 0
  }

  lemma LiveFiltered(arena: seq<CheckerClause>, active: set<nat>, watchers: map<Lit, seq<Watch>>, trail: seq<Lit>,
                     f: Lit, kept: seq<Watch>)
    requires Live(arena, active, watchers, trail, trail, trail, 1, ListOf(watchers, 1), [], true)
    requires forall c | c in active :: c < |arena| && arena[c].size != 0
    requires forall c | 0 <= c < |arena| && arena[c].size != 0 && Watches(ListOf(watchers, f), c) :: Watches(kept, c)
    ensures var watchers' := watchers[f := kept];
            Live(arena, active, watchers', trail, trail, trail, 1, ListOf(watchers', 1), [], true)
  {}

  lemma SameByCount(c: Clause, c': Clause)
    requires DistinctLits(c) && DistinctLits(c')
    ensures |c| == |c'| && (forall l | l in c :: l in c') <==> Members(c) == Members(c')
  {
    MembersCount(c);
    MembersCount(c');
    if |c| == |c'| && forall l | l in c :: l in c' {
      SubsetSize(Members(c), Members(c'));
    }
    if Members(c) == Members(c') {
      assert forall l :: l in Members(c) <==> l in c;
      assert forall l :: l in Members(c') <==> l in c';
    }
  }

  // ----- Unit propagation, independently of watches -----

  /** No clause is false or unit under `t`. */
  ghost predicate Saturated(cs: set<set<Lit>>, t: seq<Lit>) {
    forall c | c in cs :: TrueIn(c, t) || Loose(c, t)
  }

  ghost predicate TrueIn(c: set<Lit>, t: seq<Lit>) {
    exists l :: l in c && l in t
  }

  /** Two literals are not false. */
  ghost predicate Loose(c: set<Lit>, t: seq<Lit>) {
    exists l, k :: l in c && k in c && l != k && Neg(l) !in t && Neg(k) !in t
  }

  /** Some set of literals with the trail and the negation of `c` survives propagation. */
  ghost predicate Withstands(cs: set<set<Lit>>, trail: seq<Lit>, c: set<Lit>) {
    exists t: seq<Lit> :: Saturated(cs, t) && Extends(t, trail, c)
  }

  ghost predicate Extends(t: seq<Lit>, trail: seq<Lit>, c: set<Lit>) {
    && trail <= t && (forall l | l in c :: Neg(l) in t)
    && (forall l | l in t :: Neg(l) !in t)
  }

  /** Propagated to the end, no active clause is false or unit. */
  lemma SettledSaturates(originals: seq<Clause>, arena: seq<CheckerClause>, active: set<nat>, vals: map<Lit, int>,
                         trail: seq<Lit>)
    requires Settled(arena, active, trail, trail, 1, []) && TrailOk(vals, trail) && ArenaOk(originals, arena)
    requires forall d | d in active :: d < |arena|
    ensures Saturated(StoredOf(arena, active), trail)
  {
    forall e | e in StoredOf(arena, active) ensures TrueIn(e, trail) || Loose(e, trail) {
      var d :| d in active && Members(arena[d].literals) == e;
      var lits := arena[d].literals;
      assert Watching(arena, d, lits[0]) && Watching(arena, d, lits[1]);
      if SatisfiedBy(lits, trail) {
        var l :| l in lits && l in trail;
        assert l in e;
      } else {
        assert lits[0] in e && lits[1] in e && Neg(lits[0]) !in trail && Neg(lits[1]) !in trail;
      }
    }
  }

  /** Every step is a literal of a clause whose other literals are false by then. */
  ghost predicate UnitSteps(cs: set<set<Lit>>, start: seq<Lit>, steps: seq<Lit>) {
    forall i | 0 <= i < |steps| :: UnitStepAt(cs, start, steps, i)
  }

  ghost predicate UnitStepAt(cs: set<set<Lit>>, start: seq<Lit>, steps: seq<Lit>, i: nat)
    requires i < |steps|
  {
    exists c :: c in cs && UnitUnder(c, start + steps[..i], steps[i])
  }

  ghost predicate UnitUnder(c: set<Lit>, t: seq<Lit>, u: Lit) {
    u in c && forall l | l in c && l != u :: Neg(l) in t
  }

  /** Unit propagation over `cs` from `start` ends in a false clause. */
  ghost predicate UnitRefuted(cs: set<set<Lit>>, start: seq<Lit>) {
    exists steps: seq<Lit>, c :: UnitSteps(cs, start, steps) && c in cs && FalseIn(c, start + steps)
  }

  ghost predicate FalseIn(c: set<Lit>, t: seq<Lit>) {
    forall l | l in c :: Neg(l) in t
  }

  /** All literals the steps reach are in every saturated set. */
  lemma {:induction false} StepsStay(cs: set<set<Lit>>, start: seq<Lit>, steps: seq<Lit>, t: seq<Lit>)
    requires UnitSteps(cs, start, steps) && Saturated(cs, t)
    requires (forall l | l in t :: Neg(l) !in t) && forall l | l in start :: l in t
    ensures forall l | l in start + steps :: l in t
  {
    if steps != [] {
      var n := |steps| - 1;
      var front := steps[..n];
      forall i | 0 <= i < |front| ensures UnitStepAt(cs, start, front, i) {
        assert UnitStepAt(cs, start, steps, i);
        assert front[..i] == steps[..i] && front[i] == steps[i];
      }
      StepsStay(cs, start, front, t);
      assert UnitStepAt(cs, start, steps, n);
      var c :| c in cs && UnitUnder(c, start + steps[..n], steps[n]);
      assert TrueIn(c, t) || Loose(c, t);
      assert steps[n] in t;
      assert start + steps == start + front + [steps[n]];
    }
  }

  lemma SaturatedNotFalse(cs: set<set<Lit>>, d: set<Lit>, t: seq<Lit>)
    requires Saturated(cs, t) && d in cs && forall l | l in t :: Neg(l) !in t
    ensures !FalseIn(d, t)
  {
    assert TrueIn(d, t) || Loose(d, t);
    if TrueIn(d, t) {
      var l :| l in d && l in t;
      assert Neg(l) !in t;
    }
  }

  lemma SaturatedIsUnrefuted(cs: set<set<Lit>>, start: seq<Lit>, t: seq<Lit>)
    requires Saturated(cs, t) && (forall l | l in start :: l in t) && forall l | l in t :: Neg(l) !in t
    ensures !UnitRefuted(cs, start)
  {
    if UnitRefuted(cs, start) {
      var steps, d :| UnitSteps(cs, start, steps) && d in cs && FalseIn(d, start + steps);
      StepsStay(cs, start, steps, t);
      SaturatedNotFalse(cs, d, t);
    }
  }

  /** Unit propagation from the trail and the negation of `c` ends in a false clause. */
  ghost predicate Refutes(cs: set<set<Lit>>, trail: seq<Lit>, c: set<Lit>) {
    exists start :: StartsFrom(start, trail, c) && UnitRefuted(cs, start)
  }

  ghost predicate StartsFrom(start: seq<Lit>, trail: seq<Lit>, c: set<Lit>) {
    forall l :: l in start <==> l in trail || Neg(l) in c
  }

  /** What withstands has no refutation: the check accepts every clause with one. */
  lemma WithstandingIsUnrefuted(cs: set<set<Lit>>, trail: seq<Lit>, c: set<Lit>)
    ensures Withstands(cs, trail, c) ==> !Refutes(cs, trail, c)
  {
    if Withstands(cs, trail, c) && Refutes(cs, trail, c) {
      var start :| StartsFrom(start, trail, c) && UnitRefuted(cs, start);
      var t :| Saturated(cs, t) && Extends(t, trail, c);
      forall l | l in start ensures l in t {
        SameVariable(l, l);
      }
      SaturatedIsUnrefuted(cs, start, t);
    }
  }

  // ----- What a clause under the trail says -----

  /** All literals but `u` are false on the trail. */
  ghost predicate FalseBut(c: Clause, trail: seq<Lit>, u: Lit) {
    forall l | l in c && l != u :: Neg(l) in trail
  }

  ghost predicate TrailEntailed(cs: seq<Clause>, hyp: set<Lit>, trail: seq<Lit>) {
    forall t | t in trail :: Entails(cs, hyp, t)
  }

  lemma EntailedGrows(cs: seq<Clause>, trail: seq<Lit>, u: Lit)
    ensures TrailEntailed(cs, {}, trail) && Entails(cs, {}, u) ==> TrailEntailed(cs, {}, trail + [u])
  {}

  lemma UnitEntailed(cs: seq<Clause>, hyp: set<Lit>, trail: seq<Lit>, c: Clause, u: Lit)
    requires Implied(cs, c) && TrailEntailed(cs, hyp, trail) && FalseBut(c, trail, u)
    ensures Entails(cs, hyp, u)
  {
    forall m | Models(m, cs) && forall h | h in hyp :: True(m, h) ensures True(m, u) {
      var l :| l in c && True(m, l);
      assert l != u ==> Entails(cs, hyp, Neg(l));
    }
  }

  lemma AllFalseContradicts(cs: seq<Clause>, hyp: set<Lit>, trail: seq<Lit>, c: Clause)
    requires Implied(cs, c) && TrailEntailed(cs, hyp, trail) && forall l | l in c :: Neg(l) in trail
    ensures Contradicts(cs, hyp)
  {
    forall m | Models(m, cs) ensures exists h :: h in hyp && !True(m, h) {
      var l :| l in c && True(m, l);
      assert Entails(cs, hyp, Neg(l));
    }
  }

  /** What a propagation starts from: the assumptions, the trail with them, and the clauses. */
  datatype Basis = Basis(hyp: set<Lit>, start: seq<Lit>, clauses: set<set<Lit>>)

  /** Every literal on the trail is from the beginning or a unit propagation step. */
  ghost predicate Derived(b: Basis, trail: seq<Lit>) {
    b.start <= trail && UnitSteps(b.clauses, b.start, trail[|b.start|..])
  }

  lemma DerivedStart(b: Basis)
    ensures Derived(b, b.start)
  {}

  lemma DerivedGrows(b: Basis, trail: seq<Lit>, c: Clause, u: Lit)
    requires Derived(b, trail) && Members(c) in b.clauses && u in c && FalseBut(c, trail, u)
    ensures Derived(b, trail + [u])
  {
    var n := |b.start|;
    var steps, steps' := trail[n..], (trail + [u])[n..];
    assert steps' == steps + [u] && b.start + steps == trail;
    forall i | 0 <= i < |steps'| ensures UnitStepAt(b.clauses, b.start, steps', i) {
      if i < |steps| {
        assert UnitStepAt(b.clauses, b.start, steps, i);
        assert steps'[..i] == steps[..i];
      } else {
        assert b.start + steps'[..i] == trail;
        assert UnitUnder(Members(c), trail, u);
      }
    }
  }

  /** The trail is what unit propagation makes of `start`: all of it, unless that ends in a
      conflict. */
  ghost predicate Propagated(start: seq<Lit>, cs: set<set<Lit>>, trail: seq<Lit>, conflict: bool) {
    && Derived(Basis({}, start, cs), trail)
    && (conflict <==> UnitRefuted(cs, start))
    && (!conflict ==> Saturated(cs, trail))
  }

  lemma DerivedRefutes(b: Basis, trail: seq<Lit>, c: Clause)
    requires Derived(b, trail) && Members(c) in b.clauses && forall l | l in c :: Neg(l) in trail
    ensures UnitRefuted(b.clauses, b.start)
  {
    var steps := trail[|b.start|..];
    assert b.start + steps == trail;
    assert UnitSteps(b.clauses, b.start, steps) && FalseIn(Members(c), b.start + steps);
  }

  /** What a scan refers to: what propagation started from, the trail and the clauses at its beginning, and
      the literals settled by themselves and those settled by the trail. */
  datatype Run = Run(basis: Basis, trail: seq<Lit>, arena: seq<CheckerClause>, root: seq<Lit>, done: seq<Lit>)

  lemma NextOf(kept: seq<Watch>, ws: seq<Watch>, i: nat)
    requires i < |ws|
    ensures ws[i..] == [ws[i]] + ws[i + 1..]
    ensures kept + ws[i..] == kept + [ws[i]] + ws[i + 1..]
  {}

  ghost function Negations(c: Clause): set<Lit> {
    set l | l in c :: Neg(l)
  }

  lemma NegationsAre(c: Clause)
    ensures forall l :: l in Negations(c) <==> Neg(l) in Members(c)
  {
    forall l: Lit ensures l in Negations(c) <==> Neg(l) in Members(c) {
      SameVariable(l, l);
    }
  }

  lemma AllNegated(start: seq<Lit>, trail: seq<Lit>, c: Clause)
    requires StartsFrom(start, trail, Members(c))
    ensures forall l | l in c :: Neg(l) in start
  {
    forall l | l in c ensures Neg(l) in start {
      SameVariable(l, l);
      assert Neg(Neg(l)) in Members(c);
    }
  }

  lemma ConflictImplies(cs: seq<Clause>, c: Clause)
    requires Contradicts(cs, {})
    ensures Implied(cs, c)
  {}

  lemma EntailsMore(cs: seq<Clause>, hyp: set<Lit>, hyp': set<Lit>, trail: seq<Lit>)
    requires TrailEntailed(cs, hyp, trail) && hyp <= hyp'
    ensures TrailEntailed(cs, hyp', trail)
  {
    forall t | t in trail ensures Entails(cs, hyp', t) {
      assert Entails(cs, hyp, t);
    }
  }

  lemma RefutedIsImplied(cs: seq<Clause>, c: Clause, hyp: set<Lit>)
    requires Contradicts(cs, hyp) && hyp == Negations(c)
    ensures Implied(cs, c)
  {
    forall m | Models(m, cs) ensures Holds(m, c) {
      var h :| h in hyp && !True(m, h);
      var l :| l in c && h == Neg(l);
      assert True(m, l);
    }
  }
}
