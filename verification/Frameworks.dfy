/** Dung's abstract argumentation frameworks: the set-level semantics that the
    encodings and search loops are measured against. */
module Frameworks {

  datatype Framework = Framework(attackers: seq<seq<nat>>)

  predicate WellFormed(f: Framework) {
    forall i, j | 0 <= i < |f.attackers| && 0 <= j < |f.attackers[i]| ::
      f.attackers[i][j] < |f.attackers|
  }

  type Graph = f: Framework | WellFormed(f) witness Framework([])

  function Size(f: Graph): nat {
    |f.attackers|
  }

  predicate IsArg(f: Graph, i: nat) {
    i < Size(f)
  }

  function Args(f: Graph): (s: set<nat>)
    ensures forall i: nat :: i in s <==> i < Size(f)
  {
    assert forall i: nat :: IsArg(f, i) <==> i < Size(f);
    set i: nat | i < Size(f) && IsArg(f, i)
  }

  predicate Attacks(f: Graph, a: nat, b: nat) {
    b < Size(f) && a in f.attackers[b]
  }

  ghost predicate Hits(f: Graph, S: set<nat>, b: nat) {
    exists a | a in S :: Attacks(f, a, b)
  }

  /** Some member of `S` attacks some member of `T`. */
  ghost predicate HitsSet(f: Graph, S: set<nat>, T: set<nat>) {
    exists b | b in T :: Hits(f, S, b)
  }

  ghost predicate ConflictFree(f: Graph, S: set<nat>) {
    S <= Args(f) && forall a, b {:trigger Attacks(f, a, b)} | a in S && b in S :: !Attacks(f, a, b)
  }

  ghost predicate Defends(f: Graph, S: set<nat>, a: nat) {
    forall b | Attacks(f, b, a) :: Hits(f, S, b)
  }

  ghost predicate Admissible(f: Graph, S: set<nat>) {
    ConflictFree(f, S) && forall a {:trigger Defends(f, S, a)} | a in S :: Defends(f, S, a)
  }

  ghost predicate Complete(f: Graph, S: set<nat>) {
    Admissible(f, S) && forall a | a in Args(f) && Defends(f, S, a) :: a in S
  }

  ghost predicate Preferred(f: Graph, S: set<nat>) {
    Admissible(f, S) && forall S' | Admissible(f, S') && S <= S' :: S' == S
  }

  ghost predicate Stable(f: Graph, S: set<nat>) {
    ConflictFree(f, S) && forall a | a in Args(f) && a !in S :: Hits(f, S, a)
  }

  function Unattacked(f: Graph): set<nat> {
    set i: nat | i < Size(f) && f.attackers[i] == []
  }

  /** Admissible and holding every unattacked argument: what the SAT encoding describes. */
  ghost predicate Grounding(f: Graph, S: set<nat>) {
    Admissible(f, S) && Unattacked(f) <= S
  }

  ghost predicate SkepticallyPreferred(f: Graph, a: nat) {
    forall P | Preferred(f, P) :: a in P
  }

  // ----- Facts about the semantics -----

  lemma AttackerIsArgument(f: Graph, a: nat, b: nat)
    requires Attacks(f, a, b)
    ensures a in Args(f) && b in Args(f)
  {
    var j :| 0 <= j < |f.attackers[b]| && f.attackers[b][j] == a;
    assert f.attackers[b][j] < |f.attackers|;
  }

  lemma EmptyAdmissible(f: Graph)
    ensures Admissible(f, {})
  {}

  /** Every admissible set extends to a preferred one. */
  lemma {:induction false} ExtendToPreferred(f: Graph, S: set<nat>) returns (P: set<nat>)
    requires Admissible(f, S)
    ensures Preferred(f, P) && S <= P
    decreases Args(f) - S
  {
    if T :| Admissible(f, T) && S <= T && T != S {
      assert Args(f) - T < Args(f) - S by {
        var x :| x in T && x !in S;
        assert x in Args(f) - S && x !in Args(f) - T;
      }
      P := ExtendToPreferred(f, T);
    } else {
      P := S;
    }
  }

  /** An admissible set answers every attack on it. */
  lemma AdmissibleHitsBack(f: Graph, S: set<nat>, P: set<nat>)
    requires Admissible(f, P)
    ensures HitsSet(f, S, P) ==> HitsSet(f, P, S)
  {
    if HitsSet(f, S, P) {
      var b :| b in P && Hits(f, S, b);
      var a :| a in S && Attacks(f, a, b);
      assert Defends(f, P, b);
    }
  }

  /** Two admissible sets that do not attack each other have an admissible union. */
  lemma UnionAdmissible(f: Graph, S: set<nat>, T: set<nat>)
    requires Admissible(f, S) && Admissible(f, T) && !HitsSet(f, S, T)
    ensures Admissible(f, S + T)
  {
    var U := S + T;
    AdmissibleHitsBack(f, T, S);
    forall a, b | a in U && b in U ensures !Attacks(f, a, b) {
      if a in S && b in T {
        assert !Hits(f, S, b);
      } else if a in T && b in S {
        assert !Hits(f, T, b);
      }
    }
    forall a | a in U ensures Defends(f, U, a) {
      forall b | Attacks(f, b, a) ensures Hits(f, U, b) {
        if a in S {
          assert Defends(f, S, a);
          var c :| c in S && Attacks(f, c, b);
        } else {
          assert Defends(f, T, a);
          var c :| c in T && Attacks(f, c, b);
        }
      }
    }
  }

  /** Adding a defended argument to an admissible set keeps it admissible. */
  lemma Fundamental(f: Graph, S: set<nat>, a: nat)
    requires Admissible(f, S) && a in Args(f) && Defends(f, S, a)
    ensures Admissible(f, S + {a})
  {
    var U := S + {a};
    forall x | x in S ensures !Hits(f, S, x) {}
    assert !Hits(f, S, a) by {
      forall c | c in S ensures !Attacks(f, c, a) {
        assert !Hits(f, S, c);
      }
    }
    forall y | y in U ensures Defends(f, S, y) && Defends(f, U, y) {
      if y in S {
        assert Defends(f, S, y);
      }
      forall b | Attacks(f, b, y) ensures Hits(f, S, b) && Hits(f, U, b) {
        var c :| c in S && Attacks(f, c, b);
        assert c in U;
      }
    }
    // Whatever attacks a member of U is hit by S, and no member of U is.
    forall x, y | x in U && y in U ensures !Attacks(f, x, y) {
      assert !Hits(f, S, x);
    }
  }

  lemma PreferredIsComplete(f: Graph, P: set<nat>)
    requires Preferred(f, P)
    ensures Complete(f, P)
  {
    forall a | a in Args(f) && Defends(f, P, a) ensures a in P {
      Fundamental(f, P, a);
      assert P <= P + {a};
    }
  }

  lemma CompleteIsGrounding(f: Graph, S: set<nat>)
    requires Complete(f, S)
    ensures Grounding(f, S)
  {
    forall a | a in Unattacked(f) ensures a in S {
      assert Defends(f, S, a);
    }
  }

  lemma PreferredIsGrounding(f: Graph, P: set<nat>)
    requires Preferred(f, P)
    ensures Grounding(f, P)
  {
    PreferredIsComplete(f, P);
    CompleteIsGrounding(f, P);
  }

  lemma StableIsPreferred(f: Graph, S: set<nat>)
    requires Stable(f, S)
    ensures Preferred(f, S)
  {
    forall a | a in S ensures Defends(f, S, a) {
      forall b | Attacks(f, b, a) ensures Hits(f, S, b) {
        AttackerIsArgument(f, b, a);
      }
    }
    forall T | Admissible(f, T) && S <= T ensures T == S {
      forall x | x in T ensures x in S {
        assert !Hits(f, T, x);
        assert Hits(f, S, x) ==> Hits(f, T, x);
      }
    }
  }

  /** No stable extension strictly contains another. */
  lemma StableAntichain(f: Graph, S: set<nat>, T: set<nat>)
    requires Stable(f, S) && Stable(f, T) && S <= T
    ensures S == T
  {
    StableIsPreferred(f, S);
    StableIsPreferred(f, T);
  }

  /** If a preferred extension does not contain the admissible set `S`, the two attack each other. */
  lemma PreferredConflict(f: Graph, P: set<nat>, S: set<nat>)
    requires Preferred(f, P) && Admissible(f, S) && !(S <= P)
    ensures HitsSet(f, P, S) && HitsSet(f, S, P)
  {
    assert P <= P + S && P + S != P;
    if !HitsSet(f, P, S) {
      UnionAdmissible(f, P, S);
      assert false;
    }
    AdmissibleHitsBack(f, P, S);
  }
}
