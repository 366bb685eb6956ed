/** The framework object the input is read into: names, attack lists in both
    directions, counters and the numbering of the propositional variables. */
module ArgumentationFramework {
  import opened Frameworks

  function TotalLength(lists: seq<seq<nat>>): (n: nat) {
    if lists == [] then 0 else TotalLength(lists[..|lists| - 1]) + |lists[|lists| - 1]|
  }

  lemma {:induction false} TotalLengthUpdate(lists: seq<seq<nat>>, i: nat, x: nat)
    requires i < |lists|
    ensures TotalLength(lists[i := lists[i] + [x]]) == TotalLength(lists) + 1
  {
    var last := |lists| - 1;
    var lists' := lists[i := lists[i] + [x]];
    if i == last {
      assert lists'[..last] == lists[..last];
    } else {
      assert lists'[..last] == lists[..last][i := lists[..last][i] + [x]];
      TotalLengthUpdate(lists[..last], i, x);
    }
  }

  lemma {:induction false} TotalLengthEmpty(lists: seq<seq<nat>>)
    requires forall i | 0 <= i < |lists| :: lists[i] == []
    ensures TotalLength(lists) == 0
  {
    if lists != [] {
      TotalLengthEmpty(lists[..|lists| - 1]);
    }
  }

  /** The list of targets says the same as the list of attackers. */
  ghost predicate Mirrored(n: nat, attackers: seq<seq<nat>>, attacked: seq<seq<nat>>) {
    && |attackers| == |attacked| == n
    && (forall i, j | 0 <= i < n && 0 <= j < |attacked[i]| :: attacked[i][j] < n)
    && (forall i: nat, j: nat | i < n && j < n :: j in attacked[i] <==> i in attackers[j])
  }

  ghost predicate Flagged(attackers: seq<seq<nat>>, unattacked: seq<bool>, selfAttack: seq<bool>) {
    && |unattacked| == |selfAttack| == |attackers|
    && (forall i | 0 <= i < |attackers| :: unattacked[i] <==> attackers[i] == [])
    && (forall i | 0 <= i < |attackers| :: selfAttack[i] <==> i in attackers[i])
  }

  ghost predicate Recorded(attackers: seq<seq<nat>>, attExists: map<(nat, nat), bool>) {
    forall i: nat, j: nat :: (i, j) in attExists <==> j < |attackers| && i in attackers[j]
  }

  /** Exactly the attacks read so far have an entry, and it says whether the
      opposite attack was read as well. */
  ghost predicate Symmetries(attExists: map<(nat, nat), bool>, symmetric: map<(nat, nat), bool>) {
    && symmetric.Keys == attExists.Keys
    && (forall i: nat, j: nat | (i, j) in attExists :: symmetric[(i, j)] <==> (j, i) in attExists)
  }

  lemma MirroredAdd(n: nat, attackers: seq<seq<nat>>, attacked: seq<seq<nat>>, source: nat, target: nat)
    requires Mirrored(n, attackers, attacked) && WellFormed(Framework(attackers))
    requires source < n && target < n
    ensures Mirrored(n, attackers[target := attackers[target] + [source]],
                     attacked[source := attacked[source] + [target]])
    ensures WellFormed(Framework(attackers[target := attackers[target] + [source]]))
  {
    var as', ad' := attackers[target := attackers[target] + [source]],
                    attacked[source := attacked[source] + [target]];
    forall i: nat, j: nat | i < n && j < n ensures j in ad'[i] <==> i in as'[j] {
      assert j in attacked[i] <==> i in attackers[j];
      assert j in ad'[i] <==> j in attacked[i] || (i, j) == (source, target);
      assert i in as'[j] <==> i in attackers[j] || (i, j) == (source, target);
    }
  }

  lemma RecordedAdd(attackers: seq<seq<nat>>, attExists: map<(nat, nat), bool>, source: nat, target: nat)
    requires Recorded(attackers, attExists) && target < |attackers|
    ensures Recorded(attackers[target := attackers[target] + [source]], attExists[(source, target) := true])
  {
    var as' := attackers[target := attackers[target] + [source]];
    forall i: nat, j: nat
      ensures (i, j) in attExists[(source, target) := true] <==> j < |as'| && i in as'[j]
    {
      assert j < |as'| ==> (i in as'[j] <==> i in attackers[j] || (i, j) == (source, target));
    }
  }

  lemma FlaggedAdd(attackers: seq<seq<nat>>, unattacked: seq<bool>, selfAttack: seq<bool>, source: nat, target: nat)
    requires Flagged(attackers, unattacked, selfAttack) && source < |attackers| && target < |attackers|
    ensures Flagged(attackers[target := attackers[target] + [source]], unattacked[target := false],
                    if source == target then selfAttack[source := true] else selfAttack)
  {
    var as' := attackers[target := attackers[target] + [source]];
    forall i | 0 <= i < |as'| ensures i in as'[i] <==> i in attackers[i] || i == source == target {
      assert i in as'[i] <==> i in attackers[i] || i == source == target;
    }
  }

  lemma SymmetriesAdd(attExists: map<(nat, nat), bool>, symmetric: map<(nat, nat), bool>, source: nat, target: nat)
    requires Symmetries(attExists, symmetric)
    ensures var att' := attExists[(source, target) := true];
            Symmetries(att', if (target, source) in att'
                             then symmetric[(source, target) := true][(target, source) := true]
                             else symmetric[(source, target) := false])
  {}

  class AF {
    const perfEnc: bool  // compiled with PERF_ENC
    var args: nat
    var count: nat
    var attacks: nat
    var intToArg: seq<string>
    var argToInt: map<string, nat>
    var attackers: seq<seq<nat>>
    var attacked: seq<seq<nat>>
    var unattacked: seq<bool>
    var selfAttack: seq<bool>
    var attExists: map<(nat, nat), bool>
    var symmetricAttack: map<(nat, nat), bool>
    var acceptedVar: seq<int>
    var rejectedVar: seq<int>
    var undecidedVar: seq<int>

    /** Every known name leads to an index that carries this name. */
    ghost predicate Named()
      reads this
    {
      && |intToArg| == args
      && forall s | s in argToInt :: argToInt[s] < args && intToArg[argToInt[s]] == s
    }

    /** No attack has been read yet. */
    ghost predicate Unlinked()
      reads this
    {
      && Named()
      && attackers == [] && attacked == [] && unattacked == [] && selfAttack == []
      && attacks == 0 && attExists == map[] && symmetricAttack == map[]
    }

    /** The attack lists are sized, agree with each other and with every derived table. */
    ghost predicate Linked()
      reads this
    {
      && Named()
      && |attackers| == |attacked| == |unattacked| == |selfAttack| == args
      && WellFormed(Framework(attackers))
      && Mirrored(args, attackers, attacked)
      && Flagged(attackers, unattacked, selfAttack)
      && attacks == TotalLength(attackers)
      && Recorded(attackers, attExists)
      && Symmetries(attExists, symmetricAttack)
    }

    /** Read completely: attack lists linked and variables numbered from 1. */
    ghost predicate Ready()
      reads this
    {
      && Linked()
      && |acceptedVar| == |rejectedVar| == args
      && (forall i | 0 <= i < args :: acceptedVar[i] == i + 1)
      && (forall i | 0 <= i < args :: rejectedVar[i] == args + i + 1)
      && (!perfEnc ==>
            && |undecidedVar| == args
            && (forall i | 0 <= i < args :: undecidedVar[i] == 2 * args + i + 1))
      && count == if perfEnc then 2 * args else 3 * args
    }

    ghost function Graph(): (f: Graph)
      requires Linked()
      reads this
    {
      Framework(attackers)
    }

    constructor (perfEnc: bool)
      ensures this.perfEnc == perfEnc && Unlinked() && args == 0 && count == 0
    {
      this.perfEnc := perfEnc;
      args, count, attacks := 0, 0, 0;
      intToArg, argToInt := [], map[];
      attackers, attacked, unattacked, selfAttack := [], [], [], [];
      attExists, symmetricAttack := map[], map[];
      acceptedVar, rejectedVar, undecidedVar := [], [], [];
    }

    method AddArgument(arg: string)
      requires Unlinked()
      modifies this`intToArg, this`argToInt, this`args
      ensures Unlinked()
      ensures args == old(args) + 1
      ensures intToArg == old(intToArg) + [arg]
      ensures argToInt == old(argToInt)[arg := old(args)]
    {
      intToArg := intToArg + [arg];
      argToInt := argToInt[arg := args];
      args := args + 1;
    }

    method InitializeAttackers()
      requires Unlinked()
      modifies this`attackers, this`attacked, this`unattacked, this`selfAttack
      ensures Linked()
      ensures attackers == seq(args, i => [])
    {
      attackers := seq(args, i => []);
      attacked := seq(args, i => []);
      unattacked := seq(args, i => true);
      selfAttack := seq(args, i => false);
      TotalLengthEmpty(attackers);
    }

    /** An attack between unknown names is ignored; any other is entered in every
        table and keeps them consistent, also when it was read before. */
    method AddAttack(att: (string, string))
      requires Linked()
      modifies this`attackers, this`attacked, this`unattacked, this`selfAttack, this`attacks,
               this`attExists, this`symmetricAttack
      ensures Linked()
      ensures att.0 !in argToInt || att.1 !in argToInt ==>
                attackers == old(attackers) && attacks == old(attacks)
      ensures att.0 in argToInt && att.1 in argToInt ==>
                var source, target := argToInt[att.0], argToInt[att.1];
                && attackers == old(attackers)[target := old(attackers)[target] + [source]]
                && attacks == old(attacks) + 1
    {
      hide Mirrored, Recorded, Symmetries, TotalLength, Flagged, WellFormed;
      if att.0 !in argToInt || att.1 !in argToInt {
        return;
      }
      var source, target := argToInt[att.0], argToInt[att.1];
      TotalLengthUpdate(attackers, target, source);
      MirroredAdd(args, attackers, attacked, source, target);
      RecordedAdd(attackers, attExists, source, target);
      FlaggedAdd(attackers, unattacked, selfAttack, source, target);
      attackers := attackers[target := attackers[target] + [source]];
      attacked := attacked[source := attacked[source] + [target]];
      unattacked := unattacked[target := false];
      if source == target {
        selfAttack := selfAttack[source := true];
      }
      attacks := attacks + 1;
      RecordAttack(source, target);
    }

    /** Enter one attack, also one known already: the table of symmetric attacks keeps saying
        of every known attack whether its converse is known. */
    method RecordAttack(source: nat, target: nat)
      requires Symmetries(attExists, symmetricAttack)
      modifies this`attExists, this`symmetricAttack
      ensures attExists == old(attExists)[(source, target) := true]
      ensures Symmetries(attExists, symmetricAttack)
    {
      hide Symmetries;
      SymmetriesAdd(attExists, symmetricAttack, source, target);
      attExists := attExists[(source, target) := true];
      if (target, source) in attExists {
        symmetricAttack := symmetricAttack[(source, target) := true];
        symmetricAttack := symmetricAttack[(target, source) := true];
      } else {
        symmetricAttack := symmetricAttack[(source, target) := false];
      }
    }

    /** Number three (with PERF_ENC two) consecutive blocks of variables. */
    method InitializeVars()
      requires Linked() && count == 0
      modifies this`acceptedVar, this`rejectedVar, this`undecidedVar, this`count
      ensures Ready()
    {
      hide Mirrored, Recorded, Symmetries, TotalLength, Flagged;
      var accepted, rejected, undecided := [], [], [];
      for i := 0 to args
        invariant |accepted| == i && count == i
        invariant forall k | 0 <= k < i :: accepted[k] == k + 1
      {
        count := count + 1;
        accepted := accepted + [count];
      }
      acceptedVar := accepted;
      for i := 0 to args
        invariant |rejected| == i && count == args + i && acceptedVar == accepted
        invariant forall k | 0 <= k < i :: rejected[k] == args + k + 1
      {
        count := count + 1;
        rejected := rejected + [count];
      }
      rejectedVar := rejected;
      if !perfEnc {
        for i := 0 to args
          invariant |undecided| == i && count == 2 * args + i
          invariant acceptedVar == accepted && rejectedVar == rejected
          invariant forall k | 0 <= k < i :: undecided[k] == 2 * args + k + 1
        {
          count := count + 1;
          undecided := undecided + [count];
        }
        undecidedVar := undecided;
      }
    }
  }
}
