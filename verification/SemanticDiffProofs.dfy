/** Move classification is a maximum matching, and the operations of a diff rebuild the later
    snapshot exactly when no move hides where an entity came from. */
module SemanticDiffProofs {
  import opened Basics
  import opened Sorting
  import opened SemanticDiff

  // ----- Counting operations by kind and digest -----

  predicate Bears(op: Operation, kind: Kind, d: Fingerprint) {
    op.kind == kind && (if kind.Remove? then op.before else op.after) == Some(d)
  }

  function Tally(ops: seq<Operation>, kind: Kind, d: Fingerprint): nat {
    if ops == [] then 0
    else Tally(ops[..|ops| - 1], kind, d) + if Bears(ops[|ops| - 1], kind, d) then 1 else 0
  }

  /** The tally of the positions that were not dropped. */
  function Left(ops: seq<Operation>, dropped: set<nat>, kind: Kind, d: Fingerprint): nat {
    if ops == [] then 0
    else
      Left(ops[..|ops| - 1], dropped, kind, d)
      + if |ops| - 1 !in dropped && Bears(ops[|ops| - 1], kind, d) then 1 else 0
  }

  lemma {:induction false} TallyConcat(x: seq<Operation>, y: seq<Operation>, kind: Kind, d: Fingerprint)
    ensures Tally(x + y, kind, d) == Tally(x, kind, d) + Tally(y, kind, d)
  {
    if y == [] {
      assert x + y == x;
    } else {
      TallyConcat(x, y[..|y| - 1], kind, d);
      assert (x + y)[..|x + y| - 1] == x + y[..|y| - 1];
    }
  }

  lemma {:induction false} KeptTally(ops: seq<Operation>, dropped: set<nat>, kind: Kind, d: Fingerprint)
    ensures Tally(Kept(ops, dropped), kind, d) == Left(ops, dropped, kind, d)
  {
    if ops != [] {
      var init, last := ops[..|ops| - 1], ops[|ops| - 1];
      KeptTally(init, dropped, kind, d);
      TallyConcat(Kept(init, dropped), [last], kind, d);
      assert [last][..0] == [];
      assert |ops| - 1 in dropped ==> Kept(ops, dropped) == Kept(init, dropped);
    }
  }

  lemma {:induction false} LeftNone(ops: seq<Operation>, kind: Kind, d: Fingerprint)
    ensures Left(ops, {}, kind, d) == Tally(ops, kind, d)
  {
    if ops != [] {
      LeftNone(ops[..|ops| - 1], kind, d);
    }
  }

  lemma {:induction false} LeftDrop(ops: seq<Operation>, dropped: set<nat>, i: nat, kind: Kind, d: Fingerprint)
    requires i !in dropped
    ensures Left(ops, dropped, kind, d)
         == Left(ops, dropped + {i}, kind, d) + if i < |ops| && Bears(ops[i], kind, d) then 1 else 0
  {
    if ops != [] {
      LeftDrop(ops[..|ops| - 1], dropped, i, kind, d);
    }
  }

  lemma {:induction false} LeftWitness(ops: seq<Operation>, dropped: set<nat>, kind: Kind, d: Fingerprint) returns (i: nat)
    requires Left(ops, dropped, kind, d) > 0
    ensures i < |ops| && i !in dropped && Bears(ops[i], kind, d)
  {
    if |ops| - 1 !in dropped && Bears(ops[|ops| - 1], kind, d) {
      i := |ops| - 1;
    } else {
      i := LeftWitness(ops[..|ops| - 1], dropped, kind, d);
    }
  }

  // ----- The matching loop -----

  ghost predicate Names(move: Operation, addition: Operation) {
    && move.kind.Move? && move.entity == addition.entity && move.before == move.after == addition.after
    && move.compatibility.Backward? && move.evidence == addition.evidence
  }

  /** A removal and an addition of the same digest. */
  predicate Shares(removal: Operation, addition: Operation) {
    removal.kind.Remove? && addition.kind.Add? && removal.before.Some? && removal.before == addition.after
  }

  ghost predicate HasPair(ops: seq<Operation>, m: Matching) {
    exists i, j :: i in m.dropped && i !in m.used && j in m.used && i < |ops| && j < |ops| && Shares(ops[i], ops[j])
  }

  /** Dropped positions are used additions and visited removals. */
  ghost predicate Dropped(ops: seq<Operation>, n: nat, m: Matching) {
    && (forall j :: j in m.used ==> j in m.dropped && j < |ops| && ops[j].kind.Add? && ops[j].after.Some?)
    && (forall i :: i in m.dropped && i !in m.used ==> i < n && i < |ops| && ops[i].kind.Remove? && ops[i].before.Some?)
    && (m.moves == [] <==> m.dropped == {})
    && (m.moves != [] ==> HasPair(ops, m))
  }

  /** Every move renames a used addition. */
  ghost predicate Renamed(ops: seq<Operation>, used: set<nat>, moves: seq<Operation>) {
    forall k :: 0 <= k < |moves| ==> exists j :: j in used && j < |ops| && Names(moves[k], ops[j])
  }

  /** Every used addition has its move. */
  ghost predicate Reported(ops: seq<Operation>, used: set<nat>, moves: seq<Operation>) {
    forall j :: j in used && j < |ops| ==> exists k :: 0 <= k < |moves| && Names(moves[k], ops[j])
  }

  /** A visited removal that stays has no addition left to pair with. */
  ghost predicate Exhausted(ops: seq<Operation>, n: nat, m: Matching) {
    forall i, j :: 0 <= i < n && i < |ops| && i !in m.dropped && 0 <= j < |ops| && Shares(ops[i], ops[j]) ==> j in m.used
  }

  ghost predicate Sound(ops: seq<Operation>, n: nat, m: Matching) {
    Dropped(ops, n, m) && Renamed(ops, m.used, m.moves) && Reported(ops, m.used, m.moves) && Exhausted(ops, n, m)
  }

  ghost predicate Balanced(ops: seq<Operation>, m: Matching, d: Fingerprint) {
    && Left(ops, m.dropped, Remove, d) + Tally(m.moves, Move, d) == Tally(ops, Remove, d)
    && Left(ops, m.dropped, Add, d) + Tally(m.moves, Move, d) == Tally(ops, Add, d)
    && Left(ops, m.dropped, Move, d) == Tally(ops, Move, d)
  }

  lemma MatchOneSound(ops: seq<Operation>, i: nat, m: Matching)
    requires i < |ops| && Sound(ops, i, m)
    ensures Sound(ops, i + 1, MatchOne(ops, i, m))
  {
    hide Renamed, Reported;
    if MatchOne(ops, i, m) != m {
      var added := FindAdd(ops, ops[i].before.value, m.used, 0).value;
      assert Shares(ops[i], ops[added]) && HasPair(ops, MatchOne(ops, i, m));
      MoveRenames(ops, m.used, m.moves, added, MoveOf(ops[i], ops[added]));
      MoveReports(ops, m.used, m.moves, added, MoveOf(ops[i], ops[added]));
    }
  }

  lemma MoveRenames(ops: seq<Operation>, used: set<nat>, moves: seq<Operation>, added: nat, move: Operation)
    requires added < |ops| && Names(move, ops[added]) && Renamed(ops, used, moves)
    ensures Renamed(ops, used + {added}, moves + [move])
  {
    hide Names;
    forall k | 0 <= k < |moves + [move]|
      ensures exists j :: j in used + {added} && j < |ops| && Names((moves + [move])[k], ops[j])
    {
      if k < |moves| {
        var j :| j in used && j < |ops| && Names(moves[k], ops[j]);
        assert j in used + {added};
      } else {
        assert added in used + {added};
      }
    }
  }

  lemma MoveReports(ops: seq<Operation>, used: set<nat>, moves: seq<Operation>, added: nat, move: Operation)
    requires added < |ops| && Names(move, ops[added]) && Reported(ops, used, moves)
    ensures Reported(ops, used + {added}, moves + [move])
  {
    hide Names;
    var all := moves + [move];
    forall j | j in used + {added} && j < |ops|
      ensures exists k :: 0 <= k < |all| && Names(all[k], ops[j])
    {
      if j == added {
        assert all[|moves|] == move;
      } else {
        var k :| 0 <= k < |moves| && Names(moves[k], ops[j]);
        assert all[k] == moves[k];
      }
    }
  }

  lemma MatchOneBalanced(ops: seq<Operation>, i: nat, m: Matching, d: Fingerprint)
    requires i < |ops| && Sound(ops, i, m) && Balanced(ops, m, d)
    ensures Balanced(ops, MatchOne(ops, i, m), d)
  {
    hide Left, Tally, HasPair, Renamed, Reported, Exhausted;
    var next := MatchOne(ops, i, m);
    if next != m {
      var j := FindAdd(ops, ops[i].before.value, m.used, 0).value;
      var move := MoveOf(ops[i], ops[j]);
      assert i !in m.dropped && j !in m.dropped;
      assert next.dropped == m.dropped + {i} + {j} && next.moves == m.moves + [move];
      assert Bears(move, Move, d) == Bears(ops[i], Remove, d) == Bears(ops[j], Add, d);
      hide MatchOne, FindAdd, Dropped;
      forall kind | kind in {Remove, Add, Move}
        ensures Left(ops, m.dropped, kind, d)
             == Left(ops, next.dropped, kind, d)
                + (if Bears(ops[i], kind, d) then 1 else 0) + (if Bears(ops[j], kind, d) then 1 else 0)
      {
        LeftDrop(ops, m.dropped, i, kind, d);
        LeftDrop(ops, m.dropped + {i}, j, kind, d);
      }
      TallyConcat(m.moves, [move], Move, d);
      TallyOne(move, Move, d);
    }
  }

  lemma TallyOne(op: Operation, kind: Kind, d: Fingerprint)
    ensures Tally([op], kind, d) == if Bears(op, kind, d) then 1 else 0
  {
    assert [op][..0] == [];
    assert Tally([], kind, d) == 0;
  }

  lemma {:induction false} MatchingFacts(ops: seq<Operation>, n: nat, d: Fingerprint)
    requires n <= |ops|
    ensures Sound(ops, n, MatchUpTo(ops, n)) && Balanced(ops, MatchUpTo(ops, n), d)
  {
    hide Sound, Balanced, MatchOne;
    if n == 0 {
      LeftNone(ops, Remove, d);
      LeftNone(ops, Add, d);
      LeftNone(ops, Move, d);
      EmptyMatching(ops, d);
    } else {
      MatchingFacts(ops, n - 1, d);
      MatchOneSound(ops, n - 1, MatchUpTo(ops, n - 1));
      MatchOneBalanced(ops, n - 1, MatchUpTo(ops, n - 1), d);
    }
  }

  lemma EmptyMatching(ops: seq<Operation>, d: Fingerprint)
    requires forall kind :: kind in {Remove, Add, Move} ==> Left(ops, {}, kind, d) == Tally(ops, kind, d)
    ensures Sound(ops, 0, Matching({}, {}, [])) && Balanced(ops, Matching({}, {}, []), d)
  {
    assert Tally([], Move, d) == 0;
  }

  function Min(x: nat, y: nat): nat {
    if x <= y then x else y
  }

  /** On any list of operations, classification turns as many removal and addition pairs of
      each digest into moves as there are: none is left unmatched on both sides. */
  lemma MovesMatchMaximally(ops: seq<Operation>, d: Fingerprint)
    ensures var removed, added := Tally(ops, Remove, d), Tally(ops, Add, d);
            && Tally(Classify(ops), Move, d) == Tally(ops, Move, d) + Min(removed, added)
            && Tally(Classify(ops), Remove, d) == removed - Min(removed, added)
            && Tally(Classify(ops), Add, d) == added - Min(removed, added)
  {
    hide Left, Tally, MatchUpTo, Kept;
    var m := MatchUpTo(ops, |ops|);
    MatchingFacts(ops, |ops|, d);
    if Left(ops, m.dropped, Remove, d) > 0 && Left(ops, m.dropped, Add, d) > 0 {
      var i := LeftWitness(ops, m.dropped, Remove, d);
      var j := LeftWitness(ops, m.dropped, Add, d);
      Unpaired(ops, m, i, j);
    }
    NothingButMoves(ops, d);
    if m.moves == [] {
      LeftNone(ops, Remove, d);
      LeftNone(ops, Add, d);
    } else {
      forall kind: Kind
        ensures Tally(Classify(ops), kind, d) == Left(ops, m.dropped, kind, d) + Tally(m.moves, kind, d)
      {
        KeptTally(ops, m.dropped, kind, d);
        TallyConcat(Kept(ops, m.dropped), m.moves, kind, d);
      }
    }
  }

  lemma Unpaired(ops: seq<Operation>, m: Matching, i: nat, j: nat)
    requires Sound(ops, |ops|, m) && i < |ops| && j < |ops| && i !in m.dropped && j !in m.dropped
    ensures !Shares(ops[i], ops[j])
  {
  }

  lemma OnlyMoves(ops: seq<Operation>, used: set<nat>, moves: seq<Operation>)
    requires Renamed(ops, used, moves)
    ensures forall k :: 0 <= k < |moves| ==> moves[k].kind.Move?
  {
  }

  lemma NothingButMoves(ops: seq<Operation>, d: Fingerprint)
    ensures Tally(MatchUpTo(ops, |ops|).moves, Remove, d) == 0
    ensures Tally(MatchUpTo(ops, |ops|).moves, Add, d) == 0
    ensures MatchUpTo(ops, |ops|).moves == [] ==> Tally(MatchUpTo(ops, |ops|).moves, Move, d) == 0
  {
    hide MatchUpTo, Renamed, Reported;
    var m := MatchUpTo(ops, |ops|);
    MatchingFacts(ops, |ops|, d);
    OnlyMoves(ops, m.used, m.moves);
    OfOneKind(m.moves, d);
  }

  lemma {:induction false} OfOneKind(moves: seq<Operation>, d: Fingerprint)
    requires forall k :: 0 <= k < |moves| ==> moves[k].kind.Move?
    ensures Tally(moves, Remove, d) == 0 && Tally(moves, Add, d) == 0
  {
    if moves != [] {
      OfOneKind(moves[..|moves| - 1], d);
    }
  }
}
