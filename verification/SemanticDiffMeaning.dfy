/** What a diff says about two snapshots: which operations it holds, in which order, and when
    they are enough to rebuild the later snapshot from the earlier one. */
module SemanticDiffMeaning {
  import opened Basics
  import opened Sorting
  import opened SemanticDiff
  import opened SemanticDiffProofs

  type Entries = map<Text, Fingerprint>

  ghost predicate DistinctEntities(ops: seq<Operation>) {
    forall i, j :: 0 <= i < j < |ops| ==> ops[i].entity != ops[j].entity
  }

  /** The changes between two id-to-digest maps. */
  predicate IsChange(op: Operation, earlier: Entries, later: Entries, evidence: seq<Fingerprint>) {
    && op.compatibility == Unknown && op.evidence == evidence
    && match op.kind
       case Remove =>
         && op.entity in earlier && op.entity !in later
         && op.before == Some(earlier[op.entity]) && op.after == None
       case Modify =>
         && op.entity in earlier && op.entity in later && earlier[op.entity] != later[op.entity]
         && op.before == Some(earlier[op.entity]) && op.after == Some(later[op.entity])
       case Add =>
         && op.entity !in earlier && op.entity in later
         && op.before == None && op.after == Some(later[op.entity])
       case _ => false
  }

  lemma {:induction false} DeparturesExact(t: seq<Node>, later: seq<Node>, evidence: seq<Fingerprint>)
    ensures forall op :: op in Departures(t, later, evidence)
                    <==> exists k :: 0 <= k < |t| && op in Departure(t[k], Lookup(later, t[k].id), evidence)
  {
    hide Lookup, Departure;
    if t != [] {
      var init := t[..|t| - 1];
      DeparturesExact(init, later, evidence);
      forall op
        ensures op in Departures(t, later, evidence)
           <==> exists k :: 0 <= k < |t| && op in Departure(t[k], Lookup(later, t[k].id), evidence)
      {
        if op in Departures(init, later, evidence) {
          var k :| 0 <= k < |init| && op in Departure(init[k], Lookup(later, init[k].id), evidence);
          assert t[k] == init[k];
        }
        if k :| 0 <= k < |t| && op in Departure(t[k], Lookup(later, t[k].id), evidence) {
          assert k < |init| ==> t[k] == init[k];
        }
      }
    }
  }

  lemma {:induction false} DeparturesDistinct(t: seq<Node>, later: seq<Node>, evidence: seq<Fingerprint>)
    requires Ordered(t)
    ensures DistinctEntities(Departures(t, later, evidence))
  {
    hide Lookup, TextLess;
    if t != [] {
      var init, n := t[..|t| - 1], t[|t| - 1];
      var listed := Departures(init, later, evidence);
      DeparturesDistinct(init, later, evidence);
      DeparturesExact(init, later, evidence);
      forall i | 0 <= i < |listed|
        ensures listed[i].entity != n.id
      {
        assert listed[i] in listed;
        var k :| 0 <= k < |init| && listed[i] in Departure(init[k], Lookup(later, init[k].id), evidence);
        TextLessTotal(t[k].id, n.id);
      }
    }
  }

  lemma {:induction false} ArrivalsExact(t: seq<Node>, earlier: seq<Node>, evidence: seq<Fingerprint>)
    ensures forall op :: op in Arrivals(t, earlier, evidence)
                    <==> exists k :: 0 <= k < |t| && op in Arrival(t[k], Lookup(earlier, t[k].id), evidence)
  {
    hide Lookup, Arrival;
    if t != [] {
      var init := t[..|t| - 1];
      ArrivalsExact(init, earlier, evidence);
      forall op
        ensures op in Arrivals(t, earlier, evidence)
           <==> exists k :: 0 <= k < |t| && op in Arrival(t[k], Lookup(earlier, t[k].id), evidence)
      {
        if op in Arrivals(init, earlier, evidence) {
          var k :| 0 <= k < |init| && op in Arrival(init[k], Lookup(earlier, init[k].id), evidence);
          assert t[k] == init[k];
        }
        if k :| 0 <= k < |t| && op in Arrival(t[k], Lookup(earlier, t[k].id), evidence) {
          assert k < |init| ==> t[k] == init[k];
        }
      }
    }
  }

  lemma {:induction false} ArrivalsDistinct(t: seq<Node>, earlier: seq<Node>, evidence: seq<Fingerprint>)
    requires Ordered(t)
    ensures DistinctEntities(Arrivals(t, earlier, evidence))
  {
    hide Lookup, TextLess;
    if t != [] {
      var init, n := t[..|t| - 1], t[|t| - 1];
      var listed := Arrivals(init, earlier, evidence);
      ArrivalsDistinct(init, earlier, evidence);
      ArrivalsExact(init, earlier, evidence);
      forall i | 0 <= i < |listed|
        ensures listed[i].entity != n.id
      {
        assert listed[i] in listed;
        var k :| 0 <= k < |init| && listed[i] in Arrival(init[k], Lookup(earlier, init[k].id), evidence);
        TextLessTotal(t[k].id, n.id);
      }
    }
  }

  ghost predicate Indexes(table: seq<Node>, m: Entries) {
    && Ordered(table)
    && (forall id :: Lookup(table, id).Some? <==> id in m)
    && (forall id :: id in m ==> Lookup(table, id).value == m[id])
  }

  lemma DeparturesListed(t: seq<Node>, earlier: Entries, u: seq<Node>, later: Entries, evidence: seq<Fingerprint>, op: Operation)
    requires Indexes(t, earlier) && Indexes(u, later)
    ensures op in Departures(t, u, evidence) <==> IsChange(op, earlier, later, evidence) && !op.kind.Add?
  {
    DeparturesExact(t, u, evidence);
    LookupOrdered(t, op.entity);
    hide Departures, Lookup, Ordered;
  }

  lemma ArrivalsListed(t: seq<Node>, earlier: Entries, u: seq<Node>, later: Entries, evidence: seq<Fingerprint>, op: Operation)
    requires Indexes(t, earlier) && Indexes(u, later)
    ensures op in Arrivals(u, t, evidence) <==> IsChange(op, earlier, later, evidence) && op.kind.Add?
  {
    ArrivalsExact(u, t, evidence);
    LookupOrdered(u, op.entity);
    hide Arrivals, Lookup, Ordered;
  }

  lemma ListedExactly(b: Snapshot, a: Snapshot, op: Operation)
    ensures op in Changes(b, a) <==> IsChange(op, Entities(b.nodes), Entities(a.nodes), a.evidenceRoots)
  {
    var earlier, later := Index(b.nodes), Index(a.nodes);
    IndexFacts(b.nodes);
    IndexFacts(a.nodes);
    hide Lookup, Index, Entities, Departures, Arrivals, Ordered, IsChange;
    DeparturesListed(earlier, Entities(b.nodes), later, Entities(a.nodes), a.evidenceRoots, op);
    ArrivalsListed(earlier, Entities(b.nodes), later, Entities(a.nodes), a.evidenceRoots, op);
    assert op in Changes(b, a)
      <==> op in Departures(earlier, later, a.evidenceRoots) || op in Arrivals(later, earlier, a.evidenceRoots);
  }

  lemma ListedDistinct(b: Snapshot, a: Snapshot)
    ensures DistinctEntities(Changes(b, a))
  {
    var earlier, later := Index(b.nodes), Index(a.nodes);
    IndexFacts(b.nodes);
    IndexFacts(a.nodes);
    DeparturesDistinct(earlier, later, a.evidenceRoots);
    ArrivalsDistinct(later, earlier, a.evidenceRoots);
    var gone, come := Departures(earlier, later, a.evidenceRoots), Arrivals(later, earlier, a.evidenceRoots);
    assert Indexes(earlier, Entities(b.nodes)) && Indexes(later, Entities(a.nodes));
    hide Lookup, Index, Entities, Departures, Arrivals, Ordered, Indexes, DistinctEntities;
    forall i, j | 0 <= i < |gone| && 0 <= j < |come|
      ensures gone[i].entity != come[j].entity
    {
      assert gone[i] in gone && come[j] in come;
      DeparturesListed(earlier, Entities(b.nodes), later, Entities(a.nodes), a.evidenceRoots, gone[i]);
      ArrivalsListed(earlier, Entities(b.nodes), later, Entities(a.nodes), a.evidenceRoots, come[j]);
    }
    DistinctConcat(gone, come);
  }

  /** The listed operations are the changes between the two maps, one for each entity. */
  lemma ChangesExact(b: Snapshot, a: Snapshot)
    ensures forall op :: op in Changes(b, a) <==> IsChange(op, Entities(b.nodes), Entities(a.nodes), a.evidenceRoots)
    ensures DistinctEntities(Changes(b, a))
  {
    hide Changes, Entities, IsChange;
    ListedDistinct(b, a);
    forall op
      ensures op in Changes(b, a) <==> IsChange(op, Entities(b.nodes), Entities(a.nodes), a.evidenceRoots)
    {
      ListedExactly(b, a, op);
    }
  }

  // ----- One operation for each entity, in a strict order -----

  lemma {:induction false} KeptExact(ops: seq<Operation>, dropped: set<nat>)
    ensures forall op :: op in Kept(ops, dropped) <==> exists i: nat :: i < |ops| && i !in dropped && ops[i] == op
  {
    if ops != [] {
      var init, last := ops[..|ops| - 1], ops[|ops| - 1];
      KeptExact(init, dropped);
      var kept := Kept(init, dropped);
      assert Kept(ops, dropped) == kept + if |init| in dropped then [] else [last];
      hide Kept;
      forall op
        ensures op in Kept(ops, dropped) <==> exists i: nat :: i < |ops| && i !in dropped && ops[i] == op
      {
        if op in kept {
          var i: nat :| i < |init| && i !in dropped && init[i] == op;
          assert ops[i] == op;
        }
        if i: nat :| i < |ops| && i !in dropped && ops[i] == op {
          assert i < |init| ==> init[i] == op;
        }
      }
    }
  }

  lemma {:induction false} KeptDistinct(ops: seq<Operation>, dropped: set<nat>)
    requires DistinctEntities(ops)
    ensures DistinctEntities(Kept(ops, dropped))
  {
    if ops != [] {
      var init, last := ops[..|ops| - 1], ops[|ops| - 1];
      KeptDistinct(init, dropped);
      KeptExact(init, dropped);
      assert init + [last] == ops;
      KeptApart(init, last, dropped, Kept(init, dropped));
      DistinctAppend(Kept(init, dropped), last);
    }
  }

  lemma KeptApart(init: seq<Operation>, last: Operation, dropped: set<nat>, kept: seq<Operation>)
    requires DistinctEntities(init + [last])
    requires forall op :: op in kept ==> exists i: nat :: i < |init| && i !in dropped && init[i] == op
    ensures forall k :: 0 <= k < |kept| ==> kept[k].entity != last.entity
  {
    forall k | 0 <= k < |kept|
      ensures kept[k].entity != last.entity
    {
      assert kept[k] in kept;
      var i: nat :| i < |init| && i !in dropped && init[i] == kept[k];
      assert (init + [last])[i].entity != (init + [last])[|init|].entity;
    }
  }

  /** Where the loop takes a move from. */
  lemma MoveOrigin(ops: seq<Operation>, n: nat, m: Matching, k: nat) returns (j: nat)
    requires Dropped(ops, n, m) && Renamed(ops, m.used, m.moves) && 0 <= k < |m.moves|
    ensures j in m.used && j in m.dropped && j < |ops| && ops[j].kind.Add? && Names(m.moves[k], ops[j])
  {
    hide HasPair;
    RenamedWitness(ops, m.used, m.moves, k);
    j :| j in m.used && j < |ops| && Names(m.moves[k], ops[j]);
  }

  lemma RenamedWitness(ops: seq<Operation>, used: set<nat>, moves: seq<Operation>, k: nat)
    requires Renamed(ops, used, moves) && k < |moves|
    ensures exists j :: j in used && j < |ops| && Names(moves[k], ops[j])
  {
    assert moves[k] == moves[k];
  }

  lemma MatchOneAdds(ops: seq<Operation>, i: nat, m: Matching) returns (added: nat)
    requires i < |ops| && MatchOne(ops, i, m) != m
    ensures added < |ops| && added !in m.used
    ensures MatchOne(ops, i, m).moves == m.moves + [MoveOf(ops[i], ops[added])]
  {
    added := FindAdd(ops, ops[i].before.value, m.used, 0).value;
  }

  lemma {:induction false} MovesDistinct(ops: seq<Operation>, n: nat)
    requires n <= |ops| && DistinctEntities(ops)
    ensures DistinctEntities(MatchUpTo(ops, n).moves)
  {
    hide Sound, Balanced, DistinctEntities, MatchOne;
    if n == 0 {
      assert DistinctEntities([]) by {
        NothingToDistinguish();
      }
    } else {
      MovesDistinct(ops, n - 1);
      MatchingFacts(ops, n - 1, []);
      MatchOneDistinct(ops, n - 1, MatchUpTo(ops, n - 1));
    }
  }

  lemma MatchOneDistinct(ops: seq<Operation>, i: nat, m: Matching)
    requires i < |ops| && DistinctEntities(ops) && DistinctEntities(m.moves) && Sound(ops, i, m)
    ensures DistinctEntities(MatchOne(ops, i, m).moves)
  {
    hide Renamed, Reported, Exhausted, Dropped, MatchOne, Names, DistinctEntities;
    if MatchOne(ops, i, m) != m {
      var added := MatchOneAdds(ops, i, m);
      forall k | 0 <= k < |m.moves|
        ensures m.moves[k].entity != ops[added].entity
      {
        var j := MoveOrigin(ops, i, m, k);
        NamesEntity(m.moves[k], ops[j]);
        EntitiesApart(ops, j, added);
      }
      DistinctAppend(m.moves, MoveOf(ops[i], ops[added]));
    }
  }

  lemma NothingToDistinguish()
    ensures DistinctEntities([])
  {
  }

  lemma EntitiesApart(ops: seq<Operation>, i: nat, j: nat)
    requires DistinctEntities(ops) && i < |ops| && j < |ops| && i != j
    ensures ops[i].entity != ops[j].entity
  {
  }

  lemma DistinctAppend(ops: seq<Operation>, op: Operation)
    requires DistinctEntities(ops) && forall k :: 0 <= k < |ops| ==> ops[k].entity != op.entity
    ensures DistinctEntities(ops + [op])
  {
  }

  lemma NamesEntity(move: Operation, addition: Operation)
    requires Names(move, addition)
    ensures move.entity == addition.entity
  {
  }

  /** A classified change is a change, or the move that replaces an addition. */
  lemma ClassifiedFrom(ops: seq<Operation>, op: Operation)
    requires op in Classify(ops)
    ensures op in ops || exists j :: 0 <= j < |ops| && ops[j].kind.Add? && Names(op, ops[j])
  {
    var m := MatchUpTo(ops, |ops|);
    hide MatchUpTo, Kept, Sound, Balanced, Names;
    if m.moves != [] {
      if op in m.moves {
        MovedFrom(ops, op);
      } else {
        KeptExact(ops, m.dropped);
      }
    }
  }

  lemma MovedFrom(ops: seq<Operation>, op: Operation)
    requires op in MatchUpTo(ops, |ops|).moves
    ensures exists j :: 0 <= j < |ops| && ops[j].kind.Add? && Names(op, ops[j])
  {
    hide MatchUpTo, Dropped, Renamed, Reported, Exhausted, Balanced, Names;
    var m := MatchUpTo(ops, |ops|);
    MatchingFacts(ops, |ops|, []);
    var k :| 0 <= k < |m.moves| && m.moves[k] == op;
    var j := MoveOrigin(ops, |ops|, m, k);
  }

  lemma ClassifiedDistinct(ops: seq<Operation>)
    requires DistinctEntities(ops)
    ensures DistinctEntities(Classify(ops))
  {
    var m := MatchUpTo(ops, |ops|);
    MatchingFacts(ops, |ops|, []);
    KeptDistinct(ops, m.dropped);
    MovesDistinct(ops, |ops|);
    var kept := Kept(ops, m.dropped);
    hide MatchUpTo, Kept, Dropped, Renamed, Reported, Exhausted, Balanced, Names, DistinctEntities;
    forall i, k | 0 <= i < |kept| && 0 <= k < |m.moves|
      ensures kept[i].entity != m.moves[k].entity
    {
      KeptExact(ops, m.dropped);
      assert kept[i] in kept;
      var p: nat :| p < |ops| && p !in m.dropped && ops[p] == kept[i];
      var j := MoveOrigin(ops, |ops|, m, k);
      NamesEntity(m.moves[k], ops[j]);
      EntitiesApart(ops, p, j);
    }
    DistinctConcat(kept, m.moves);
  }

  lemma DistinctConcat(x: seq<Operation>, y: seq<Operation>)
    requires DistinctEntities(x) && DistinctEntities(y)
    requires forall i, k :: 0 <= i < |x| && 0 <= k < |y| ==> x[i].entity != y[k].entity
    ensures DistinctEntities(x + y)
  {
  }

  predicate Touches(op: Operation) {
    op.kind.Remove? || ((op.kind.Add? || op.kind.Modify? || op.kind.Move?) && op.after.Some?)
  }

  function Classified(b: Snapshot, a: Snapshot, detectMoves: bool): seq<Operation> {
    if detectMoves then Classify(Changes(b, a)) else Changes(b, a)
  }

  /** Each entity is touched once, and only the contract change touches none. */
  lemma ClassifiedShape(b: Snapshot, a: Snapshot, detectMoves: bool)
    ensures DistinctEntities(Classified(b, a, detectMoves))
    ensures forall op :: op in Classified(b, a, detectMoves) ==> Touches(op)
  {
    hide Changes, Classify, IsChange;
    var ops := Changes(b, a);
    ChangesExact(b, a);
    if detectMoves {
      ClassifiedDistinct(ops);
    }
    forall op | op in Classified(b, a, detectMoves)
      ensures Touches(op)
    {
      if detectMoves {
        ClassifiedFrom(ops, op);
        if j :| 0 <= j < |ops| && ops[j].kind.Add? && Names(op, ops[j]) {
          assert ops[j] in ops;
          ChangeTouches(op, ops[j], Entities(b.nodes), Entities(a.nodes), a.evidenceRoots);
        }
      }
      if op in ops {
        ChangeTouches(op, op, Entities(b.nodes), Entities(a.nodes), a.evidenceRoots);
      }
    }
  }

  lemma ChangeTouches(op: Operation, change: Operation, earlier: Entries, later: Entries, evidence: seq<Fingerprint>)
    requires IsChange(change, earlier, later, evidence) && (op == change || (Names(op, change) && change.kind.Add?))
    ensures Touches(op)
  {
  }

  lemma BeforeIsStrict()
    ensures Transitive(Before) && Asymmetric(Before)
  {
    forall x, y, z | Before(x, y) && Before(y, z)
      ensures Before(x, z)
    {
      if TextLess(x.entity, y.entity) && TextLess(y.entity, z.entity) {
        TextLessTransitive(x.entity, y.entity, z.entity);
      }
    }
    forall x, y | Before(x, y)
      ensures !Before(y, x)
    {
      TextLessTotal(x.entity, y.entity);
    }
  }

  /** Before sorting, the operations are the touching ones and at most one contract change. */
  lemma NoTwoTie(b: Snapshot, a: Snapshot, detectMoves: bool)
    ensures NoTies(Unsorted(b, a, detectMoves), Before)
  {
    hide Changes, Classify, TextLess;
    var ops := Unsorted(b, a, detectMoves);
    var touching := Classified(b, a, detectMoves);
    ClassifiedShape(b, a, detectMoves);
    assert ops == touching + ContractChanges(b, a);
    forall i, j | 0 <= i < j < |ops|
      ensures Before(ops[i], ops[j]) || Before(ops[j], ops[i])
    {
      assert i < |touching|;
      assert ops[i] in touching;
      TextLessTotal(ops[i].entity, ops[j].entity);
      if j < |touching| {
        EntitiesApart(touching, i, j);
      }
    }
  }

  /** The operations come out strictly ordered by rank and entity. */
  lemma DiffIsOrdered(b: Snapshot, a: Snapshot, detectMoves: bool)
    ensures Increasing(Operations(b, a, detectMoves), Before)
  {
    hide Unsorted, Transitive, Asymmetric, Increasing, NoTies, Sort, Before;
    BeforeIsStrict();
    NoTwoTie(b, a, detectMoves);
    SortIncreasing(Unsorted(b, a, detectMoves), Before);
  }

  // ----- Applying the operations -----

  function ApplyOne(m: Entries, op: Operation): Entries {
    if !Touches(op) then m
    else if op.kind.Remove? then m - {op.entity}
    else m[op.entity := op.after.value]
  }

  function Apply(m: Entries, ops: seq<Operation>): Entries {
    if ops == [] then m else ApplyOne(Apply(m, ops[..|ops| - 1]), ops[|ops| - 1])
  }

  function At(m: Entries, id: Text): Option<Fingerprint> {
    if id in m then Some(m[id]) else None
  }

  function Outcome(op: Operation): Option<Fingerprint> {
    if op.kind.Remove? then None else op.after
  }

  ghost predicate TouchesOnce(ops: seq<Operation>) {
    forall i, j :: 0 <= i < j < |ops| && Touches(ops[i]) && Touches(ops[j]) ==> ops[i].entity != ops[j].entity
  }

  lemma {:induction false} ApplyUntouched(m: Entries, ops: seq<Operation>, id: Text)
    requires forall op :: op in ops && Touches(op) ==> op.entity != id
    ensures At(Apply(m, ops), id) == At(m, id)
  {
    if ops != [] {
      var init, last := ops[..|ops| - 1], ops[|ops| - 1];
      assert ops == init + [last];
      ApplyUntouched(m, init, id);
    }
  }

  /** When no entity is touched twice, a touched entity ends as its operation says. */
  lemma {:induction false} ApplyTouched(m: Entries, ops: seq<Operation>, k: nat)
    requires TouchesOnce(ops) && k < |ops| && Touches(ops[k])
    ensures At(Apply(m, ops), ops[k].entity) == Outcome(ops[k])
  {
    var init, last := ops[..|ops| - 1], ops[|ops| - 1];
    if k < |init| {
      ApplyTouched(m, init, k);
      assert Touches(last) ==> last.entity != ops[k].entity;
    }
  }

  /** A removed and an added entity with the same digest. */
  ghost predicate SharesDigest(earlier: Entries, later: Entries) {
    exists x, y ::
      x in earlier && x !in later && y in later && y !in earlier && earlier[x] == later[y]
  }

  lemma SortedMembers(b: Snapshot, a: Snapshot, detectMoves: bool, op: Operation)
    ensures op in Operations(b, a, detectMoves) <==> op in Unsorted(b, a, detectMoves)
  {
    hide Unsorted, Sort;
    var ops := Unsorted(b, a, detectMoves);
    SortPermutes(ops, Before);
    assert op in ops <==> op in multiset(ops);
    assert op in Sort(ops, Before) <==> op in multiset(Sort(ops, Before));
  }

  lemma UnsortedMembers(b: Snapshot, a: Snapshot, detectMoves: bool, op: Operation)
    requires op.kind != ContractChange
    ensures op in Unsorted(b, a, detectMoves) <==> op in Classified(b, a, detectMoves)
  {
    hide Changes, Classify;
  }

  lemma DiffTouchesOnce(b: Snapshot, a: Snapshot, detectMoves: bool)
    ensures TouchesOnce(Operations(b, a, detectMoves))
  {
    var ops, touching := Operations(b, a, detectMoves), Classified(b, a, detectMoves);
    DiffIsOrdered(b, a, detectMoves);
    BeforeIsStrict();
    ClassifiedShape(b, a, detectMoves);
    hide Operations, Classified, Before, Transitive, DistinctEntities;
    forall i, j | 0 <= i < j < |ops| && Touches(ops[i]) && Touches(ops[j])
      ensures ops[i].entity != ops[j].entity
    {
      assert Before(ops[i], ops[j]) && ops[i] != ops[j];
      SortedMembers(b, a, detectMoves, ops[i]);
      SortedMembers(b, a, detectMoves, ops[j]);
      UnsortedMembers(b, a, detectMoves, ops[i]);
      UnsortedMembers(b, a, detectMoves, ops[j]);
      var p :| 0 <= p < |touching| && touching[p] == ops[i];
      var q :| 0 <= q < |touching| && touching[q] == ops[j];
      EntitiesApart(touching, p, q);
    }
  }

  /** Where the diff lists an operation for an entity, the entity ends as it says. */
  lemma DiffAt(b: Snapshot, a: Snapshot, detectMoves: bool, m: Entries, op: Operation)
    requires op in Classified(b, a, detectMoves)
    ensures At(Apply(m, Operations(b, a, detectMoves)), op.entity) == Outcome(op)
  {
    hide Classified, Unsorted, Apply, TouchesOnce, Sort;
    ClassifiedShape(b, a, detectMoves);
    DiffTouchesOnce(b, a, detectMoves);
    UnsortedMembers(b, a, detectMoves, op);
    SortedMembers(b, a, detectMoves, op);
    var ops := Operations(b, a, detectMoves);
    var k :| 0 <= k < |ops| && ops[k] == op;
    ApplyTouched(m, ops, k);
  }

  /** Where it lists none, nothing happens. */
  lemma DiffSilent(b: Snapshot, a: Snapshot, detectMoves: bool, m: Entries, id: Text)
    requires forall op :: op in Classified(b, a, detectMoves) ==> op.entity != id
    ensures At(Apply(m, Operations(b, a, detectMoves)), id) == At(m, id)
  {
    hide Classified, Unsorted, Apply, Sort;
    var ops := Operations(b, a, detectMoves);
    forall op | op in ops && Touches(op)
      ensures op.entity != id
    {
      SortedMembers(b, a, detectMoves, op);
      UnsortedMembers(b, a, detectMoves, op);
    }
    ApplyUntouched(m, ops, id);
  }

  /** Without a move, applying the operations to the earlier map gives the later one. */
  lemma ChangesRebuild(b: Snapshot, a: Snapshot, detectMoves: bool)
    requires Classified(b, a, detectMoves) == Changes(b, a)
    ensures Apply(Entities(b.nodes), Operations(b, a, detectMoves)) == Entities(a.nodes)
  {
    hide Classified, Changes, Unsorted, Sort, Entities, Apply;
    var earlier, later := Entities(b.nodes), Entities(a.nodes);
    var rebuilt := Apply(earlier, Operations(b, a, detectMoves));
    ChangesExact(b, a);
    forall id
      ensures At(rebuilt, id) == At(later, id)
    {
      if op :| op in Changes(b, a) && op.entity == id {
        DiffAt(b, a, detectMoves, earlier, op);
      } else {
        DiffSilent(b, a, detectMoves, earlier, id);
        SilentIsSame(earlier, later, id, a.evidenceRoots);
      }
    }
    assert forall id :: At(rebuilt, id) == At(later, id);
    SameEverywhere(rebuilt, later);
  }

  lemma SameEverywhere(x: Entries, y: Entries)
    requires forall id :: At(x, id) == At(y, id)
    ensures x == y
  {
    forall id
      ensures id in x <==> id in y
      ensures id in x ==> x[id] == y[id]
    {
      assert At(x, id) == At(y, id);
    }
  }

  lemma SilentIsSame(earlier: Entries, later: Entries, id: Text, evidence: seq<Fingerprint>)
    requires forall op :: IsChange(op, earlier, later, evidence) ==> op.entity != id
    ensures At(earlier, id) == At(later, id)
  {
    if id in earlier && id !in later {
      assert IsChange(Operation(Remove, id, Some(earlier[id]), None, Unknown, evidence), earlier, later, evidence);
    } else if id !in earlier && id in later {
      assert IsChange(Operation(Add, id, None, Some(later[id]), Unknown, evidence), earlier, later, evidence);
    } else if id in earlier && earlier[id] != later[id] {
      assert IsChange(Operation(Modify, id, Some(earlier[id]), Some(later[id]), Unknown, evidence), earlier, later, evidence);
    }
  }

  /** Moves are reported exactly when a removed and an added entity share a digest. */
  lemma MovesWhenShared(b: Snapshot, a: Snapshot)
    ensures MatchUpTo(Changes(b, a), |Changes(b, a)|).moves != []
       <==> SharesDigest(Entities(b.nodes), Entities(a.nodes))
  {
    hide Changes, Entities, MatchUpTo, Renamed, Reported, Exhausted, Balanced, DistinctEntities;
    var ops := Changes(b, a);
    var m := MatchUpTo(ops, |ops|);
    var earlier, later := Entities(b.nodes), Entities(a.nodes);
    ChangesExact(b, a);
    MatchingFacts(ops, |ops|, []);
    hide Sound;
    if m.moves != [] {
      assert HasPair(ops, m) by {
        SoundPair(ops, m);
      }
      var i, j :| i in m.dropped && i !in m.used && j in m.used && i < |ops| && j < |ops| && Shares(ops[i], ops[j]);
      assert ops[i] in ops && ops[j] in ops;
      assert earlier[ops[i].entity] == later[ops[j].entity];
    }
    if SharesDigest(earlier, later) {
      var x, y :| x in earlier && x !in later && y in later && y !in earlier && earlier[x] == later[y];
      var removal := Operation(Remove, x, Some(earlier[x]), None, Unknown, a.evidenceRoots);
      var addition := Operation(Add, y, None, Some(later[y]), Unknown, a.evidenceRoots);
      assert removal in ops && addition in ops;
      var i :| 0 <= i < |ops| && ops[i] == removal;
      var j :| 0 <= j < |ops| && ops[j] == addition;
      PairMeansMove(ops, m, i, j);
    }
  }

  lemma SoundPair(ops: seq<Operation>, m: Matching)
    requires Sound(ops, |ops|, m) && m.moves != []
    ensures HasPair(ops, m)
  {
    hide HasPair, Renamed, Reported, Exhausted;
  }

  lemma PairMeansMove(ops: seq<Operation>, m: Matching, i: nat, j: nat)
    requires Sound(ops, |ops|, m) && i < |ops| && j < |ops| && Shares(ops[i], ops[j])
    ensures m.moves != []
  {
    hide Renamed, Reported, HasPair, Shares;
    if m.dropped == {} {
      Unpaired(ops, m, i, j);
    }
  }

  /** A dropped removal leaves its entity untouched. */
  lemma MoveForgets(b: Snapshot, a: Snapshot) returns (id: Text)
    requires MatchUpTo(Changes(b, a), |Changes(b, a)|).moves != []
    ensures id in Entities(b.nodes) && id !in Entities(a.nodes)
    ensures forall op :: op in Classified(b, a, true) ==> op.entity != id
  {
    hide Changes, Entities, MatchUpTo, Renamed, Reported, Balanced, Exhausted, Kept, Names;
    var ops := Changes(b, a);
    var m := MatchUpTo(ops, |ops|);
    ChangesExact(b, a);
    MatchingFacts(ops, |ops|, []);
    var i, j :| i in m.dropped && i !in m.used && j in m.used && i < |ops| && j < |ops| && Shares(ops[i], ops[j]);
    id := ops[i].entity;
    assert ops[i] in ops;
    hide Dropped, HasPair, DistinctEntities, Shares, IsChange;
    forall op | op in Classified(b, a, true)
      ensures op.entity != id
    {
      if op in m.moves {
        var k :| 0 <= k < |m.moves| && m.moves[k] == op;
        var p := MoveOrigin(ops, |ops|, m, k);
        NamesEntity(op, ops[p]);
        EntitiesApart(ops, p, i);
      } else {
        KeptExact(ops, m.dropped);
        var p: nat :| p < |ops| && p !in m.dropped && ops[p] == op;
        EntitiesApart(ops, p, i);
      }
    }
  }

  /** The operations rebuild the later map from the earlier one exactly when moves are off or
      no removed and added entities share a digest: a move does not say where it came from. */
  lemma DiffRebuilds(b: Snapshot, a: Snapshot, detectMoves: bool)
    ensures Apply(Entities(b.nodes), Operations(b, a, detectMoves)) == Entities(a.nodes)
       <==> !detectMoves || !SharesDigest(Entities(b.nodes), Entities(a.nodes))
  {
    hide Changes, Unsorted, Sort, Entities, Apply, SharesDigest, MatchUpTo, Kept;
    MovesWhenShared(b, a);
    if !detectMoves || !SharesDigest(Entities(b.nodes), Entities(a.nodes)) {
      ChangesRebuild(b, a, detectMoves);
    } else {
      var id := MoveForgets(b, a);
      DiffSilent(b, a, true, Entities(b.nodes), id);
    }
  }

  /** Why no reader could do better: two different later snapshots with the same diff. */
  lemma MovesLoseTheirOrigin(d: Fingerprint) returns (b: Snapshot, stays: Snapshot, goes: Snapshot)
    ensures b.sealed && stays.sealed && goes.sealed && Entities(stays.nodes) != Entities(goes.nodes)
    ensures Operations(b, stays, true) == Operations(b, goes, true)
  {
    var x, y, z := Node([1], d), Node([2], d), Node([3], d);
    b := Snapshot([x, y], [], [], true);
    stays := Snapshot([x, z], [], [], true);
    goes := Snapshot([y, z], [], [], true);
    var addition := Operation(Add, [3], None, Some(d), Unknown, []);
    var lostX := Operation(Remove, [1], Some(d), None, Unknown, []);
    var lostY := Operation(Remove, [2], Some(d), None, Unknown, []);
    PairIndex(x, z);
    PairIndex(y, z);
    assert [1] in Entities(stays.nodes) && [1] !in Entities(goes.nodes);
    hide Sort, Classify, Changes, Entities, TextLess, Index;
    PairChanges(b, x, y, stays, x, z);
    PairChanges(b, x, y, goes, y, z);
    assert Changes(b, stays) == [lostY, addition] && Changes(b, goes) == [lostX, addition];
    PairMove(lostY, addition, d);
    PairMove(lostX, addition, d);
    assert MoveOf(lostX, addition) == MoveOf(lostY, addition);
  }

  function PairLookup(x: Node, y: Node, id: Text): Option<Fingerprint> {
    if x.id == id then Some(x.digest) else if y.id == id then Some(y.digest) else None
  }

  lemma PairIndex(x: Node, y: Node)
    requires x.id != [] && y.id != [] && x.id[0] < y.id[0]
    ensures Index([x, y]) == [x, y]
    ensures Entities([x, y]) == map[x.id := x.digest, y.id := y.digest]
    ensures forall id :: Lookup([x, y], id) == PairLookup(x, y, id)
  {
    assert [x, y][..1] == [x] && [x][..0] == [] && [x, y][1..] == [y] && [y][1..] == [];
    assert Entities([]) == map[] && Index([]) == [];
    assert Entities([x]) == map[x.id := x.digest];
    assert Index([x]) == [x];
    assert Put([x], y) == [x] + Put([], y) == [x, y] by {
      assert [x][1..] == [];
    }
    forall id
      ensures Lookup([x, y], id) == PairLookup(x, y, id)
    {
      assert Lookup([y], id) == if y.id == id then Some(y.digest) else None;
    }
  }

  lemma PairChanges(b: Snapshot, x: Node, y: Node, a: Snapshot, p: Node, q: Node)
    requires b.nodes == [x, y] && x.id != [] && y.id != [] && x.id[0] < y.id[0]
    requires a.nodes == [p, q] && p.id != [] && q.id != [] && p.id[0] < q.id[0] && a.evidenceRoots == []
    ensures Changes(b, a) == Departure(x, PairLookup(p, q, x.id), []) + Departure(y, PairLookup(p, q, y.id), [])
                             + (Arrival(p, PairLookup(x, y, p.id), []) + Arrival(q, PairLookup(x, y, q.id), []))
  {
    PairIndex(x, y);
    PairIndex(p, q);
    hide Lookup, PairLookup, Departure, Arrival, Index, Entities;
    assert [x, y][..1] == [x] && [x][..0] == [] && [p, q][..1] == [p] && [p][..0] == [];
    assert Departures([x], [p, q], []) == Departure(x, Lookup([p, q], x.id), []);
    assert Arrivals([p], [x, y], []) == Arrival(p, Lookup([x, y], p.id), []);
  }

  lemma PairMove(gone: Operation, come: Operation, d: Fingerprint)
    requires gone.kind.Remove? && gone.before == Some(d) && come.kind.Add? && come.after == Some(d)
    ensures Classify([gone, come]) == [MoveOf(gone, come)]
  {
    var ops := [gone, come];
    assert FindAdd(ops, d, {}, 0) == FindAdd(ops, d, {}, 1) == Some(1);
    assert MatchUpTo(ops, 1) == Matching({1}, {0, 1}, [MoveOf(gone, come)]);
    assert MatchUpTo(ops, 2) == MatchUpTo(ops, 1);
    assert ops[..1] == [gone] && [gone][..0] == [];
    assert Kept(ops, {0, 1}) == Kept([gone], {0, 1}) == [];
  }

  // ----- How many moves -----

  function BearingIds(ops: seq<Operation>, kind: Kind, d: Fingerprint): set<Text> {
    set i | 0 <= i < |ops| && Bears(ops[i], kind, d) :: ops[i].entity
  }

  lemma BearingStep(init: seq<Operation>, last: Operation, kind: Kind, d: Fingerprint)
    ensures BearingIds(init + [last], kind, d)
         == BearingIds(init, kind, d) + if Bears(last, kind, d) then {last.entity} else {}
  {
    var ops := init + [last];
    forall id | id in BearingIds(init, kind, d)
      ensures id in BearingIds(ops, kind, d)
    {
      var i :| 0 <= i < |init| && Bears(init[i], kind, d) && init[i].entity == id;
      assert ops[i] == init[i];
    }
    assert ops[|init|] == last;
    assert Bears(last, kind, d) ==> last.entity in BearingIds(ops, kind, d);
  }

  lemma LastStandsApart(ops: seq<Operation>, kind: Kind, d: Fingerprint)
    requires DistinctEntities(ops) && ops != []
    ensures DistinctEntities(ops[..|ops| - 1])
    ensures ops[|ops| - 1].entity !in BearingIds(ops[..|ops| - 1], kind, d)
  {
  }

  lemma {:induction false} TallyIsCardinality(ops: seq<Operation>, kind: Kind, d: Fingerprint)
    requires DistinctEntities(ops)
    ensures Tally(ops, kind, d) == |BearingIds(ops, kind, d)|
  {
    hide BearingIds, Bears, DistinctEntities;
    if ops == [] {
      assert BearingIds(ops, kind, d) == {} by {
        NothingBears(kind, d);
      }
    } else {
      var init, last := ops[..|ops| - 1], ops[|ops| - 1];
      LastStandsApart(ops, kind, d);
      TallyIsCardinality(init, kind, d);
      BearingStep(init, last, kind, d);
      assert ops == init + [last];
    }
  }

  lemma NothingBears(kind: Kind, d: Fingerprint)
    ensures BearingIds([], kind, d) == {}
  {
  }

  lemma TallyWithout(y: seq<Operation>, k: nat, kind: Kind, d: Fingerprint)
    requires k < |y|
    ensures Tally(y, kind, d) == Tally(y[..k] + y[k + 1..], kind, d) + if Bears(y[k], kind, d) then 1 else 0
    ensures multiset(y[..k] + y[k + 1..]) == multiset(y) - multiset{y[k]}
  {
    hide Tally, Bears;
    assert y == y[..k] + [y[k]] + y[k + 1..];
    TallyConcat(y[..k], y[k + 1..], kind, d);
    TallyConcat(y[..k], [y[k]], kind, d);
    TallyConcat(y[..k] + [y[k]], y[k + 1..], kind, d);
    TallyOne(y[k], kind, d);
  }

  lemma {:induction false} TallyPermutes(x: seq<Operation>, y: seq<Operation>, kind: Kind, d: Fingerprint)
    requires multiset(x) == multiset(y)
    ensures Tally(x, kind, d) == Tally(y, kind, d)
  {
    hide Bears, Tally;
    if x == [] {
      assert |multiset(y)| == |y|;
    } else {
      var k := FindIn(x[0], y, x);
      TallyWithout(x, 0, kind, d);
      TallyWithout(y, k, kind, d);
      TallyPermutes(x[..0] + x[1..], y[..k] + y[k + 1..], kind, d);
    }
  }

  lemma FindIn(op: Operation, y: seq<Operation>, x: seq<Operation>) returns (k: nat)
    requires op in x && multiset(x) == multiset(y)
    ensures k < |y| && y[k] == op
  {
    assert op in multiset(y);
    k :| 0 <= k < |y| && y[k] == op;
  }

  /** The entities of one map that the other lacks, by digest. */
  function Missing(from: Entries, to: Entries, d: Fingerprint): set<Text> {
    set id | id in from && id !in to && from[id] == d
  }

  /** For every digest, as many moves as removed and added entities can be paired, and the
      rest of the longer side as removals or additions. */
  lemma DiffMovesMaximally(b: Snapshot, a: Snapshot, d: Fingerprint)
    ensures var ops := Operations(b, a, true);
            var removed := |Missing(Entities(b.nodes), Entities(a.nodes), d)|;
            var added := |Missing(Entities(a.nodes), Entities(b.nodes), d)|;
            && Tally(ops, Move, d) == Min(removed, added)
            && Tally(ops, Remove, d) == removed - Min(removed, added)
            && Tally(ops, Add, d) == added - Min(removed, added)
  {
    var changes := Changes(b, a);
    hide Changes, Classify, Sort, Tally, Entities;
    CountChanges(b, a, d);
    MovesMatchMaximally(changes, d);
    forall kind | kind in {Move, Remove, Add}
      ensures Tally(Operations(b, a, true), kind, d) == Tally(Classify(changes), kind, d)
    {
      SortPermutes(Unsorted(b, a, true), Before);
      TallyPermutes(Sort(Unsorted(b, a, true), Before), Unsorted(b, a, true), kind, d);
      TallyConcat(Classify(changes), ContractChanges(b, a), kind, d);
      TallyContracts(b, a, kind, d);
    }
  }

  lemma TallyContracts(b: Snapshot, a: Snapshot, kind: Kind, d: Fingerprint)
    requires kind != ContractChange
    ensures Tally(ContractChanges(b, a), kind, d) == 0
  {
    if b.contracts != a.contracts {
      TallyOne(ContractChanges(b, a)[0], kind, d);
    }
  }

  lemma CountChanges(b: Snapshot, a: Snapshot, d: Fingerprint)
    ensures Tally(Changes(b, a), Remove, d) == |Missing(Entities(b.nodes), Entities(a.nodes), d)|
    ensures Tally(Changes(b, a), Add, d) == |Missing(Entities(a.nodes), Entities(b.nodes), d)|
    ensures Tally(Changes(b, a), Move, d) == 0
  {
    hide Changes, Tally, Entities;
    var ops, earlier, later := Changes(b, a), Entities(b.nodes), Entities(a.nodes);
    ChangesExact(b, a);
    forall kind: Kind
      ensures Tally(ops, kind, d) == |BearingIds(ops, kind, d)|
    {
      TallyIsCardinality(ops, kind, d);
    }
    BearersExact(ops, earlier, later, a.evidenceRoots, d);
  }

  lemma BearersExact(ops: seq<Operation>, earlier: Entries, later: Entries, evidence: seq<Fingerprint>, d: Fingerprint)
    requires forall op :: op in ops <==> IsChange(op, earlier, later, evidence)
    ensures BearingIds(ops, Remove, d) == Missing(earlier, later, d)
    ensures BearingIds(ops, Add, d) == Missing(later, earlier, d)
    ensures BearingIds(ops, Move, d) == {}
  {
    forall id
      ensures id in BearingIds(ops, Remove, d) <==> id in Missing(earlier, later, d)
    {
      if id in BearingIds(ops, Remove, d) {
        var i :| 0 <= i < |ops| && Bears(ops[i], Remove, d) && ops[i].entity == id;
        assert ops[i] in ops;
      }
      if id in Missing(earlier, later, d) {
        var op := Operation(Remove, id, Some(d), None, Unknown, evidence);
        assert op in ops;
        var i :| 0 <= i < |ops| && ops[i] == op;
        assert Bears(ops[i], Remove, d);
      }
    }
    forall id
      ensures id in BearingIds(ops, Add, d) <==> id in Missing(later, earlier, d)
    {
      if id in BearingIds(ops, Add, d) {
        var i :| 0 <= i < |ops| && Bears(ops[i], Add, d) && ops[i].entity == id;
        assert ops[i] in ops;
      }
      if id in Missing(later, earlier, d) {
        var op := Operation(Add, id, None, Some(d), Unknown, evidence);
        assert op in ops;
        var i :| 0 <= i < |ops| && ops[i] == op;
        assert Bears(ops[i], Add, d);
      }
    }
    forall i | 0 <= i < |ops|
      ensures !Bears(ops[i], Move, d)
    {
      assert ops[i] in ops;
    }
  }
}
