/** What every single operation of a diff says about the two snapshots, and in which order they
    come, without the functions that list, rank and match them. */
module SemanticDiffContent {
  import opened Basics
  import opened Sorting
  import opened SemanticDiff
  import opened SemanticDiffProofs
  import opened SemanticDiffMeaning

  /** The kinds of operations as a diff lists them. */
  const KINDS := [Remove, Add, Modify, Move, Rebind, Split, Merge, ContractChange, Unclassified]

  /** One kind is listed before another. */
  ghost predicate KindsInOrder(x: Kind, y: Kind) {
    exists p, q :: 0 <= p < q < |KINDS| && KINDS[p] == x && KINDS[q] == y
  }

  /** By kind, and within one kind by the first byte in which the entities differ. */
  ghost predicate ListedBefore(x: Operation, y: Operation) {
    KindsInOrder(x.kind, y.kind) || (x.kind == y.kind && FirstDifference(x.entity, y.entity))
  }

  lemma BeforeMeans(x: Operation, y: Operation)
    ensures Before(x, y) ==> ListedBefore(x, y)
  {
    TextLessMeans(x.entity, y.entity);
    hide TextLess, FirstDifference;
    assert KINDS[Rank(x.kind)] == x.kind && KINDS[Rank(y.kind)] == y.kind;
  }

  lemma DiffOrder(b: Snapshot, a: Snapshot, detectMoves: bool, i: nat, j: nat)
    requires i < j < |Operations(b, a, detectMoves)|
    ensures ListedBefore(Operations(b, a, detectMoves)[i], Operations(b, a, detectMoves)[j])
  {
    hide Operations, Before, ListedBefore;
    DiffIsOrdered(b, a, detectMoves);
    BeforeIsStrict();
    IncreasingAt(Operations(b, a, detectMoves), i, j);
    BeforeMeans(Operations(b, a, detectMoves)[i], Operations(b, a, detectMoves)[j]);
  }

  lemma IncreasingAt(ops: seq<Operation>, i: nat, j: nat)
    requires Increasing(ops, Before) && i < j < |ops|
    ensures Before(ops[i], ops[j])
  {
  }

  /** A snapshot speaks of the ids its nodes have, and the last node of an id decides. */
  lemma {:induction false} EntitiesMean(nodes: seq<Node>, id: Text)
    ensures id in Entities(nodes) <==> exists k :: 0 <= k < |nodes| && nodes[k].id == id
    ensures forall k :: 0 <= k < |nodes| && nodes[k].id == id && (forall j :: k < j < |nodes| ==> nodes[j].id != id) ==>
              id in Entities(nodes) && Entities(nodes)[id] == nodes[k].digest
  {
    if nodes != [] {
      var init, last := nodes[..|nodes| - 1], nodes[|nodes| - 1];
      EntitiesMean(init, id);
      assert nodes == init + [last];
      if id in Entities(init) {
        var k :| 0 <= k < |init| && init[k].id == id;
        assert nodes[k].id == id;
      }
      if last.id == id {
        assert nodes[|nodes| - 1].id == id;
      }
    }
  }

  /** The digest an entity has, if the snapshot has it. */
  function Has(m: Entries, id: Text): Option<Fingerprint> {
    if id in m then Some(m[id]) else None
  }

  /** What an operation says of an entity, or of the contracts, of the two snapshots. */
  ghost predicate Says(op: Operation, b: Snapshot, a: Snapshot, detectMoves: bool) {
    var earlier, later := Has(Entities(b.nodes), op.entity), Has(Entities(a.nodes), op.entity);
    && op.evidence == a.evidenceRoots
    && match op.kind
       case Remove => earlier.Some? && later.None? && op.before == earlier && op.after.None? && op.compatibility.Unknown?
       case Add => earlier.None? && later.Some? && op.before.None? && op.after == later && op.compatibility.Unknown?
       case Modify =>
         && earlier.Some? && later.Some? && earlier != later
         && op.before == earlier && op.after == later && op.compatibility.Unknown?
       case Move => detectMoves && earlier.None? && later.Some? && op.before == op.after == later && op.compatibility.Backward?
       case ContractChange =>
         && b.contracts != a.contracts && op.compatibility.Unknown?
         && |op.entity| == 9 && (forall k :: 0 <= k < 9 ==> op.entity[k] == "contracts"[k] as int)
         && (if b.contracts == [] then op.before.None? else op.before == Some(b.contracts[0]))
         && (if a.contracts == [] then op.after.None? else op.after == Some(a.contracts[0]))
       case _ => false
  }

  lemma ChangeSays(op: Operation, b: Snapshot, a: Snapshot, detectMoves: bool)
    requires IsChange(op, Entities(b.nodes), Entities(a.nodes), a.evidenceRoots)
    ensures Says(op, b, a, detectMoves)
  {
  }

  lemma MoveSays(op: Operation, addition: Operation, b: Snapshot, a: Snapshot)
    requires Names(op, addition) && addition.kind.Add?
    requires IsChange(addition, Entities(b.nodes), Entities(a.nodes), a.evidenceRoots)
    ensures Says(op, b, a, true)
  {
  }

  lemma ContractChangeSays(b: Snapshot, a: Snapshot, detectMoves: bool)
    ensures forall op :: op in ContractChanges(b, a) ==> Says(op, b, a, detectMoves)
    ensures b.contracts != a.contracts <==> exists op :: op in ContractChanges(b, a)
  {
    if b.contracts != a.contracts {
      assert ContractChanges(b, a)[0] in ContractChanges(b, a);
      assert "contracts" == ['c', 'o', 'n', 't', 'r', 'a', 'c', 't', 's'];
    }
  }

  /** Every operation of a diff says what is so, of its entity or of the contracts. */
  lemma DiffSays(b: Snapshot, a: Snapshot, detectMoves: bool, op: Operation)
    requires op in Operations(b, a, detectMoves)
    ensures Says(op, b, a, detectMoves)
  {
    hide Changes, Classify, Says, IsChange, Names, ContractChanges, Operations, Entities;
    var ops := Changes(b, a);
    assert op in Unsorted(b, a, detectMoves) by {
      SortedMembers(b, a, detectMoves, op);
    }
    ContractChangeSays(b, a, detectMoves);
    ChangesExact(b, a);
    if op !in ContractChanges(b, a) {
      if detectMoves {
        ClassifiedFrom(ops, op);
      }
      if op in ops {
        ChangeSays(op, b, a, detectMoves);
      } else {
        var j :| 0 <= j < |ops| && ops[j].kind.Add? && Names(op, ops[j]);
        assert ops[j] in ops;
        MoveSays(op, ops[j], b, a);
      }
    }
  }

  /** And a change of the contracts never goes unsaid. */
  lemma ContractChangeListed(b: Snapshot, a: Snapshot, detectMoves: bool)
    ensures b.contracts != a.contracts <==> exists op :: op in Operations(b, a, detectMoves) && op.kind.ContractChange?
  {
    hide Changes, Classify, Says, Operations, Entities;
    ContractChangeSays(b, a, detectMoves);
    if op :| op in ContractChanges(b, a) {
      SortedMembers(b, a, detectMoves, op);
      assert op in Operations(b, a, detectMoves) && op.kind.ContractChange?;
    }
    if op :| op in Operations(b, a, detectMoves) && op.kind.ContractChange? {
      DiffSays(b, a, detectMoves, op);
      assert b.contracts != a.contracts by {
        SaidContracts(op, b, a, detectMoves);
      }
    }
  }

  lemma SaidContracts(op: Operation, b: Snapshot, a: Snapshot, detectMoves: bool)
    requires Says(op, b, a, detectMoves) && op.kind.ContractChange?
    ensures b.contracts != a.contracts
  {
  }
}
