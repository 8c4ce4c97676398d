/** Deterministic diffs of semantic snapshots (`CanonicalDiffer::diff` and `classify_moves` in
    crates/anasemble-semantic/src/lib.rs): what the operations are, and in which order. */
module SemanticDiff {
  import opened Basics
  import opened Sorting

  type Fingerprint = Text

  datatype Node = Node(id: Text, digest: Fingerprint)

  /** `sealed` stands for a digest that can be recomputed and equals the recorded one. */
  datatype Snapshot = Snapshot(
    nodes: seq<Node>,
    contracts: seq<Fingerprint>,
    evidenceRoots: seq<Fingerprint>,
    sealed: bool
  )

  datatype Kind = Remove | Add | Modify | Move | Rebind | Split | Merge | ContractChange | Unclassified

  datatype Compatibility = Backward | Unknown

  datatype Operation = Operation(
    kind: Kind,
    entity: Text,
    before: Option<Fingerprint>,
    after: Option<Fingerprint>,
    compatibility: Compatibility,
    evidence: seq<Fingerprint>
  )

  datatype Refusal = SnapshotDigestMismatch | FrameBound

  // ----- The ordered index of a snapshot's nodes -----

  /** Places a node in a table ordered by id, over any node of the same id. */
  function Put(table: seq<Node>, n: Node): seq<Node> {
    if table == [] then [n]
    else if TextLess(n.id, table[0].id) then [n] + table
    else if n.id == table[0].id then [n] + table[1..]
    else [table[0]] + Put(table[1..], n)
  }

  function Index(nodes: seq<Node>): seq<Node> {
    if nodes == [] then [] else Put(Index(nodes[..|nodes| - 1]), nodes[|nodes| - 1])
  }

  function Lookup(table: seq<Node>, id: Text): Option<Fingerprint> {
    if table == [] then None
    else if table[0].id == id then Some(table[0].digest)
    else Lookup(table[1..], id)
  }

  ghost predicate Ordered(table: seq<Node>) {
    forall i, j :: 0 <= i < j < |table| ==> TextLess(table[i].id, table[j].id)
  }

  /** What a snapshot says of its entities: the last node of an id counts. */
  function Entities(nodes: seq<Node>): map<Text, Fingerprint> {
    if nodes == [] then map[]
    else Entities(nodes[..|nodes| - 1])[nodes[|nodes| - 1].id := nodes[|nodes| - 1].digest]
  }

  lemma {:induction false} PutFacts(table: seq<Node>, n: Node)
    requires Ordered(table)
    ensures Ordered(Put(table, n))
    ensures forall x :: x in Put(table, n) ==> x == n || x in table
    ensures forall id :: Lookup(Put(table, n), id) == if id == n.id then Some(n.digest) else Lookup(table, id)
  {
    if table != [] && n.id != table[0].id && !TextLess(n.id, table[0].id) {
      var rest := Put(table[1..], n);
      PutFacts(table[1..], n);
      TextLessTotal(n.id, table[0].id);
      assert forall k :: 0 <= k < |rest| ==> rest[k] in rest;
    } else if table != [] && n.id != table[0].id {
      forall j | 0 <= j < |table|
        ensures TextLess(n.id, table[j].id)
      {
        if j > 0 {
          TextLessTransitive(n.id, table[0].id, table[j].id);
        }
      }
    }
  }

  lemma {:induction false} IndexFacts(nodes: seq<Node>)
    ensures Ordered(Index(nodes))
    ensures forall id :: Lookup(Index(nodes), id).Some? <==> id in Entities(nodes)
    ensures forall id :: id in Entities(nodes) ==> Lookup(Index(nodes), id).value == Entities(nodes)[id]
  {
    if nodes != [] {
      IndexFacts(nodes[..|nodes| - 1]);
      PutFacts(Index(nodes[..|nodes| - 1]), nodes[|nodes| - 1]);
    }
  }

  lemma {:induction false} LookupOrdered(table: seq<Node>, id: Text)
    requires Ordered(table)
    ensures forall k :: 0 <= k < |table| && table[k].id == id ==> Lookup(table, id) == Some(table[k].digest)
    ensures Lookup(table, id).Some? ==> exists k :: 0 <= k < |table| && table[k] == Node(id, Lookup(table, id).value)
  {
    if table != [] {
      LookupOrdered(table[1..], id);
      forall k | 0 <= k < |table| && table[k].id == id
        ensures Lookup(table, id) == Some(table[k].digest)
      {
        if k > 0 {
          TextLessTotal(table[0].id, table[k].id);
          assert table[1..][k - 1] == table[k];
        }
      }
      if table[0].id != id && Lookup(table, id).Some? {
        var k :| 0 <= k < |table[1..]| && table[1..][k] == Node(id, Lookup(table, id).value);
        assert table[k + 1] == table[1..][k];
      } else if Lookup(table, id).Some? {
        assert table[0] == Node(id, Lookup(table, id).value);
      }
    }
  }

  // ----- The operations before moves are classified -----

  /** Removal or modification of one node of the earlier snapshot. */
  function Departure(n: Node, found: Option<Fingerprint>, evidence: seq<Fingerprint>): seq<Operation> {
    match found
    case None => [Operation(Remove, n.id, Some(n.digest), None, Unknown, evidence)]
    case Some(next) =>
      if next != n.digest then [Operation(Modify, n.id, Some(n.digest), Some(next), Unknown, evidence)] else []
  }

  function Departures(earlier: seq<Node>, later: seq<Node>, evidence: seq<Fingerprint>): seq<Operation> {
    if earlier == [] then []
    else
      var n := earlier[|earlier| - 1];
      Departures(earlier[..|earlier| - 1], later, evidence) + Departure(n, Lookup(later, n.id), evidence)
  }

  function Arrival(n: Node, found: Option<Fingerprint>, evidence: seq<Fingerprint>): seq<Operation> {
    if found.None? then [Operation(Add, n.id, None, Some(n.digest), Unknown, evidence)] else []
  }

  function Arrivals(later: seq<Node>, earlier: seq<Node>, evidence: seq<Fingerprint>): seq<Operation> {
    if later == [] then []
    else
      var n := later[|later| - 1];
      Arrivals(later[..|later| - 1], earlier, evidence) + Arrival(n, Lookup(earlier, n.id), evidence)
  }

  function Changes(b: Snapshot, a: Snapshot): seq<Operation> {
    var earlier, later := Index(b.nodes), Index(a.nodes);
    Departures(earlier, later, a.evidenceRoots) + Arrivals(later, earlier, a.evidenceRoots)
  }

  // ----- Move classification -----

  /** The loop's state after some prefix of the operations. */
  datatype Matching = Matching(used: set<nat>, dropped: set<nat>, moves: seq<Operation>)

  /** The first unused addition of a digest, at or after a position. */
  function FindAdd(ops: seq<Operation>, d: Fingerprint, used: set<nat>, from: nat): (r: Option<nat>)
    requires from <= |ops|
    ensures r.Some? ==> from <= r.value < |ops| && ops[r.value].kind.Add? && ops[r.value].after == Some(d) && r.value !in used
    ensures forall j: nat :: from <= j < (if r.Some? then r.value else |ops|) && ops[j].kind.Add? && ops[j].after == Some(d) ==> j in used
    decreases |ops| - from
  {
    if from == |ops| then None
    else if ops[from].kind.Add? && ops[from].after == Some(d) && from !in used then Some(from)
    else FindAdd(ops, d, used, from + 1)
  }

  function MoveOf(removal: Operation, addition: Operation): Operation {
    Operation(Move, addition.entity, removal.before, addition.after, Backward, addition.evidence)
  }

  function MatchOne(ops: seq<Operation>, i: nat, m: Matching): Matching
    requires i < |ops|
  {
    if !ops[i].kind.Remove? || ops[i].before.None? then m
    else
      match FindAdd(ops, ops[i].before.value, m.used, 0)
      case None => m
      case Some(j) => Matching(m.used + {j}, m.dropped + {i, j}, m.moves + [MoveOf(ops[i], ops[j])])
  }

  function MatchUpTo(ops: seq<Operation>, n: nat): Matching
    requires n <= |ops|
  {
    if n == 0 then Matching({}, {}, []) else MatchOne(ops, n - 1, MatchUpTo(ops, n - 1))
  }

  function Kept(ops: seq<Operation>, dropped: set<nat>): seq<Operation> {
    if ops == [] then []
    else
      Kept(ops[..|ops| - 1], dropped) + if |ops| - 1 in dropped then [] else [ops[|ops| - 1]]
  }

  function Classify(ops: seq<Operation>): seq<Operation> {
    var m := MatchUpTo(ops, |ops|);
    if m.moves == [] then ops else Kept(ops, m.dropped) + m.moves
  }

  // ----- The diff -----

  function Rank(k: Kind): nat {
    match k
    case Remove => 0
    case Add => 1
    case Modify => 2
    case Move => 3
    case Rebind => 4
    case Split => 5
    case Merge => 6
    case ContractChange => 7
    case Unclassified => 8
  }

  predicate Before(x: Operation, y: Operation) {
    Rank(x.kind) < Rank(y.kind) || (Rank(x.kind) == Rank(y.kind) && TextLess(x.entity, y.entity))
  }

  /** The UTF-8 bytes of "contracts". */
  const CONTRACTS: Text := [0x63, 0x6f, 0x6e, 0x74, 0x72, 0x61, 0x63, 0x74, 0x73]

  function First(s: seq<Fingerprint>): Option<Fingerprint> {
    if s == [] then None else Some(s[0])
  }

  function ContractChanges(b: Snapshot, a: Snapshot): seq<Operation> {
    if b.contracts == a.contracts then []
    else [Operation(ContractChange, CONTRACTS, First(b.contracts), First(a.contracts), Unknown, a.evidenceRoots)]
  }

  function Unsorted(b: Snapshot, a: Snapshot, detectMoves: bool): seq<Operation> {
    (if detectMoves then Classify(Changes(b, a)) else Changes(b, a)) + ContractChanges(b, a)
  }

  /** The operations of a diff, by rank and entity. */
  function Operations(b: Snapshot, a: Snapshot, detectMoves: bool): seq<Operation> {
    Sort(Unsorted(b, a, detectMoves), Before)
  }

  /** `fits` says whether the canonical bytes of a diff with these operations fit a frame: its
      other parts, a version number and two digests, have one size. */
  function Difference(b: Snapshot, a: Snapshot, detectMoves: bool, fits: seq<Operation> -> bool)
    : Result<seq<Operation>, Refusal>
  {
    if !b.sealed || !a.sealed then Err(SnapshotDigestMismatch)
    else if !fits(Operations(b, a, detectMoves)) then Err(FrameBound)
    else Ok(Operations(b, a, detectMoves))
  }

  method BuildIndex(nodes: seq<Node>) returns (table: seq<Node>)
    ensures table == Index(nodes)
  {
    table := [];
    for k := 0 to |nodes|
      invariant table == Index(nodes[..k])
    {
      assert nodes[..k + 1][..k] == nodes[..k];
      table := Put(table, nodes[k]);
    }
    assert nodes[..|nodes|] == nodes;
  }

  method ClassifyMoves(ops: seq<Operation>) returns (classified: seq<Operation>)
    ensures classified == Classify(ops)
  {
    var used: set<nat>, dropped: set<nat>, moves: seq<Operation> := {}, {}, [];
    for i := 0 to |ops|
      invariant Matching(used, dropped, moves) == MatchUpTo(ops, i)
    {
      if ops[i].kind.Remove? && ops[i].before.Some? {
        var found := FindAdd(ops, ops[i].before.value, used, 0);
        if found.Some? {
          used := used + {found.value};
          dropped := dropped + {i, found.value};
          moves := moves + [MoveOf(ops[i], ops[found.value])];
        }
      }
    }
    if moves == [] {
      return ops;
    }
    classified := [];
    for i := 0 to |ops|
      invariant classified == Kept(ops[..i], dropped)
    {
      assert ops[..i + 1][..i] == ops[..i];
      if i !in dropped {
        classified := classified + [ops[i]];
      }
    }
    assert ops[..|ops|] == ops;
    classified := classified + moves;
  }

  method ListChanges(b: Snapshot, a: Snapshot) returns (operations: seq<Operation>)
    ensures operations == Changes(b, a)
  {
    hide Put, Lookup, TextLess, Index;
    var earlier := BuildIndex(b.nodes);
    var later := BuildIndex(a.nodes);
    operations := [];
    for k := 0 to |earlier|
      invariant operations == Departures(earlier[..k], later, a.evidenceRoots)
    {
      assert earlier[..k + 1][..k] == earlier[..k];
      operations := operations + Departure(earlier[k], Lookup(later, earlier[k].id), a.evidenceRoots);
    }
    assert earlier[..|earlier|] == earlier;
    ghost var departures := operations;
    for k := 0 to |later|
      invariant operations == departures + Arrivals(later[..k], earlier, a.evidenceRoots)
    {
      assert later[..k + 1][..k] == later[..k];
      operations := operations + Arrival(later[k], Lookup(earlier, later[k].id), a.evidenceRoots);
    }
    assert later[..|later|] == later;
  }

  method Diff(b: Snapshot, a: Snapshot, detectMoves: bool, fits: seq<Operation> -> bool)
    returns (r: Result<seq<Operation>, Refusal>)
    ensures r == Difference(b, a, detectMoves, fits)
  {
    hide Changes, Classify, Sort;
    if !b.sealed || !a.sealed {
      return Err(SnapshotDigestMismatch);
    }
    var operations := ListChanges(b, a);
    if detectMoves {
      operations := ClassifyMoves(operations);
    }
    if b.contracts != a.contracts {
      var change := Operation(ContractChange, CONTRACTS, First(b.contracts), First(a.contracts), Unknown, a.evidenceRoots);
      operations := operations + [change];
    } else {
      assert operations == operations + ContractChanges(b, a);
    }
    operations := Sort(operations, Before);
    return if fits(operations) then Ok(operations) else Err(FrameBound);
  }
}
