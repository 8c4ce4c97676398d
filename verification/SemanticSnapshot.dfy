/** Canonical snapshots of a labelled graph (`GraphSnapshotter::snapshot` in
    crates/anasemble-semantic/src/lib.rs), and what diffing two of them says. */
module SemanticSnapshot {
  import opened Basics
  import opened Sorting
  import opened SemanticDiff
  import opened SemanticDiffProofs
  import opened SemanticDiffMeaning

  const MAX_BOUNDED_TEXT: nat := 256

  datatype Member = Member(id: Text, kind: Text, digest: Fingerprint)

  datatype Edge = Edge(from: Text, to: Text, kind: Text)

  /** `nodes` lists an ordered map; the other lists come as the caller filled them. */
  datatype Graph = Graph(
    nodes: seq<Member>,
    edges: seq<Edge>,
    contracts: seq<Fingerprint>,
    evidenceRoots: seq<Fingerprint>,
    unknowns: seq<Text>,
    contradictions: seq<Text>
  )

  datatype Limits = Limits(maxNodes: nat, maxEdges: nat, maxDepth: nat, maxBytes: nat)

  datatype SnapshotError = IncompleteCut | BudgetExhausted | TextBound | FrameBound

  predicate Bounded(t: Text) {
    1 <= |t| <= MAX_BOUNDED_TEXT
  }

  /** A count the source narrows to 32 bits, capping it. */
  function Count32(n: nat): nat {
    if n < U32_LIMIT then n else U32_LIMIT - 1
  }

  predicate Exceeds(l: Limits, nodes: nat, edges: nat) {
    nodes > l.maxNodes || edges > l.maxEdges || 1 > l.maxDepth || 1 > l.maxBytes
  }

  predicate TextsBounded(g: Graph) {
    && (forall n :: n in g.nodes ==> Bounded(n.id) && Bounded(n.kind))
    && (forall e :: e in g.edges ==> Bounded(e.from) && Bounded(e.to) && Bounded(e.kind))
    && (forall t :: t in g.unknowns ==> Bounded(t))
    && (forall t :: t in g.contradictions ==> Bounded(t))
  }

  predicate MemberBefore(x: Member, y: Member) {
    TextLess(x.id, y.id)
  }

  predicate EdgeBefore(x: Edge, y: Edge) {
    || TextLess(x.from, y.from)
    || (x.from == y.from && (TextLess(x.to, y.to) || (x.to == y.to && TextLess(x.kind, y.kind))))
  }

  /** Contracts and roots are sorted by lower-case hexadecimal, which orders them as their
      bytes do. */
  function Canonical(g: Graph): Graph {
    Graph(Sort(g.nodes, MemberBefore), Sort(g.edges, EdgeBefore), Sort(g.contracts, TextLess),
          Sort(g.evidenceRoots, TextLess), Sort(g.unknowns, TextLess), Sort(g.contradictions, TextLess))
  }

  /** A temporal cut, a budget, and whether the canonical bytes of a snapshot of a graph at that
      cut fit a frame. */
  datatype Setting = Setting(cutComplete: bool, limits: Limits, fits: Graph -> bool)

  function Take(g: Graph, t: Setting): Result<Graph, SnapshotError> {
    if !t.cutComplete then Err(IncompleteCut)
    else if Exceeds(t.limits, Count32(|g.nodes|), Count32(|g.edges|)) then Err(BudgetExhausted)
    else if !TextsBounded(g) then Err(TextBound)
    else if !t.fits(Canonical(g)) then Err(SnapshotError.FrameBound)
    else Ok(Canonical(g))
  }

  /** The same graph, its lists in any order. */
  ghost predicate Rearranged(g: Graph, h: Graph) {
    && g.nodes == h.nodes
    && multiset(g.edges) == multiset(h.edges)
    && multiset(g.contracts) == multiset(h.contracts)
    && multiset(g.evidenceRoots) == multiset(h.evidenceRoots)
    && multiset(g.unknowns) == multiset(h.unknowns)
    && multiset(g.contradictions) == multiset(h.contradictions)
  }

  lemma TextsAreOrdered()
    ensures TotalOrder(TextLess)
  {
    forall x: Text, y: Text, z: Text | TextLess(x, y) && TextLess(y, z)
      ensures TextLess(x, z)
    {
      TextLessTransitive(x, y, z);
    }
    forall x: Text, y: Text
      ensures TextLess(x, y) || x == y || TextLess(y, x)
      ensures TextLess(x, y) ==> !TextLess(y, x)
    {
      TextLessTotal(x, y);
    }
  }

  lemma EdgesAreOrdered()
    ensures TotalOrder(EdgeBefore)
  {
    hide TextLess;
    TextsAreOrdered();
    hide TotalOrder;
    forall x, y, z | EdgeBefore(x, y) && EdgeBefore(y, z)
      ensures EdgeBefore(x, z)
    {
      EdgeTransitive(x, y, z);
    }
    forall x, y
      ensures EdgeBefore(x, y) || x == y || EdgeBefore(y, x)
      ensures EdgeBefore(x, y) ==> !EdgeBefore(y, x)
    {
      TextLessTotal(x.from, y.from);
      TextLessTotal(x.to, y.to);
      TextLessTotal(x.kind, y.kind);
    }
    EdgeOrder();
  }

  lemma EdgeTransitive(x: Edge, y: Edge, z: Edge)
    requires EdgeBefore(x, y) && EdgeBefore(y, z)
    ensures EdgeBefore(x, z)
  {
    hide TextLess;
    if TextLess(x.from, y.from) && TextLess(y.from, z.from) {
      TextLessTransitive(x.from, y.from, z.from);
    } else if x.from == y.from == z.from && TextLess(x.to, y.to) && TextLess(y.to, z.to) {
      TextLessTransitive(x.to, y.to, z.to);
    } else if x.from == y.from == z.from && x.to == y.to == z.to {
      TextLessTransitive(x.kind, y.kind, z.kind);
    }
  }

  lemma EdgeOrder()
    requires forall x, y, z :: EdgeBefore(x, y) && EdgeBefore(y, z) ==> EdgeBefore(x, z)
    requires forall x, y :: EdgeBefore(x, y) || x == y || EdgeBefore(y, x)
    requires forall x, y :: EdgeBefore(x, y) ==> !EdgeBefore(y, x)
    ensures TotalOrder(EdgeBefore)
  {
    hide EdgeBefore;
  }

  lemma SameMembers<T>(a: seq<T>, b: seq<T>)
    requires multiset(a) == multiset(b)
    ensures |a| == |b| && forall x :: x in a <==> x in b
  {
    assert |a| == |multiset(a)| && |b| == |multiset(b)|;
    forall x
      ensures x in a <==> x in b
    {
      assert x in a <==> x in multiset(a);
      assert x in b <==> x in multiset(b);
    }
  }

  /** A snapshot depends on the graph and not on the order its lists were filled in: the
      refusal is the same too. */
  lemma SnapshotIgnoresOrder(g: Graph, h: Graph, t: Setting)
    requires Rearranged(g, h)
    ensures Take(g, t) == Take(h, t)
  {
    hide TextLess, EdgeBefore, Sort, TotalOrder, Bounded;
    SameMembers(g.edges, h.edges);
    SameMembers(g.unknowns, h.unknowns);
    SameMembers(g.contradictions, h.contradictions);
    TextsAreOrdered();
    EdgesAreOrdered();
    SortForgetsOrder(g.edges, h.edges, EdgeBefore);
    SortForgetsOrder(g.contracts, h.contracts, TextLess);
    SortForgetsOrder(g.evidenceRoots, h.evidenceRoots, TextLess);
    SortForgetsOrder(g.unknowns, h.unknowns, TextLess);
    SortForgetsOrder(g.contradictions, h.contradictions, TextLess);
  }

  function NodesOf(members: seq<Member>): (r: seq<Node>)
    ensures |r| == |members|
    ensures forall k :: 0 <= k < |r| ==> r[k] == Node(members[k].id, members[k].digest)
  {
    seq(|members|, k requires 0 <= k < |members| => Node(members[k].id, members[k].digest))
  }

  /** A snapshot as the differ reads it. */
  function Read(g: Graph): Snapshot {
    Snapshot(NodesOf(g.nodes), g.contracts, g.evidenceRoots, true)
  }

  /** The nodes come from an ordered map, so sorting them moves nothing. */
  lemma SnapshotKeepsNodes(g: Graph, t: Setting)
    requires Increasing(g.nodes, MemberBefore) && Take(g, t).Ok?
    ensures Take(g, t).value.nodes == g.nodes
  {
    hide TextLess, Sort, Bounded;
    TextsAreOrdered();
    assert Transitive(MemberBefore) && Asymmetric(MemberBefore);
    SortIncreasing(g.nodes, MemberBefore);
    SortPermutes(g.nodes, MemberBefore);
    IncreasingIsUnique(Sort(g.nodes, MemberBefore), g.nodes, MemberBefore);
  }

  /** Snapshot, diff and apply: of two graphs that have snapshots, the diff of these fails only
      when it does not fit a frame, and otherwise turns the first graph's entities into the
      second's, moves left aside. */
  lemma SnapshotDiffApplies(g: Graph, h: Graph, t: Setting, u: Setting, fits: seq<Operation> -> bool)
    requires Increasing(g.nodes, MemberBefore) && Increasing(h.nodes, MemberBefore)
    requires Take(g, t).Ok? && Take(h, u).Ok?
    ensures var b, a := Read(Take(g, t).value), Read(Take(h, u).value);
            match Difference(b, a, false, fits)
            case Err(e) => e.FrameBound? && !fits(Operations(b, a, false))
            case Ok(ops) => Apply(Entities(NodesOf(g.nodes)), ops) == Entities(NodesOf(h.nodes))
  {
    SnapshotKeepsNodes(g, t);
    SnapshotKeepsNodes(h, u);
    DiffRebuilds(Read(Take(g, t).value), Read(Take(h, u).value), false);
  }

  // ----- What a snapshot is, and why there is none -----

  /** By the first byte in which they differ, equal texts side by side. */
  ghost predicate TextsInOrder(v: seq<Text>) {
    forall i, j :: 0 <= i < j < |v| ==> v[i] == v[j] || FirstDifference(v[i], v[j])
  }

  /** By source, then target, then kind. */
  ghost predicate EdgesInOrder(v: seq<Edge>) {
    forall i, j :: 0 <= i < j < |v| ==>
      || FirstDifference(v[i].from, v[j].from)
      || (v[i].from == v[j].from
          && (FirstDifference(v[i].to, v[j].to)
              || (v[i].to == v[j].to && (v[i].kind == v[j].kind || FirstDifference(v[i].kind, v[j].kind)))))
  }

  lemma TextsSorted(v: seq<Text>)
    ensures multiset(Sort(v, TextLess)) == multiset(v) && TextsInOrder(Sort(v, TextLess))
  {
    hide TextLess, Sort, FirstDifference;
    TextsAreOrdered();
    SortPermutes(v, TextLess);
    SortNonDecreasing(v, TextLess);
    forall x: Text, y: Text
      ensures TextLess(x, y) <==> FirstDifference(x, y)
    {
      TextLessMeans(x, y);
    }
  }

  lemma EdgesSorted(v: seq<Edge>)
    ensures multiset(Sort(v, EdgeBefore)) == multiset(v) && EdgesInOrder(Sort(v, EdgeBefore))
  {
    hide TextLess, Sort, FirstDifference;
    EdgesAreOrdered();
    SortPermutes(v, EdgeBefore);
    SortNonDecreasing(v, EdgeBefore);
    forall x: Text, y: Text
      ensures TextLess(x, y) <==> FirstDifference(x, y)
    {
      TextLessMeans(x, y);
    }
  }

  /** A snapshot holds the graph's members and nothing else, each list in order, and is taken
      only at a complete cut of a graph within the budget whose texts have 1 to 256 bytes. A
      budget of the greatest 32-bit number limits nothing. */
  lemma SnapshotMeans(g: Graph, t: Setting)
    ensures match Take(g, t)
      case Ok(s) =>
        && t.cutComplete && TextsBounded(g) && t.fits(s) && t.limits.maxDepth >= 1 && t.limits.maxBytes >= 1
        && (|g.nodes| <= t.limits.maxNodes || t.limits.maxNodes >= 0xFFFF_FFFF)
        && (|g.edges| <= t.limits.maxEdges || t.limits.maxEdges >= 0xFFFF_FFFF)
        && multiset(s.nodes) == multiset(g.nodes)
        && multiset(s.edges) == multiset(g.edges) && EdgesInOrder(s.edges)
        && multiset(s.contracts) == multiset(g.contracts) && TextsInOrder(s.contracts)
        && multiset(s.evidenceRoots) == multiset(g.evidenceRoots) && TextsInOrder(s.evidenceRoots)
        && multiset(s.unknowns) == multiset(g.unknowns) && TextsInOrder(s.unknowns)
        && multiset(s.contradictions) == multiset(g.contradictions) && TextsInOrder(s.contradictions)
      case Err(IncompleteCut) => !t.cutComplete
      case Err(BudgetExhausted) =>
        || |g.nodes| > t.limits.maxNodes || |g.edges| > t.limits.maxEdges
        || t.limits.maxDepth == 0 || t.limits.maxBytes == 0
      case Err(TextBound) => !TextsBounded(g)
      case Err(FrameBound) => !t.fits(Canonical(g))
  {
    hide TextLess, Sort, EdgeBefore, MemberBefore, TextsBounded, TextsInOrder, EdgesInOrder;
    SortPermutes(g.nodes, MemberBefore);
    EdgesSorted(g.edges);
    TextsSorted(g.contracts);
    TextsSorted(g.evidenceRoots);
    TextsSorted(g.unknowns);
    TextsSorted(g.contradictions);
  }
}
