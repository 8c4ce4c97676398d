/** The depth-first cycle rejection of fragment dependencies (`reject_cycles` in
    src/fragments.rs), exact on graphs whose targets all exist. */
module CycleCheck {
  import opened Basics
  import opened Model

  /** SHA-256 content digests, taken as injective: a digest names its content. */
  datatype Digest = Digest(content: FragmentContent)

  type Graph = map<Digest, seq<Digest>>

  ghost predicate Closed(g: Graph) {
    forall n, d :: n in g && d in g[n] ==> d in g
  }

  /** Every node but the first is a dependency of the one before. */
  ghost predicate Path(g: Graph, p: seq<Digest>) {
    && (forall k :: 0 <= k < |p| ==> p[k] in g)
    && forall k :: 0 < k < |p| ==> p[k] in g[p[k - 1]]
  }

  ghost predicate Cycle(g: Graph, p: seq<Digest>) {
    |p| >= 2 && Path(g, p) && p[0] == p[|p| - 1]
  }

  ghost predicate Acyclic(g: Graph) {
    forall p :: !Cycle(g, p)
  }

  /** Every node of the listing comes after all its dependencies. */
  ghost predicate Topological(g: Graph, order: seq<Digest>) {
    && (forall k :: 0 <= k < |order| ==> order[k] in g)
    && forall k, d :: 0 <= k < |order| && d in g[order[k]] ==> d in order[..k]
  }

  class Checker {
    const graph: Graph
    var visiting: set<Digest>
    var visited: set<Digest>
    ghost var stack: seq<Digest>
    ghost var order: seq<Digest>

    constructor (graph: Graph)
      requires Closed(graph)
      ensures this.graph == graph && Valid()
      ensures stack == [] && visiting == {} && visited == {}
    {
      this.graph := graph;
      visiting, visited := {}, {};
      stack, order := [], [];
    }

    ghost predicate Valid()
      reads this
    {
      && Closed(graph)
      && visiting == Elements(stack) && Path(graph, stack)
      && visited == Elements(order) && Topological(graph, order)
      && visiting !! visited
    }

    method Visit(node: Digest) returns (ok: bool)
      requires Valid() && node in graph
      requires stack != [] ==> node in graph[stack[|stack| - 1]]
      modifies this
      ensures ok ==> Valid() && visiting == old(visiting) && stack == old(stack)
      ensures ok ==> old(visited) <= visited && node in visited
      ensures !ok ==> !Acyclic(graph)
      decreases graph.Keys - visiting - visited
    {
      if node in visiting {
        RevisitIsCycle(graph, stack, node);
        return false;
      }
      if node in visited {
        return true;
      }
      visiting := visiting + {node};
      stack := stack + [node];
      var k := 0;
      while k < |graph[node]|
        invariant k <= |graph[node]|
        invariant Valid() && stack == old(stack) + [node]
        invariant visiting == old(visiting) + {node} && old(visited) <= visited
        invariant forall j :: 0 <= j < k ==> graph[node][j] in visited
      {
        assert node in graph.Keys - old(visiting) - old(visited);
        assert graph.Keys - visiting - visited <= graph.Keys - old(visiting) - old(visited) - {node};
        ok := Visit(graph[node][k]);
        if !ok {
          return;
        }
        k := k + 1;
      }
      FinishNode(graph, order, node);
      visiting := visiting - {node};
      visited := visited + {node};
      stack := stack[..|stack| - 1];
      order := order + [node];
      return true;
    }
  }

  lemma RevisitIsCycle(g: Graph, stack: seq<Digest>, node: Digest)
    requires Path(g, stack) && node in stack && node in g
    requires node in g[stack[|stack| - 1]]
    ensures !Acyclic(g)
  {
    var k :| 0 <= k < |stack| && stack[k] == node;
    assert Cycle(g, stack[k..] + [node]);
  }

  lemma FinishNode(g: Graph, order: seq<Digest>, node: Digest)
    requires Topological(g, order) && node in g
    requires forall j :: 0 <= j < |g[node]| ==> g[node][j] in order
    ensures Topological(g, order + [node])
  {
    var longer := order + [node];
    forall k, d | 0 <= k < |longer| && d in g[longer[k]]
      ensures d in longer[..k]
    {
      assert longer[..k] == order[..k];
    }
  }

  /** Along a path of a topologically listed graph positions go down, so none is a cycle. */
  lemma {:induction false} PathDescends(g: Graph, order: seq<Digest>, p: seq<Digest>, i: nat)
    requires Topological(g, order) && Path(g, p) && p != []
    requires i < |order| && order[i] == p[0]
    ensures |p| >= 2 ==> p[|p| - 1] in order[..i]
    decreases |p|
  {
    if |p| >= 2 {
      assert p[1] in order[..i];
      var j :| 0 <= j < i && order[..i][j] == p[1];
      assert order[j] == p[1];
      assert Path(g, p[1..]) by {
        assert forall k :: 0 < k < |p[1..]| ==> p[1..][k] == p[k + 1] && p[1..][k - 1] == p[k];
      }
      PathDescends(g, order, p[1..], j);
      if |p| >= 3 {
        assert p[|p| - 1] in order[..j];
      }
    }
  }

  lemma ListedGraphIsAcyclic(g: Graph, order: seq<Digest>)
    requires Topological(g, order) && forall n :: n in g ==> n in order
    ensures Acyclic(g)
  {
    forall p
      ensures !Cycle(g, p)
    {
      if Cycle(g, p) {
        FirstPosition(order, p[0]);
        var i :| 0 <= i < |order| && order[i] == p[0] && p[0] !in order[..i];
        PathDescends(g, order, p, i);
      }
    }
  }

  lemma {:induction false} FirstPosition(order: seq<Digest>, n: Digest)
    requires n in order
    ensures exists i :: 0 <= i < |order| && order[i] == n && n !in order[..i]
  {
    var i := 0;
    while order[i] != n
      invariant i < |order| && n !in order[..i]
      invariant n in order[i..]
      decreases |order| - i
    {
      assert order[i..] == [order[i]] + order[i + 1..];
      assert order[..i + 1] == order[..i] + [order[i]];
      i := i + 1;
    }
  }

  /** Cycle rejection is exact, and always terminates. */
  method RejectCycles(graph: Graph) returns (ok: bool)
    requires Closed(graph)
    ensures ok <==> Acyclic(graph)
  {
    var checker := new Checker(graph);
    var rest := graph.Keys;
    while rest != {}
      invariant checker.Valid() && checker.graph == graph && checker.stack == []
      invariant rest <= graph.Keys && graph.Keys - rest <= checker.visited
      decreases rest
    {
      var node :| node in rest;
      ok := checker.Visit(node);
      if !ok {
        return;
      }
      rest := rest - {node};
    }
    assert forall n :: n in graph ==> n in checker.visited;
    ListedGraphIsAcyclic(graph, checker.order);
    return true;
  }
}
