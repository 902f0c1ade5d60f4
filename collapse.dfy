/**
 * The edge-selection loop at the start of `collapse` in assemble.py, reading
 * its `range numNodes` as `range(numNodes)`: an edge (x, y) is selected when
 * x has exactly one out-edge and y exactly one in-edge among the node
 * positions 0 .. numNodes - 1. The rest of `collapse` is not part of this model.
 */
module Collapse {
  import opened DeBruijn

  /** `sum(1 for k in range(n) if (x, k) in edges)`. */
  function OutDegree(edges: map<Edge, nat>, x: nat, n: nat): nat
  {
    if n == 0 then 0 else OutDegree(edges, x, n - 1) + (if (x, n - 1) in edges then 1 else 0)
  }

  /** `sum(1 for k in range(n) if (k, y) in edges)`. */
  function InDegree(edges: map<Edge, nat>, y: nat, n: nat): nat
  {
    if n == 0 then 0 else InDegree(edges, y, n - 1) + (if (n - 1, y) in edges then 1 else 0)
  }

  /** The heads of the edges leaving x. */
  ghost function OutNeighbours(edges: map<Edge, nat>, x: nat): set<nat>
  {
    set e | e in edges && e.0 == x :: e.1
  }

  /** The tails of the edges entering y. */
  ghost function InNeighbours(edges: map<Edge, nat>, y: nat): set<nat>
  {
    set e | e in edges && e.1 == y :: e.0
  }

  predicate Selectable(edges: map<Edge, nat>, n: nat, e: Edge)
  {
    OutDegree(edges, e.0, n) == 1 && InDegree(edges, e.1, n) == 1
  }

  /** The selected keys, in the dict's iteration order. */
  function Selected(keys: seq<Edge>, edges: map<Edge, nat>, n: nat): seq<Edge>
  {
    if keys == [] then []
    else
      var init, e := keys[..|keys| - 1], keys[|keys| - 1];
      Selected(init, edges, n) + (if Selectable(edges, n, e) then [e] else [])
  }

  /**
   * The first loop of `collapse(nodes, edges)`, building `colList`; `keyOrder`
   * is the dict's iteration order, which lists each key of `edges` once.
   */
  method SelectChainEdges(nodes: seq<string>, edges: map<Edge, nat>, keyOrder: seq<Edge>) returns (colList: seq<Edge>)
    requires KeysOk(Graph(nodes, edges, keyOrder))
    ensures colList == Selected(keyOrder, edges, |nodes|)
    ensures forall e :: e in colList <==> e in edges && Selectable(edges, |nodes|, e)
  {
    var numNodes := |nodes|;
    colList := [];
    for i := 0 to |keyOrder|
      invariant colList == Selected(keyOrder[..i], edges, numNodes)
    {
      var (x, y) := keyOrder[i];
      var xEdge := OutDegree(edges, x, numNodes);
      var yEdge := InDegree(edges, y, numNodes);
      if xEdge == 1 && yEdge == 1 {
        colList := colList + [(x, y)];
      }
      assert keyOrder[..i + 1][..i] == keyOrder[..i];
    }
    assert keyOrder[..|keyOrder|] == keyOrder;
    SelectedMeaning(keyOrder, edges, numNodes);
  }

  lemma {:induction false} SelectedMeaning(keys: seq<Edge>, edges: map<Edge, nat>, n: nat)
    ensures forall e :: e in Selected(keys, edges, n) <==> e in keys && Selectable(edges, n, e)
  {
    if keys != [] {
      var init, e := keys[..|keys| - 1], keys[|keys| - 1];
      assert keys == init + [e];
      SelectedMeaning(init, edges, n);
    }
  }

  /** The counting sum is the size of the set of out-neighbours below n. */
  lemma {:induction false} OutDegreeCounts(edges: map<Edge, nat>, x: nat, n: nat)
    ensures OutDegree(edges, x, n) == |set k: nat | k < n && (x, k) in edges|
  {
    if n > 0 {
      OutDegreeCounts(edges, x, n - 1);
      var below := set k: nat | k < n - 1 && (x, k) in edges;
      var upTo := set k: nat | k < n && (x, k) in edges;
      if (x, n - 1) in edges {
        assert upTo == below + {n - 1};
      } else {
        assert upTo == below;
      }
    }
  }

  lemma {:induction false} InDegreeCounts(edges: map<Edge, nat>, y: nat, n: nat)
    ensures InDegree(edges, y, n) == |set k: nat | k < n && (k, y) in edges|
  {
    if n > 0 {
      InDegreeCounts(edges, y, n - 1);
      var below := set k: nat | k < n - 1 && (k, y) in edges;
      var upTo := set k: nat | k < n && (k, y) in edges;
      if (n - 1, y) in edges {
        assert upTo == below + {n - 1};
      } else {
        assert upTo == below;
      }
    }
  }

  /** When every key indexes a node, the sums are the true out- and in-degrees. */
  lemma {:induction false} DegreesAreTrue(edges: map<Edge, nat>, n: nat, x: nat, y: nat)
    requires forall e :: e in edges ==> e.0 < n && e.1 < n
    ensures OutDegree(edges, x, n) == |OutNeighbours(edges, x)|
    ensures InDegree(edges, y, n) == |InNeighbours(edges, y)|
  {
    OutDegreeCounts(edges, x, n);
    InDegreeCounts(edges, y, n);
    assert (set k: nat | k < n && (x, k) in edges) == OutNeighbours(edges, x);
    assert (set k: nat | k < n && (k, y) in edges) == InNeighbours(edges, y);
  }

  /**
   * On the graph `build_de_bruijn` returns, `collapse` selects exactly the
   * edges (x, y) where x has one out-edge and y has one in-edge.
   */
  lemma {:induction false} SelectsUniqueLinks(kmers: seq<string>)
    ensures var g := Build(kmers);
      forall e :: e in Selected(g.keyOrder, g.edges, |g.nodes|) <==>
        e in g.edges && |OutNeighbours(g.edges, e.0)| == 1 && |InNeighbours(g.edges, e.1)| == 1
  {
    var g := Build(kmers);
    EdgeKeysInRange(kmers);
    WeightsSumToKmerCount(kmers);
    SelectedMeaning(g.keyOrder, g.edges, |g.nodes|);
    forall e: Edge
      ensures Selectable(g.edges, |g.nodes|, e) <==>
        |OutNeighbours(g.edges, e.0)| == 1 && |InNeighbours(g.edges, e.1)| == 1
    {
      DegreesAreTrue(g.edges, |g.nodes|, e.0, e.1);
    }
  }
}
