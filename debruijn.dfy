/**
 * De Bruijn graph construction (`build_de_bruijn` in assemble.py). Every
 * k-mer contributes its prefix `kmer[:-1]` and suffix `kmer[1:]` as nodes,
 * kept in a duplicate-free list in order of first appearance, and an edge
 * between their list positions whose counter records how many k-mers
 * produced it. `edges` is a Python dict, so besides the map from index pairs
 * to counters the model keeps the dict's key insertion order, `keyOrder`,
 * which is the order in which the dict is iterated.
 */
module DeBruijn {
  import opened Python

  /** An edge key: the positions in `nodes` of its left and right node. */
  type Edge = (nat, nat)

  datatype Graph = Graph(nodes: seq<string>, edges: map<Edge, nat>, keyOrder: seq<Edge>)

  /** `kmer[:-1]`. */
  function Prefix(kmer: string): (r: string)
    ensures |kmer| >= 1 ==> r == kmer[..|kmer| - 1]
    ensures kmer == [] ==> r == []
  {
    Slice(kmer, 0, -1)
  }

  /** `kmer[1:]`. */
  function Suffix(kmer: string): (r: string)
    ensures |kmer| >= 1 ==> r == kmer[1..]
    ensures kmer == [] ==> r == []
  {
    Slice(kmer, 1, |kmer|)
  }

  /** `nodes.index(x)`: the first position that holds x. */
  function IndexOf(nodes: seq<string>, x: string): (r: nat)
    requires x in nodes
    ensures r < |nodes| && nodes[r] == x
    ensures forall j :: 0 <= j < r ==> nodes[j] != x
  {
    if nodes[0] == x then 0 else 1 + IndexOf(nodes[1..], x)
  }

  /** `if x not in nodes: nodes.append(x)`. */
  function AddNode(nodes: seq<string>, x: string): seq<string>
  {
    if x in nodes then nodes else nodes + [x]
  }

  /** `edges[e] += 1` for a key already present, `edges[e] = 1` otherwise. */
  function BumpMap(edges: map<Edge, nat>, e: Edge): map<Edge, nat>
  {
    if e in edges then edges[e := edges[e] + 1] else edges[e := 1]
  }

  /** The dict's key order after that update: a new key goes last. */
  function BumpKeys(edges: map<Edge, nat>, keys: seq<Edge>, e: Edge): seq<Edge>
  {
    if e in edges then keys else keys + [e]
  }

  /** One iteration of the loop over the k-mers. */
  function Step(g: Graph, kmer: string): Graph
  {
    var left := Prefix(kmer);
    var right := Suffix(kmer);
    var nodes := AddNode(AddNode(g.nodes, left), right);
    var e := (IndexOf(nodes, left), IndexOf(nodes, right));
    Graph(nodes, BumpMap(g.edges, e), BumpKeys(g.edges, g.keyOrder, e))
  }

  /** The graph after the loop has consumed the k-mers. */
  function Build(kmers: seq<string>): Graph
  {
    if kmers == [] then Graph([], map[], [])
    else Step(Build(kmers[..|kmers| - 1]), kmers[|kmers| - 1])
  }

  /** `build_de_bruijn(kmers)`, without its diagnostic `write_dot` call. */
  method BuildDeBruijn(kmers: seq<string>) returns (nodes: seq<string>, edges: map<Edge, nat>, keyOrder: seq<Edge>)
    ensures Graph(nodes, edges, keyOrder) == Build(kmers)
    ensures Distinct(nodes) && FirstAppearanceOrder(nodes, Endpoints(kmers))
    ensures EdgeCounts(nodes, edges, kmers) && KeysOk(Graph(nodes, edges, keyOrder))
    ensures SumValues(edges, keyOrder) == |kmers|
  {
    nodes, edges, keyOrder := [], map[], [];
    for i := 0 to |kmers|
      invariant Graph(nodes, edges, keyOrder) == Build(kmers[..i])
    {
      var kmer := kmers[i];
      ghost var before := Graph(nodes, edges, keyOrder);
      var left := Prefix(kmer);
      if left !in nodes {
        nodes := nodes + [left];
      }
      var right := Suffix(kmer);
      if right !in nodes {
        nodes := nodes + [right];
      }
      assert nodes == AddNode(AddNode(before.nodes, left), right);
      var leftIndex := IndexOf(nodes, left);
      var rightIndex := IndexOf(nodes, right);
      if (leftIndex, rightIndex) !in edges {
        edges := edges[(leftIndex, rightIndex) := 1];
        keyOrder := keyOrder + [(leftIndex, rightIndex)];
      } else {
        edges := edges[(leftIndex, rightIndex) := edges[(leftIndex, rightIndex)] + 1];
      }
      assert Graph(nodes, edges, keyOrder) == Step(before, kmer);
      BuildPrefixStep(kmers, i);
    }
    assert kmers[..|kmers|] == kmers;
    BuildSound(kmers);
  }

  /** Building from one more k-mer takes one more step. */
  lemma {:induction false} BuildPrefixStep(kmers: seq<string>, i: nat)
    requires i < |kmers|
    ensures Build(kmers[..i + 1]) == Step(Build(kmers[..i]), kmers[i])
  {
    assert kmers[..i + 1][..i] == kmers[..i];
    assert kmers[..i + 1][i] == kmers[i];
  }

  // ---------------------------------------------------------------------
  // Reference definitions the graph is proved against
  // ---------------------------------------------------------------------

  ghost predicate Distinct<T>(s: seq<T>)
  {
    forall i, j :: 0 <= i < j < |s| ==> s[i] != s[j]
  }

  /** The prefix and suffix of every k-mer, in k-mer order. */
  function Endpoints(kmers: seq<string>): seq<string>
  {
    if kmers == [] then []
    else Endpoints(kmers[..|kmers| - 1]) + [Prefix(kmers[|kmers| - 1]), Suffix(kmers[|kmers| - 1])]
  }

  /** How many k-mers have prefix a and suffix b. */
  function Count(kmers: seq<string>, a: string, b: string): nat
  {
    if kmers == [] then 0
    else
      var km := kmers[|kmers| - 1];
      Count(kmers[..|kmers| - 1], a, b) + (if Prefix(km) == a && Suffix(km) == b then 1 else 0)
  }

  /** The sum of the counters, taken in the dict's iteration order (`sum(edges.values())`). */
  function SumValues(m: map<Edge, nat>, keys: seq<Edge>): nat
    requires forall e :: e in keys ==> e in m
  {
    if keys == [] then 0 else SumValues(m, keys[..|keys| - 1]) + m[keys[|keys| - 1]]
  }

  /** Nodes are distinct and are exactly the prefixes and suffixes of the k-mers. */
  ghost predicate NodesOk(g: Graph, kmers: seq<string>)
  {
    && Distinct(g.nodes)
    && (forall x :: x in g.nodes <==> x in Endpoints(kmers))
  }

  /** Nodes are listed in the order in which they first appear in `ends`. */
  ghost predicate FirstAppearanceOrder(nodes: seq<string>, ends: seq<string>)
  {
    forall i, j :: 0 <= i < j < |nodes| ==>
      nodes[i] in ends && nodes[j] in ends && IndexOf(ends, nodes[i]) < IndexOf(ends, nodes[j])
  }

  /** Every edge joins two nodes and its counter is the number of k-mers it stands for. */
  ghost predicate EdgeCounts(nodes: seq<string>, edges: map<Edge, nat>, kmers: seq<string>)
  {
    forall e :: e in edges ==>
      e.0 < |nodes| && e.1 < |nodes| && edges[e] == Count(kmers, nodes[e.0], nodes[e.1]) && edges[e] >= 1
  }

  /** Every pair of nodes that some k-mer stands for has an edge. */
  ghost predicate EdgeComplete(nodes: seq<string>, edges: map<Edge, nat>, kmers: seq<string>)
  {
    forall l, r :: 0 <= l < |nodes| && 0 <= r < |nodes| && Count(kmers, nodes[l], nodes[r]) > 0 ==> (l, r) in edges
  }

  /** The iteration order lists every key of the dict once. */
  ghost predicate KeysOk(g: Graph)
  {
    && Distinct(g.keyOrder)
    && (forall e :: e in g.keyOrder <==> e in g.edges)
  }

  ghost predicate Sound(g: Graph, kmers: seq<string>)
  {
    && NodesOk(g, kmers)
    && FirstAppearanceOrder(g.nodes, Endpoints(kmers))
    && EdgeCounts(g.nodes, g.edges, kmers)
    && EdgeComplete(g.nodes, g.edges, kmers)
    && KeysOk(g)
    && SumValues(g.edges, g.keyOrder) == |kmers|
  }

  // ---------------------------------------------------------------------
  // Helper lemmas
  // ---------------------------------------------------------------------

  lemma {:induction false} AddNodeFacts(nodes: seq<string>, x: string)
    requires Distinct(nodes)
    ensures Distinct(AddNode(nodes, x))
    ensures AddNode(nodes, x)[..|nodes|] == nodes
    ensures forall y :: y in AddNode(nodes, x) <==> y in nodes || y == x
  {
  }

  lemma {:induction false} IndexOfAppend(s: seq<string>, t: seq<string>, x: string)
    requires x in s + t
    ensures x in s ==> IndexOf(s + t, x) == IndexOf(s, x)
    ensures x !in s ==> IndexOf(s + t, x) >= |s|
  {
    var i := IndexOf(s + t, x);
    if x in s {
      var j := IndexOf(s, x);
      assert (s + t)[j] == x;
    }
  }

  lemma {:induction false} EndpointsStep(kmers: seq<string>, km: string)
    ensures Endpoints(kmers + [km]) == Endpoints(kmers) + [Prefix(km), Suffix(km)]
  {
    assert (kmers + [km])[..|kmers|] == kmers;
  }

  lemma {:induction false} CountStep(kmers: seq<string>, km: string, a: string, b: string)
    ensures Count(kmers + [km], a, b) == Count(kmers, a, b) + (if Prefix(km) == a && Suffix(km) == b then 1 else 0)
  {
    assert (kmers + [km])[..|kmers|] == kmers;
  }

  lemma {:induction false} CountPositive(kmers: seq<string>, a: string, b: string)
    requires Count(kmers, a, b) > 0
    ensures a in Endpoints(kmers) && b in Endpoints(kmers)
  {
    var init := kmers[..|kmers| - 1];
    var km := kmers[|kmers| - 1];
    EndpointsStep(init, km);
    CountStep(init, km, a, b);
    assert init + [km] == kmers;
    if Count(init, a, b) > 0 {
      CountPositive(init, a, b);
    }
  }

  lemma {:induction false} SumValuesFrame(m: map<Edge, nat>, keys: seq<Edge>, e: Edge, v: nat)
    requires forall x :: x in keys ==> x in m
    requires e !in keys
    ensures SumValues(m[e := v], keys) == SumValues(m, keys)
  {
    if keys != [] {
      SumValuesFrame(m, keys[..|keys| - 1], e, v);
    }
  }

  lemma {:induction false} SumValuesBump(m: map<Edge, nat>, keys: seq<Edge>, e: Edge)
    requires forall x :: x in keys ==> x in m
    requires Distinct(keys) && e in keys
    ensures SumValues(m[e := m[e] + 1], keys) == SumValues(m, keys) + 1
  {
    var init := keys[..|keys| - 1];
    if keys[|keys| - 1] == e {
      assert e !in init;
      SumValuesFrame(m, init, e, m[e] + 1);
    } else {
      SumValuesBump(m, init, e);
    }
  }

  // ---------------------------------------------------------------------
  // One loop iteration keeps the graph sound
  // ---------------------------------------------------------------------

  lemma {:induction false} AddTwoNodes(nodes: seq<string>, ends: seq<string>, a: string, b: string)
    requires Distinct(nodes) && forall x :: x in nodes <==> x in ends
    ensures Distinct(AddNode(AddNode(nodes, a), b))
    ensures forall x :: x in AddNode(AddNode(nodes, a), b) <==> x in ends + [a, b]
    ensures AddNode(AddNode(nodes, a), b)[..|nodes|] == nodes
  {
    AddNodeFacts(nodes, a);
    AddNodeFacts(AddNode(nodes, a), b);
  }

  lemma {:induction false} AddTwoNodesOrder(nodes: seq<string>, ends: seq<string>, a: string, b: string)
    requires Distinct(nodes) && forall x :: x in nodes <==> x in ends
    requires FirstAppearanceOrder(nodes, ends)
    ensures FirstAppearanceOrder(AddNode(AddNode(nodes, a), b), ends + [a, b])
  {
    var nodes' := AddNode(AddNode(nodes, a), b);
    var ends' := ends + [a, b];
    AddTwoNodes(nodes, ends, a, b);
    forall i, j | 0 <= i < j < |nodes'|
      ensures nodes'[i] in ends' && nodes'[j] in ends' && IndexOf(ends', nodes'[i]) < IndexOf(ends', nodes'[j])
    {
      var x, y := nodes'[i], nodes'[j];
      IndexOfAppend(ends, [a, b], x);
      IndexOfAppend(ends, [a, b], y);
      if j < |nodes| {
        assert nodes[i] == x && nodes[j] == y;
      } else if i < |nodes| {
        assert x in nodes;
        assert y !in nodes;
      } else {
        assert x == a && y == b && a != b;
        assert ends'[|ends|] == a;
      }
    }
  }

  /** Appending nodes keeps the old ones at their positions, and a new position holds a new label. */
  lemma {:induction false} GrownNodes(nodes: seq<string>, nodes': seq<string>)
    requires Distinct(nodes') && |nodes| <= |nodes'| && nodes'[..|nodes|] == nodes
    ensures forall i :: 0 <= i < |nodes| ==> nodes'[i] == nodes[i]
    ensures forall i :: 0 <= i < |nodes'| && nodes'[i] in nodes ==> i < |nodes|
  {
    forall i | 0 <= i < |nodes'| && nodes'[i] in nodes
      ensures i < |nodes|
    {
      var i0 :| 0 <= i0 < |nodes| && nodes[i0] == nodes'[i];
      assert nodes'[i0] == nodes'[i];
    }
  }

  lemma {:induction false} BumpCounts(nodes: seq<string>, nodes': seq<string>, edges: map<Edge, nat>, kmers: seq<string>, km: string)
    requires Distinct(nodes') && |nodes| <= |nodes'| && nodes'[..|nodes|] == nodes
    requires forall x :: x in nodes <==> x in Endpoints(kmers)
    requires Prefix(km) in nodes' && Suffix(km) in nodes'
    requires EdgeCounts(nodes, edges, kmers) && EdgeComplete(nodes, edges, kmers)
    ensures EdgeCounts(nodes', BumpMap(edges, (IndexOf(nodes', Prefix(km)), IndexOf(nodes', Suffix(km)))), kmers + [km])
  {
    var li, ri := IndexOf(nodes', Prefix(km)), IndexOf(nodes', Suffix(km));
    var edges' := BumpMap(edges, (li, ri));
    NewEdgeCount(nodes, nodes', edges, kmers, km);
    forall e | e in edges'
      ensures e.0 < |nodes'| && e.1 < |nodes'|
      ensures edges'[e] == Count(kmers + [km], nodes'[e.0], nodes'[e.1]) && edges'[e] >= 1
    {
      if e != (li, ri) {
        OldEdgeCount(nodes, nodes', edges, kmers, km, e);
      }
    }
  }

  /** The edge the k-mer stands for counts the k-mers between its endpoints. */
  lemma {:induction false} NewEdgeCount(nodes: seq<string>, nodes': seq<string>, edges: map<Edge, nat>, kmers: seq<string>, km: string)
    requires Distinct(nodes') && |nodes| <= |nodes'| && nodes'[..|nodes|] == nodes
    requires forall x :: x in nodes <==> x in Endpoints(kmers)
    requires Prefix(km) in nodes' && Suffix(km) in nodes'
    requires EdgeCounts(nodes, edges, kmers) && EdgeComplete(nodes, edges, kmers)
    ensures var e := (IndexOf(nodes', Prefix(km)), IndexOf(nodes', Suffix(km)));
      BumpMap(edges, e)[e] == Count(kmers + [km], Prefix(km), Suffix(km))
  {
    var a, b := Prefix(km), Suffix(km);
    var li, ri := IndexOf(nodes', a), IndexOf(nodes', b);
    GrownNodes(nodes, nodes');
    CountStep(kmers, km, a, b);
    if Count(kmers, a, b) > 0 {
      CountPositive(kmers, a, b);
      var l0, r0 := IndexOf(nodes, a), IndexOf(nodes, b);
      assert nodes'[l0] == a && nodes'[r0] == b;
      assert (li, ri) in edges by { assert l0 == li && r0 == ri; }
    }
  }

  /** An edge the k-mer does not stand for keeps its count. */
  lemma {:induction false} OldEdgeCount(nodes: seq<string>, nodes': seq<string>, edges: map<Edge, nat>, kmers: seq<string>, km: string, e: Edge)
    requires Distinct(nodes') && |nodes| <= |nodes'| && nodes'[..|nodes|] == nodes
    requires Prefix(km) in nodes' && Suffix(km) in nodes'
    requires EdgeCounts(nodes, edges, kmers) && e in edges
    requires e != (IndexOf(nodes', Prefix(km)), IndexOf(nodes', Suffix(km)))
    ensures e.0 < |nodes'| && e.1 < |nodes'|
    ensures edges[e] == Count(kmers + [km], nodes'[e.0], nodes'[e.1]) && edges[e] >= 1
  {
    assert nodes'[e.0] == nodes[e.0] && nodes'[e.1] == nodes[e.1];
    CountStep(kmers, km, nodes'[e.0], nodes'[e.1]);
  }

  lemma {:induction false} BumpComplete(nodes: seq<string>, nodes': seq<string>, edges: map<Edge, nat>, kmers: seq<string>, km: string)
    requires Distinct(nodes') && |nodes| <= |nodes'| && nodes'[..|nodes|] == nodes
    requires forall x :: x in nodes <==> x in Endpoints(kmers)
    requires Prefix(km) in nodes' && Suffix(km) in nodes'
    requires EdgeComplete(nodes, edges, kmers)
    ensures EdgeComplete(nodes', BumpMap(edges, (IndexOf(nodes', Prefix(km)), IndexOf(nodes', Suffix(km)))), kmers + [km])
  {
    var a, b := Prefix(km), Suffix(km);
    var li, ri := IndexOf(nodes', a), IndexOf(nodes', b);
    var edges' := BumpMap(edges, (li, ri));
    EndpointsStep(kmers, km);
    GrownNodes(nodes, nodes');
    forall l, r | 0 <= l < |nodes'| && 0 <= r < |nodes'| && Count(kmers + [km], nodes'[l], nodes'[r]) > 0
      ensures (l, r) in edges'
    {
      CountStep(kmers, km, nodes'[l], nodes'[r]);
      if Count(kmers, nodes'[l], nodes'[r]) > 0 {
        CountPositive(kmers, nodes'[l], nodes'[r]);
        assert l < |nodes| && r < |nodes|;
      } else {
        assert nodes'[l] == a && nodes'[r] == b;
      }
    }
  }

  lemma {:induction false} BumpKeysSound(edges: map<Edge, nat>, keys: seq<Edge>, e: Edge, total: nat)
    requires Distinct(keys) && (forall x :: x in keys <==> x in edges) && SumValues(edges, keys) == total
    ensures Distinct(BumpKeys(edges, keys, e))
    ensures forall x :: x in BumpKeys(edges, keys, e) <==> x in BumpMap(edges, e)
    ensures SumValues(BumpMap(edges, e), BumpKeys(edges, keys, e)) == total + 1
  {
    if e in edges {
      SumValuesBump(edges, keys, e);
    } else {
      NewKeySum(edges, keys, e);
    }
  }

  lemma {:induction false} NewKeySum(edges: map<Edge, nat>, keys: seq<Edge>, e: Edge)
    requires (forall x :: x in keys ==> x in edges) && e !in edges
    ensures SumValues(edges[e := 1], keys + [e]) == SumValues(edges, keys) + 1
  {
    SumValuesFrame(edges, keys, e, 1);
    assert (keys + [e])[..|keys|] == keys;
  }

  lemma {:induction false} StepShape(g: Graph, km: string)
    ensures var nodes' := AddNode(AddNode(g.nodes, Prefix(km)), Suffix(km));
      var e := (IndexOf(nodes', Prefix(km)), IndexOf(nodes', Suffix(km)));
      Step(g, km) == Graph(nodes', BumpMap(g.edges, e), BumpKeys(g.edges, g.keyOrder, e))
  {
  }

  lemma {:induction false} BuildSound(kmers: seq<string>)
    ensures Sound(Build(kmers), kmers)
  {
    if kmers != [] {
      var init, km := kmers[..|kmers| - 1], kmers[|kmers| - 1];
      assert init + [km] == kmers;
      BuildSound(init);
      var g := Build(init);
      var nodes' := AddNode(AddNode(g.nodes, Prefix(km)), Suffix(km));
      var e := (IndexOf(nodes', Prefix(km)), IndexOf(nodes', Suffix(km)));
      StepShape(g, km);
      assert Build(kmers) == Graph(nodes', BumpMap(g.edges, e), BumpKeys(g.edges, g.keyOrder, e));
      EndpointsStep(init, km);
      AddTwoNodes(g.nodes, Endpoints(init), Prefix(km), Suffix(km));
      AddTwoNodesOrder(g.nodes, Endpoints(init), Prefix(km), Suffix(km));
      BumpCounts(g.nodes, nodes', g.edges, init, km);
      BumpComplete(g.nodes, nodes', g.edges, init, km);
      BumpKeysSound(g.edges, g.keyOrder, e, |init|);
    }
  }

  // ---------------------------------------------------------------------
  // What build_de_bruijn promises
  // ---------------------------------------------------------------------

  lemma {:induction false} EndpointsMeaning(kmers: seq<string>, x: string)
    ensures x in Endpoints(kmers) <==> exists km :: km in kmers && (x == Prefix(km) || x == Suffix(km))
  {
    if kmers != [] {
      var init, km := kmers[..|kmers| - 1], kmers[|kmers| - 1];
      assert kmers == init + [km];
      EndpointsMeaning(init, x);
    }
  }

  lemma {:induction false} CountMeaning(kmers: seq<string>, a: string, b: string)
    ensures Count(kmers, a, b) > 0 <==> exists km :: km in kmers && Prefix(km) == a && Suffix(km) == b
  {
    if kmers != [] {
      var init, km := kmers[..|kmers| - 1], kmers[|kmers| - 1];
      assert kmers == init + [km];
      CountMeaning(init, a, b);
    }
  }

  /** `nodes` has no duplicates and lists every prefix and suffix in order of first appearance. */
  lemma {:induction false} NodesAreFirstAppearances(kmers: seq<string>)
    ensures var nodes := Build(kmers).nodes;
      && Distinct(nodes)
      && FirstAppearanceOrder(nodes, Endpoints(kmers))
      && (forall x :: x in nodes <==> exists km :: km in kmers && (x == Prefix(km) || x == Suffix(km)))
  {
    BuildSound(kmers);
    forall x {
      EndpointsMeaning(kmers, x);
    }
  }

  /** When every k-mer has length k >= 1, every node has length k - 1. */
  lemma {:induction false} NodeLength(kmers: seq<string>, k: nat)
    requires k >= 1 && forall km :: km in kmers ==> |km| == k
    ensures forall x :: x in Build(kmers).nodes ==> |x| == k - 1
  {
    NodesAreFirstAppearances(kmers);
    forall x | x in Build(kmers).nodes
      ensures |x| == k - 1
    {
      var km :| km in kmers && (x == Prefix(km) || x == Suffix(km));
    }
  }

  /**
   * Every edge key indexes two nodes that are the prefix and suffix of some
   * k-mer, and its counter is the number of such k-mers, so at least 1.
   */
  lemma {:induction false} EdgesCountKmers(kmers: seq<string>)
    ensures var g := Build(kmers);
      forall e :: e in g.edges ==>
        && e.0 < |g.nodes| && e.1 < |g.nodes|
        && g.edges[e] == Count(kmers, g.nodes[e.0], g.nodes[e.1]) >= 1
        && exists km :: km in kmers && Prefix(km) == g.nodes[e.0] && Suffix(km) == g.nodes[e.1]
  {
    var g := Build(kmers);
    BuildSound(kmers);
    forall e | e in g.edges
      ensures exists km :: km in kmers && Prefix(km) == g.nodes[e.0] && Suffix(km) == g.nodes[e.1]
    {
      CountMeaning(kmers, g.nodes[e.0], g.nodes[e.1]);
    }
  }

  /** Every k-mer's prefix and suffix are nodes, and the edge between their positions exists. */
  lemma {:induction false} EveryKmerHasEdge(kmers: seq<string>)
    ensures var g := Build(kmers);
      forall km :: km in kmers ==>
        Prefix(km) in g.nodes && Suffix(km) in g.nodes &&
        (IndexOf(g.nodes, Prefix(km)), IndexOf(g.nodes, Suffix(km))) in g.edges
  {
    var g := Build(kmers);
    BuildSound(kmers);
    forall km | km in kmers
      ensures Prefix(km) in g.nodes && Suffix(km) in g.nodes
      ensures (IndexOf(g.nodes, Prefix(km)), IndexOf(g.nodes, Suffix(km))) in g.edges
    {
      EndpointsMeaning(kmers, Prefix(km));
      EndpointsMeaning(kmers, Suffix(km));
      CountMeaning(kmers, Prefix(km), Suffix(km));
      var l, r := IndexOf(g.nodes, Prefix(km)), IndexOf(g.nodes, Suffix(km));
      assert Count(kmers, g.nodes[l], g.nodes[r]) > 0;
    }
  }

  /** The dict iterates over each key once, and the counters add up to len(kmers). */
  lemma {:induction false} WeightsSumToKmerCount(kmers: seq<string>)
    ensures var g := Build(kmers);
      && Distinct(g.keyOrder)
      && (forall e :: e in g.keyOrder <==> e in g.edges)
      && SumValues(g.edges, g.keyOrder) == |kmers|
  {
    BuildSound(kmers);
  }

  /** Every edge key is a pair of positions in `nodes`. */
  lemma {:induction false} EdgeKeysInRange(kmers: seq<string>)
    ensures var g := Build(kmers);
      forall e :: e in g.edges ==> e.0 < |g.nodes| && e.1 < |g.nodes|
  {
    BuildSound(kmers);
  }
}
