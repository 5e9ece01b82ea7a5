/**
  The road graph: an undirected multigraph whose vertices are the ids
  0 .. vertexCount - 1 (a `vecS` vertex store) and whose edges are kept in
  insertion order with parallel edges and self-loops (a `listS` edge store).
  Every edge carries a `cost` weight, modelled as `real`.
 */
module Graph {
  import opened Text

  datatype Edge = Edge(source: nat, target: nat, weight: real)

  /** The vertex count after `add_edge(u, v)`: a `vecS` store grows to hold
      both endpoints. */
  function Grow(count: nat, u: nat, v: nat): (r: nat)
    ensures count <= r && u < r && v < r
    ensures r == count || r == u + 1 || r == v + 1
  {
    var m := if u < v then v + 1 else u + 1;
    if count < m then m else count
  }

  /** Both endpoints of every edge name a vertex. */
  ghost predicate Closed(vertexCount: nat, edges: seq<Edge>) {
    forall j :: 0 <= j < |edges| ==> edges[j].source < vertexCount && edges[j].target < vertexCount
  }

  class Multigraph {
    var vertexCount: nat
    var edges: seq<Edge>

    ghost predicate Valid()
      reads this
    {
      Closed(vertexCount, edges)
    }

    /** `mygraph_t g(n)`: `n` vertices and no edge. */
    constructor (n: nat)
      ensures Valid()
      ensures vertexCount == n && edges == []
    {
      vertexCount := n;
      edges := [];
    }

    /** `add_edge(u, v, g)`: appends an edge of default weight 0 and returns
        its descriptor, the index of the edge in insertion order. */
    method AddEdge(u: nat, v: nat) returns (e: nat)
      requires Valid()
      modifies this
      ensures Valid()
      ensures vertexCount == Grow(old(vertexCount), u, v)
      ensures edges == old(edges) + [Edge(u, v, 0.0)]
      ensures e == |old(edges)| && e < |edges|
    {
      vertexCount := Grow(vertexCount, u, v);
      e := |edges|;
      edges := edges + [Edge(u, v, 0.0)];
    }

    /** `weightmap[e] = w`. */
    method SetWeight(e: nat, w: real)
      requires Valid() && e < |edges|
      modifies this
      ensures Valid()
      ensures vertexCount == old(vertexCount)
      ensures edges == old(edges)[e := old(edges)[e].(weight := w)]
    {
      edges := edges[e := edges[e].(weight := w)];
    }
  }

  /** The vertex id `add_edge` receives for an `int` endpoint: a negative
      `int` converts to a `size_t` near 2^64, a vertex store no allocation
      can provide. */
  function VertexId(i: int): Option<nat> {
    if i < 0 then None else Some(i)
  }

  /** The index of the first endpoint pair with a negative id, if any. */
  function FirstNegative(pairs: seq<(int, int)>): (r: Option<nat>)
    ensures r.Some? ==> r.value < |pairs| && (pairs[r.value].0 < 0 || pairs[r.value].1 < 0)
    ensures r.None? <==> NonNegative(pairs)
    ensures r.Some? ==> NonNegative(pairs[..r.value])
  {
    if pairs == [] then None
    else if pairs[0].0 < 0 || pairs[0].1 < 0 then Some(0)
    else
      var rest := FirstNegative(pairs[1..]);
      assert pairs[1..] == pairs[1..][..|pairs| - 1];
      match rest
      case None => None
      case Some(j) =>
        assert pairs[..j + 1] == [pairs[0]] + pairs[1..][..j];
        Some(j + 1)
  }

  ghost predicate NonNegative(pairs: seq<(int, int)>) {
    forall j :: 0 <= j < |pairs| ==> 0 <= pairs[j].0 && 0 <= pairs[j].1
  }

  /** The vertex count after adding every pair to a graph of `n` vertices. */
  function GrownCount(n: nat, pairs: seq<(int, int)>): nat
    requires NonNegative(pairs)
  {
    if pairs == [] then n
    else
      var last := pairs[|pairs| - 1];
      Grow(GrownCount(n, pairs[..|pairs| - 1]), last.0, last.1)
  }

  /** The edges the build loop stores: pair `j` with weight `weights[j]`. */
  function BuiltEdges(pairs: seq<(int, int)>, weights: seq<real>): (r: seq<Edge>)
    requires NonNegative(pairs) && |pairs| <= |weights|
  {
    seq(|pairs|, j requires 0 <= j < |pairs| => Edge(pairs[j].0, pairs[j].1, weights[j]))
  }

  /** The grown store is the least one that holds `n` vertices and every
      endpoint. */
  lemma {:induction false} GrownCountIsLeast(n: nat, pairs: seq<(int, int)>)
    requires NonNegative(pairs)
    ensures n <= GrownCount(n, pairs)
    ensures forall j :: 0 <= j < |pairs| ==> pairs[j].0 < GrownCount(n, pairs) && pairs[j].1 < GrownCount(n, pairs)
    ensures GrownCount(n, pairs) == n
         || exists j :: 0 <= j < |pairs| && (GrownCount(n, pairs) == pairs[j].0 + 1 || GrownCount(n, pairs) == pairs[j].1 + 1)
  {
    if pairs != [] {
      var k := |pairs| - 1;
      var front := pairs[..k];
      GrownCountIsLeast(n, front);
      assert forall j :: 0 <= j < k ==> front[j] == pairs[j];
      if GrownCount(n, pairs) != GrownCount(n, front) {
        assert GrownCount(n, pairs) == pairs[k].0 + 1 || GrownCount(n, pairs) == pairs[k].1 + 1;
      } else if GrownCount(n, front) != n {
        var j :| 0 <= j < k && (GrownCount(n, front) == front[j].0 + 1 || GrownCount(n, front) == front[j].1 + 1);
        assert front[j] == pairs[j];
      }
    }
  }

  /** When every endpoint already names one of the `n` vertices, the graph
      keeps exactly `n` vertices. */
  lemma {:induction false} GrownCountWithin(n: nat, pairs: seq<(int, int)>)
    requires NonNegative(pairs)
    requires forall j :: 0 <= j < |pairs| ==> pairs[j].0 < n && pairs[j].1 < n
    ensures GrownCount(n, pairs) == n
  {
    if pairs != [] {
      var front := pairs[..|pairs| - 1];
      assert forall j :: 0 <= j < |front| ==> front[j] == pairs[j];
      GrownCountWithin(n, front);
    }
  }

  /** The main.cpp build loop: one `add_edge` per parsed pair, in order, and
      edge `j` gets `weights[j]`. A negative id aborts the build at the
      first pair that has one. */
  method BuildGraph(n: nat, pairs: array<(int, int)>, weights: array<real>, count: nat)
    returns (g: Multigraph, failedAt: Option<nat>)
    requires count <= pairs.Length && count <= weights.Length
    ensures fresh(g) && g.Valid()
    ensures failedAt == FirstNegative(pairs[..count])
    ensures failedAt.None? ==>
      && g.vertexCount == GrownCount(n, pairs[..count])
      && g.edges == BuiltEdges(pairs[..count], weights[..count])
  {
    g := new Multigraph(n);
    var j := 0;
    while j < count
      invariant j <= count
      invariant g.Valid() && fresh(g)
      invariant NonNegative(pairs[..j])
      invariant g.vertexCount == GrownCount(n, pairs[..j])
      invariant g.edges == BuiltEdges(pairs[..j], weights[..j])
    {
      var u, v := VertexId(pairs[j].0), VertexId(pairs[j].1);
      if u.None? || v.None? {
        FirstNegativeAt(pairs[..count], j);
        failedAt := Some(j);
        return;
      }
      var e := g.AddEdge(u.value, v.value);
      g.SetWeight(e, weights[j]);
      assert pairs[..j + 1][..j] == pairs[..j];
      j := j + 1;
    }
    assert pairs[..count] == pairs[..j];
    failedAt := None;
  }

  /** The first negative pair is the first one after a non-negative prefix. */
  lemma FirstNegativeAt(pairs: seq<(int, int)>, j: nat)
    requires j < |pairs| && NonNegative(pairs[..j]) && (pairs[j].0 < 0 || pairs[j].1 < 0)
    ensures FirstNegative(pairs) == Some(j)
  {
    var r := FirstNegative(pairs);
    assert !NonNegative(pairs);
    assert forall k :: 0 <= k < j ==> pairs[..j][k] == pairs[k];
    assert forall k :: 0 <= k < r.value ==> pairs[..r.value][k] == pairs[k];
  }

  /** `out_edges(v, g)` of the undirected graph: for each edge touching
      `v`, in insertion order, the other endpoint and the weight. A self-loop
      is listed twice, once from each of its two ends. */
  function OutEdges(edges: seq<Edge>, v: nat): (r: seq<(nat, real)>)
    ensures |r| <= 2 * |edges|
  {
    if edges == [] then []
    else
      var e := edges[|edges| - 1];
      OutEdges(edges[..|edges| - 1], v)
        + (if e.source == v then [(e.target, e.weight)] else [])
        + (if e.target == v then [(e.source, e.weight)] else [])
  }

  /** An out-edge of `v` towards `w` exists exactly when some edge joins `v`
      and `w` with that weight, in either direction. */
  lemma {:induction false} OutEdgesIff(edges: seq<Edge>, v: nat, w: nat, c: real)
    ensures (w, c) in OutEdges(edges, v)
        <==> exists j :: 0 <= j < |edges| && edges[j].weight == c
               && ((edges[j].source == v && edges[j].target == w) || (edges[j].target == v && edges[j].source == w))
  {
    if edges != [] {
      var k := |edges| - 1;
      var front := edges[..k];
      OutEdgesIff(front, v, w, c);
      assert forall j :: 0 <= j < k ==> front[j] == edges[j];
      if (w, c) in OutEdges(edges, v) && (w, c) !in OutEdges(front, v) {
        assert edges[k].weight == c;
      }
    }
  }

  /** The graph is undirected: `w` is a neighbour of `v` with weight `c`
      exactly when `v` is one of `w`. */
  lemma OutEdgesSymmetric(edges: seq<Edge>, v: nat, w: nat, c: real)
    ensures (w, c) in OutEdges(edges, v) <==> (v, c) in OutEdges(edges, w)
  {
    OutEdgesIff(edges, v, w, c);
    OutEdgesIff(edges, w, v, c);
  }

  /** Every out-edge of a vertex of a closed graph leads to a vertex. */
  lemma {:induction false} OutEdgesClosed(vertexCount: nat, edges: seq<Edge>, v: nat)
    requires Closed(vertexCount, edges)
    ensures forall k :: 0 <= k < |OutEdges(edges, v)| ==> OutEdges(edges, v)[k].0 < vertexCount
  {
    if edges != [] {
      var front := edges[..|edges| - 1];
      assert Closed(vertexCount, front) by {
        assert forall j :: 0 <= j < |front| ==> front[j] == edges[j];
      }
      OutEdgesClosed(vertexCount, front, v);
    }
  }

  /** Edge `e` joins `a` and `b`, in one direction or the other. */
  predicate Joins(e: Edge, a: nat, b: nat) {
    (e.source == a && e.target == b) || (e.source == b && e.target == a)
  }

  /** Some edge joins `a` and `b`. */
  ghost predicate Joined(edges: seq<Edge>, a: nat, b: nat) {
    exists j :: 0 <= j < |edges| && Joins(edges[j], a, b)
  }

  /** Some edge of weight `c` joins `a` and `b`. */
  ghost predicate JoinedBy(edges: seq<Edge>, a: nat, b: nat, c: real) {
    exists j :: 0 <= j < |edges| && Joins(edges[j], a, b) && edges[j].weight == c
  }

  /** Every out-edge of `v` follows an edge of the graph, with its weight. */
  lemma OutEdgesJoined(edges: seq<Edge>, v: nat)
    ensures forall k :: 0 <= k < |OutEdges(edges, v)| ==>
      JoinedBy(edges, v, OutEdges(edges, v)[k].0, OutEdges(edges, v)[k].1)
  {
    var out := OutEdges(edges, v);
    forall k | 0 <= k < |out|
      ensures JoinedBy(edges, v, out[k].0, out[k].1)
    {
      assert out[k] in out;
      OutEdgesIff(edges, v, out[k].0, out[k].1);
    }
  }

  /** Every edge at `v` shows up among the out-edges of `v`. */
  lemma JoinedOut(edges: seq<Edge>, v: nat, w: nat)
    requires Joined(edges, v, w)
    ensures exists k :: 0 <= k < |OutEdges(edges, v)| && OutEdges(edges, v)[k].0 == w
  {
    var j :| 0 <= j < |edges| && Joins(edges[j], v, w);
    OutEdgesIff(edges, v, w, edges[j].weight);
    var out := OutEdges(edges, v);
    var k :| 0 <= k < |out| && out[k] == (w, edges[j].weight);
  }

  /** Consecutive vertices of `path` share an edge. */
  ghost predicate IsWalk(edges: seq<Edge>, path: seq<nat>) {
    forall j :: 0 <= j < |path| - 1 ==> Joined(edges, path[j], path[j + 1])
  }

  /** `chain` names, for each step of `path`, an edge joining its two ends. */
  ghost predicate IsChain(edges: seq<Edge>, path: seq<nat>, chain: seq<nat>) {
    && |chain| + 1 == |path|
    && forall i :: 0 <= i < |chain| ==> chain[i] < |edges| && Joins(edges[chain[i]], path[i], path[i + 1])
  }

  /** The total weight of the edges `chain` names. */
  function ChainWeight(edges: seq<Edge>, chain: seq<nat>): real
    requires forall i :: 0 <= i < |chain| ==> chain[i] < |edges|
  {
    if chain == [] then 0.0 else edges[chain[0]].weight + ChainWeight(edges, chain[1..])
  }

  /** Some walk leads from `a` to `b`. */
  ghost predicate Connected(edges: seq<Edge>, a: nat, b: nat) {
    exists path :: IsWalk(edges, path) && path != [] && path[0] == a && path[|path| - 1] == b
  }

  /** A set of vertices that holds `path[0]` and every neighbour of each
      of its vertices holds the whole walk. */
  lemma {:induction false} WalkStaysInside(edges: seq<Edge>, inside: seq<nat>, path: seq<nat>)
    requires forall x, y :: x in inside && Joined(edges, x, y) ==> y in inside
    requires IsWalk(edges, path) && path != [] && path[0] in inside
    ensures path[|path| - 1] in inside
  {
    if |path| > 1 {
      var front := path[..|path| - 1];
      assert IsWalk(edges, front) by {
        assert forall j :: 0 <= j < |front| ==> front[j] == path[j];
      }
      WalkStaysInside(edges, inside, front);
      assert Joined(edges, path[|path| - 2], path[|path| - 1]);
    }
  }
}
