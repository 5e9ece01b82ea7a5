/**
  The whole of main.cpp without its I/O: the two passes over the graph
  file, the graph built from their tables, and the two searches from the
  start to the goal, the first with the Euclidean heuristic and the second
  with the Manhattan one, each followed by the reconstruction of the route
  and the list of node ids it prints.
 */
module Pipeline {
  import opened Text
  import opened Geometry
  import opened DotParser
  import G = Graph
  import P = Predecessors
  import A = AStar

  /** The weight table after pass 2: the weights read, in the order of the
      weighted edge lines, then the zeros the allocation left. */
  function Padded(weights: seq<real>, n: nat): seq<real>
    requires |weights| <= n
  {
    weights + seq(n - |weights|, _ => 0.0)
  }

  /** The edges of the graph built from the tables of pass 2. */
  function GraphEdges(t: Tables): seq<G.Edge>
    requires G.NonNegative(t.edges) && |t.weights| <= |t.edges|
  {
    G.BuiltEdges(t.edges, Padded(t.weights, |t.edges|))
  }

  /** Edge `j` of the graph joins the endpoints of the `j`-th edge line
      and carries the weight of the `j`-th edge line WITH a comma, or zero
      when there are fewer such lines: an edge line without a weight shifts
      every later weight onto an earlier edge. */
  lemma GraphEdgeWeight(lines: seq<string>, j: nat)
    requires ParseLines(lines).Ok?
    requires var t := ParseLines(lines).value; G.NonNegative(t.edges) && |t.weights| <= |t.edges|
    requires j < |EdgeLines(lines)|
    ensures var t := ParseLines(lines).value;
      && j < |t.edges|
      && var e := GraphEdges(t)[j];
      && EdgeEndpoints(EdgeLines(lines)[j]) == Ok((e.source as int, e.target as int))
      && (j < |WeightedLines(lines)| ==> EdgeWeight(WeightedLines(lines)[j]) == Ok(e.weight))
      && (|WeightedLines(lines)| <= j ==> e.weight == 0.0)
  {
    ParseLinesContents(lines);
  }

  /** A route answer: the route runs from the start to the goal along edges
      of the graph, the printed ids are the node ids of its vertices, and
      the printed time is not negative and is at least the weight of some
      chain of edges along the route. An answer that there is no route: no
      walk leads from the start to the goal. */
  ghost predicate Sound(edges: seq<G.Edge>, nodes: seq<int>, s: nat, goal: nat, a: Answer) {
    && (a.Route? ==>
         && a.vertices != [] && a.vertices[0] == s && a.vertices[|a.vertices| - 1] == goal
         && (forall j :: 0 <= j < |a.vertices| - 1 ==> G.Joined(edges, a.vertices[j + 1], a.vertices[j]))
         && |a.names| == |a.vertices| && 0.0 <= a.time
         && (exists chain :: G.IsChain(edges, a.vertices, chain) && G.ChainWeight(edges, chain) <= a.time)
         && (forall j :: 0 <= j < |a.vertices| ==> a.vertices[j] < |nodes| && a.names[j] == nodes[a.vertices[j]]))
    && (a.NoRoute? ==> !G.Connected(edges, s, goal))
  }

  /** A sound answer tells exactly whether the goal can be reached: a route
      is found only when a walk to the goal exists, and "no route" only
      when none does. */
  lemma SoundAnswerExact(edges: seq<G.Edge>, nodes: seq<int>, s: nat, goal: nat, a: Answer)
    requires Sound(edges, nodes, s, goal, a) && !a.Unfinished?
    ensures a.Route? <==> G.Connected(edges, s, goal)
  {
    if a.Route? {
      var path := a.vertices;
      forall j | 0 <= j < |path| - 1
        ensures G.Joined(edges, path[j], path[j + 1])
      {
        assert G.Joined(edges, path[j + 1], path[j]);
      }
      assert G.IsWalk(edges, path);
    }
  }

  datatype Answer =
    | Route(vertices: seq<nat>, names: seq<int>, time: real)  // found_goal was thrown
    | NoRoute                                                // the search ended without it
    | Unfinished                                             // the bound on pops was reached

  datatype Report =
    | ParseFailed(error: Error)                   // stoi or substr threw in pass 2
    | LocationOutOfRange                          // a vertex has no coordinates for the heuristic
    | NegativeWeight(before: Option<Answer>)      // a search threw negative_edge
    | Answered(euclidean: Answer, manhattan: Answer)

  /** The output loop: the start's node id, then the node id of every
      vertex of the route after the first. */
  method Display(nodes: array<int>, s: nat, path: seq<nat>) returns (names: seq<int>)
    requires s < nodes.Length && path != []
    requires forall j :: 0 <= j < |path| ==> path[j] < nodes.Length
    ensures |names| == |path| && names[0] == nodes[s]
    ensures forall j :: 1 <= j < |path| ==> names[j] == nodes[path[j]]
  {
    names := [nodes[s]];
    var i := 1;
    while i < |path|
      invariant 1 <= i <= |path| && |names| == i && names[0] == nodes[s]
      invariant forall j :: 1 <= j < i ==> names[j] == nodes[path[j]]
    {
      names := names + [nodes[path[i]]];
      i := i + 1;
    }
  }

  /** One `try` block of main.cpp: the search, and when it throws
      `found_goal`, the reconstruction and the output. */
  method SearchOnce(g: G.Multigraph, s: nat, goal: nat, h: nat -> real, pick: seq<A.Entry> -> nat, fuel: nat,
                    p: array<nat>, d: array<A.Cost>, nodes: array<int>)
    returns (negative: bool, answer: Answer)
    requires g.Valid() && s < g.vertexCount && goal < g.vertexCount && g.vertexCount <= nodes.Length
    requires p.Length == g.vertexCount && d.Length == g.vertexCount
    requires A.IsMinPicker(pick)
    modifies p, d
    ensures !negative ==> Sound(g.edges, nodes[..], s, goal, answer)
    ensures negative ==> answer == NoRoute
  {
    var outcome, examined := A.Search(g, s, goal, h, pick, fuel, p, d);
    negative := outcome.NegativeEdge?;
    match outcome
    case GoalFound =>
      assert examined[|examined| - 1] in examined;
      var path := P.ReconstructPath(p[..], goal);
      A.RouteFromStart(g.edges, s, p[..], d[..], goal, path);
      var names := Display(nodes, s, path);
      answer := Route(path, names, d[goal].value);
    case Exhausted =>
      answer := NoRoute;
    case NegativeEdge =>
      answer := NoRoute;
    case OutOfFuel =>
      answer := Unfinished;
  }

  /** Pass 1, the allocation and pass 2. On success the tables are full,
      and the weight table holds the weights read followed by zeros. */
  method ReadTables(lines: seq<string>)
    returns (r: Result<Counters>, locations: array<Location>, weights: array<real>,
             edgeArray: array<(int, int)>, nodes: array<int>)
    ensures fresh(locations) && fresh(weights) && fresh(edgeArray) && fresh(nodes)
    ensures r.Err? ==> ParseLines(lines) == Err(r.error)
    ensures r.Ok? ==> ParseLines(lines).Ok?
    ensures r.Ok? ==>
      var t := ParseLines(lines).value;
      && r.value == Counters(|t.weights|, |t.locations|, |t.nodes|, |t.edges|)
      && |t.locations| == |t.nodes| == |PositionLines(lines)| && |t.weights| <= |t.edges|
      && locations[..] == t.locations && nodes[..] == t.nodes && edgeArray[..] == t.edges
      && weights[..] == Padded(t.weights, |t.edges|)
  {
    var weightCount, posCount, nodeCount, edgeCount := CountTags(lines);
    locations, weights, edgeArray, nodes := AllocateTables(posCount, weightCount, edgeCount, nodeCount);
    r := FillTables(lines, locations, weights, edgeArray, nodes);
    if r.Ok? {
      ghost var t := ParseLines(lines).value;
      WeightedFewer(lines);
      ParseLinesContents(lines);
      assert weights[..] == weights[..|t.weights|] + weights[|t.weights|..];
    }
  }

  /** Both searches of main.cpp over a built graph, with the coordinate
      table `locs` for the heuristics and the node ids `nodes` for the
      output. */
  method SearchBoth(g: G.Multigraph, locs: seq<Location>, nodes: array<int>, start: nat, goal: nat,
                    root: real -> real, pick: seq<A.Entry> -> nat, fuel: nat)
    returns (report: Report)
    requires g.Valid() && start < g.vertexCount && goal < g.vertexCount
    requires g.vertexCount <= |locs| && g.vertexCount <= nodes.Length
    requires IsSquareRoot(root) && A.IsMinPicker(pick)
    ensures report.NegativeWeight? || report.Answered?
    ensures report.NegativeWeight? ==> report.before.Some? ==> Sound(g.edges, nodes[..], start, goal, report.before.value)
    ensures report.Answered? ==>
      && Sound(g.edges, nodes[..], start, goal, report.euclidean)
      && Sound(g.edges, nodes[..], start, goal, report.manhattan)
  {
    var p := new nat[g.vertexCount](_ => 0);
    var d := new A.Cost[g.vertexCount](_ => A.Finite(0.0));
    var euclidean := (u: nat) => if u < |locs| && goal < |locs| then Euclidean(root, locs, goal, u) else 0.0;
    var manhattan := (u: nat) => if u < |locs| && goal < |locs| then Manhattan(locs, goal, u) else 0.0;
    var negative, first := SearchOnce(g, start, goal, euclidean, pick, fuel, p, d, nodes);
    if negative {
      report := NegativeWeight(None);
      return;
    }
    var second;
    negative, second := SearchOnce(g, start, goal, manhattan, pick, fuel, p, d, nodes);
    if negative {
      report := NegativeWeight(Some(first));
      return;
    }
    report := Answered(first, second);
  }

  /** main.cpp from the first pass to the second search. `start` and
      `goal` are the vertices the prompts accept, node indices below
      `nodeCounter`; prompts come only after pass 2 has read the file. No
      endpoint can be negative, so the graph is always built. */
  method Run(lines: seq<string>, start: nat, goal: nat, root: real -> real, pick: seq<A.Entry> -> nat, fuel: nat)
    returns (report: Report)
    requires IsSquareRoot(root) && A.IsMinPicker(pick)
    requires forall k :: 0 <= k < |lines| ==> |lines[k]| < MAX_SIZE
    requires ParseLines(lines).Ok? ==> start < |PositionLines(lines)| && goal < |PositionLines(lines)|
    ensures report.ParseFailed? <==> ParseLines(lines).Err?
    ensures report.ParseFailed? ==> ParseLines(lines) == Err(report.error)
    ensures !report.ParseFailed? ==>
      var t := ParseLines(lines).value;
      && G.NonNegative(t.edges) && |t.weights| <= |t.edges|
      && (report.LocationOutOfRange? <==> |t.locations| < G.GrownCount(|t.nodes|, t.edges))
      && (report.NegativeWeight? ==> report.before.Some? ==> Sound(GraphEdges(t), t.nodes, start, goal, report.before.value))
      && (report.Answered? ==>
            && Sound(GraphEdges(t), t.nodes, start, goal, report.euclidean)
            && Sound(GraphEdges(t), t.nodes, start, goal, report.manhattan))
  {
    var filled, locations, weights, edgeArray, nodes := ReadTables(lines);
    if filled.Err? {
      report := ParseFailed(filled.error);
      return;
    }
    ghost var t := ParseLines(lines).value;
    var c := filled.value;
    assert edgeArray[..c.edgeCounter] == edgeArray[..] && weights[..c.edgeCounter] == weights[..];
    ParsedEndpointsNonNegative(lines);
    var g, failedAt := G.BuildGraph(c.nodeCounter, edgeArray, weights, c.edgeCounter);
    assert failedAt.None?;
    if locations.Length < g.vertexCount {
      report := LocationOutOfRange;
      return;
    }
    G.GrownCountIsLeast(c.nodeCounter, t.edges);
    report := SearchBoth(g, locations[..], nodes, start, goal, root, pick, fuel);
  }
}
