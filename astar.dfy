/**
  The search main.cpp runs twice: Boost's `astar_search_tree` on the
  undirected road graph, with a visitor whose `examine_vertex` throws
  `found_goal` when the goal vertex comes off the queue.

  `astar_search_tree` is library code; it is modelled here as the Boost
  tree variant works: every distance starts at infinity and every vertex
  is its own predecessor, the start gets distance zero and is queued, and
  then, until the queue is empty, an entry of least rank (distance plus
  heuristic) is popped and examined and each of its out-edges is checked
  for a negative weight and relaxed, queueing the vertex whose distance
  dropped. There is no closed set: a vertex may be queued and examined
  more than once. Which of several least entries the heap yields is left
  open (a `pick` parameter), and the loop is bounded by `fuel` pops.
 */
module AStar {
  import G = Graph
  import P = Predecessors

  /** A `cost` distance: `closed_plus` treats the largest float as an
      absorbing infinity. */
  datatype Cost = Infinite | Finite(value: real)

  /** `closed_plus`: the sum, or infinity when either side is infinite. */
  function Combine(a: Cost, b: Cost): Cost {
    if a.Infinite? || b.Infinite? then Infinite else Finite(a.value + b.value)
  }

  /** `std::less` on distances, infinity being the largest value. */
  predicate Less(a: Cost, b: Cost) {
    a.Finite? && (b.Infinite? || a.value < b.value)
  }

  /** A queue entry: a rank and the vertex queued with it. */
  datatype Entry = Entry(rank: Cost, vertex: nat)

  /** Entry `i` has a least rank in `q`. */
  predicate IsLeast(q: seq<Entry>, i: nat)
    requires i < |q|
  {
    forall k :: 0 <= k < |q| ==> !Less(q[k].rank, q[i].rank)
  }

  /** `pick` stands for the heap's `top()`: an entry of least rank. */
  ghost predicate IsMinPicker(pick: seq<Entry> -> nat) {
    forall q: seq<Entry> :: q != [] ==> pick(q) < |q| && IsLeast(q, pick(q))
  }

  datatype Outcome =
    | GoalFound     // `examine_vertex` threw `found_goal`
    | Exhausted     // the queue ran empty without examining the goal
    | NegativeEdge  // an out-edge of negative weight threw `negative_edge`
    | OutOfFuel     // the bound on pops was reached

  /** `astar_goal_visitor::examine_vertex`: the search stops at `u`
      exactly when `u` is the goal. */
  predicate StopsAt(goal: nat, u: nat) {
    u == goal
  }

  /** The state a tree search keeps while all weights met are
      non-negative: the start has distance zero and is its own
      predecessor, no distance is negative, every other vertex is its own
      predecessor exactly while its distance is infinite, and every
      predecessor names a vertex. */
  ghost predicate Tree(s: nat, p: seq<nat>, d: seq<Cost>) {
    && |p| == |d| && s < |p|
    && p[s] == s && d[s] == Finite(0.0)
    && forall v :: 0 <= v < |p| ==>
         && p[v] < |p|
         && (d[v].Finite? ==> 0.0 <= d[v].value)
         && (v != s ==> (p[v] == v <==> d[v].Infinite?))
  }

  /** The state after the initialisation loop of `astar_search_tree`. */
  ghost predicate Initial(s: nat, p: seq<nat>, d: seq<Cost>) {
    && |p| == |d| && s < |p|
    && forall v :: 0 <= v < |p| ==> p[v] == v && d[v] == (if v == s then Finite(0.0) else Infinite)
  }

  lemma InitialIsTree(s: nat, p: seq<nat>, d: seq<Cost>)
    requires Initial(s, p, d)
    ensures Tree(s, p, d) && Monotone(p, d) && P.Rooted(p)
  {
    P.IdentityRooted(p);
  }

  /** No vertex is closer to the start than its predecessor. */
  ghost predicate Monotone(p: seq<nat>, d: seq<Cost>) {
    |p| == |d| && forall y {:trigger d[p[y]]} :: 0 <= y < |p| && p[y] < |d| ==> !Less(d[y], d[p[y]])
  }

  /** Along a walk through the predecessors the distances never grow. */
  lemma {:induction false} ChainMonotone(p: seq<nat>, d: seq<Cost>, x: nat, m: nat)
    requires P.Closed(p) && Monotone(p, d) && x < |p|
    ensures !Less(d[x], d[P.Iter(p, x, m)])
  {
    if m > 0 {
      ChainMonotone(p, d, x, m - 1);
      var y := P.Iter(p, x, m - 1);
      assert !Less(d[y], d[p[y]]);
    }
  }

  /** A relaxation over a non-negative weight keeps distances monotone
      along the predecessors and every predecessor walk finite: the
      reconstruction of a route always ends. */
  lemma RelaxKeepsRooted(s: nat, p: seq<nat>, d: seq<Cost>, u: nat, v: nat, c: real)
    requires Tree(s, p, d) && Monotone(p, d) && P.Rooted(p)
    requires u < |p| && v < |p| && 0.0 <= c && d[u].Finite?
    ensures var r := Relax(p, d, u, v, c); Monotone(r.p, r.d) && P.Rooted(r.p)
  {
    var through := Combine(d[u], Finite(c));
    var back := Combine(d[v], Finite(c));
    if Less(through, d[v]) {
      Redirect(p, d, v, u, through);
    } else if Less(back, d[u]) {
      Redirect(p, d, u, v, back);
    }
  }

  /** Pointing `a` at `b` with the new distance `e`, no larger than the
      distance of `b` and smaller than the old one of `a`. */
  lemma Redirect(p: seq<nat>, d: seq<Cost>, a: nat, b: nat, e: Cost)
    requires P.Rooted(p) && Monotone(p, d) && a < |p| && b < |p|
    requires !Less(e, d[b]) && Less(e, d[a])
    ensures Monotone(p[a := b], d[a := e]) && P.Rooted(p[a := b])
  {
    forall m: nat
      ensures P.Iter(p, b, m) != a
    {
      ChainMonotone(p, d, b, m);
    }
    P.RedirectKeepsRooted(p, a, b);
  }

  datatype Relaxation = Relaxation(p: seq<nat>, d: seq<Cost>, decreased: bool)

  /** Boost's `relax` on an undirected edge `u -- v` of weight `c`: first
      towards `v`, and only if that fails towards `u`. (Boost compares the
      stored distance once more after the store, to catch rounding; on
      reals that comparison always succeeds.) */
  function Relax(p: seq<nat>, d: seq<Cost>, u: nat, v: nat, c: real): (r: Relaxation)
    requires |p| == |d| && u < |p| && v < |p|
    ensures |r.p| == |p| && |r.d| == |d|
    ensures forall k :: 0 <= k < |p| && k != u && k != v ==> r.p[k] == p[k] && r.d[k] == d[k]
    ensures !r.decreased ==> r.p == p && r.d == d
  {
    var through := Combine(d[u], Finite(c));
    var back := Combine(d[v], Finite(c));
    if Less(through, d[v]) then Relaxation(p[v := u], d[v := through], true)
    else if Less(back, d[u]) then Relaxation(p[u := v], d[u := back], true)
    else Relaxation(p, d, false)
  }

  /** A relaxation over a non-negative weight keeps the tree state, never
      raises a distance, leaves finite distances at both ends, and gives a
      finite distance to no vertex but `v`, and to `v` only when it reports
      a decrease. */
  lemma RelaxKeepsTree(s: nat, p: seq<nat>, d: seq<Cost>, u: nat, v: nat, c: real)
    requires Tree(s, p, d) && u < |p| && v < |p| && 0.0 <= c && d[u].Finite?
    ensures var r := Relax(p, d, u, v, c);
      && Tree(s, r.p, r.d)
      && |r.d| == |d|
      && (forall k :: 0 <= k < |d| ==> !Less(d[k], r.d[k]))
      && r.d[u].Finite? && r.d[v].Finite?
      && NewlyReached(d, r.d, v, r.decreased)
  {
  }

  /** After a relaxation over a non-negative weight neither direction of
      the edge can be relaxed again. */
  lemma RelaxSettlesEdge(p: seq<nat>, d: seq<Cost>, u: nat, v: nat, c: real)
    requires |p| == |d| && u < |p| && v < |p| && 0.0 <= c
    ensures var r := Relax(p, d, u, v, c);
      !Less(Combine(r.d[u], Finite(c)), r.d[v]) && !Less(Combine(r.d[v], Finite(c)), r.d[u])
  {
  }

  /** A relaxation lowers a distance, on one end of the edge, exactly
      when it reports a decrease. */
  lemma RelaxDecreasesIff(p: seq<nat>, d: seq<Cost>, u: nat, v: nat, c: real)
    requires |p| == |d| && u < |p| && v < |p| && 0.0 <= c
    ensures var r := Relax(p, d, u, v, c);
      r.decreased <==> Less(r.d[u], d[u]) || Less(r.d[v], d[v])
  {
  }

  /** Boost's initialisation: every distance infinite and every vertex its
      own predecessor, then distance zero at the start. */
  method Initialize(p: array<nat>, d: array<Cost>, s: nat)
    requires p.Length == d.Length && s < p.Length
    modifies p, d
    ensures Initial(s, p[..], d[..])
  {
    for v := 0 to p.Length
      invariant forall k :: 0 <= k < v ==> p[k] == k && d[k] == Infinite
    {
      p[v] := v;
      d[v] := Infinite;
    }
    d[s] := Finite(0.0);
  }

  method RelaxEdge(p: array<nat>, d: array<Cost>, u: nat, v: nat, c: real) returns (decreased: bool)
    requires p.Length == d.Length && u < p.Length && v < p.Length
    modifies p, d
    ensures var r := Relax(old(p[..]), old(d[..]), u, v, c);
      p[..] == r.p && d[..] == r.d && decreased == r.decreased
  {
    var through := Combine(d[u], Finite(c));
    var back := Combine(d[v], Finite(c));
    if Less(through, d[v]) {
      d[v] := through;
      p[v] := u;
      decreased := true;
    } else if Less(back, d[u]) {
      d[u] := back;
      p[u] := v;
      decreased := true;
    } else {
      decreased := false;
    }
  }

  /** Once the goal has a finite distance, the route the predecessors
      give it starts at the start vertex and follows edges of the graph,
      and some chain of edges along it weighs no more than the goal's
      distance. */
  lemma RouteFromStart(edges: seq<G.Edge>, s: nat, p: seq<nat>, d: seq<Cost>, goal: nat, path: seq<nat>)
    requires Searching(edges, s, p, d) && goal < |p| && d[goal].Finite?
    requires P.IsRoute(p, goal, path)
    ensures path[0] == s
    ensures forall j :: 0 <= j < |path| - 1 ==> G.Joined(edges, path[j + 1], path[j])
    ensures exists chain :: G.IsChain(edges, path, chain) && G.ChainWeight(edges, chain) <= d[goal].value
  {
    P.RouteIsWalk(p, goal, path, |path| - 1);
    ChainMonotone(p, d, goal, |path| - 1);
    assert path[0] == path[|path| - 1 - (|path| - 1)];
    forall j | 0 <= j < |path| - 1
      ensures G.Joined(edges, path[j + 1], path[j])
    {
      var x := path[j + 1];
      assert p[x] != x && p[x] == path[j] && Leads(edges, d, p[x], x);
      var i :| 0 <= i < |edges| && G.Joins(edges[i], p[x], x) && !Less(d[x], Combine(d[p[x]], Finite(edges[i].weight)));
      assert G.Joins(edges[i], x, p[x]);
    }
    var chain := SuffixChain(edges, s, p, d, goal, path, 0);
    assert path[0..] == path;
  }

  /** From `path[i]` on, the route has a chain of edges whose weight, added
      to the distance of `path[i]`, is at most the distance of the goal. */
  lemma {:induction false} SuffixChain(edges: seq<G.Edge>, s: nat, p: seq<nat>, d: seq<Cost>, goal: nat,
                                       path: seq<nat>, i: nat)
    returns (chain: seq<nat>)
    requires Searching(edges, s, p, d) && goal < |p| && d[goal].Finite? && P.IsRoute(p, goal, path) && i < |path|
    ensures d[path[i]].Finite? && G.IsChain(edges, path[i..], chain)
    ensures G.ChainWeight(edges, chain) + d[path[i]].value <= d[goal].value
    decreases |path| - i
  {
    if i == |path| - 1 {
      chain := [];
    } else {
      var rest := SuffixChain(edges, s, p, d, goal, path, i + 1);
      var x := path[i + 1];
      assert p[x] != x && p[x] == path[i] && Leads(edges, d, p[x], x);
      var j :| 0 <= j < |edges| && G.Joins(edges[j], path[i], x) && !Less(d[x], Combine(d[path[i]], Finite(edges[j].weight)));
      chain := [j] + rest;
      assert chain[1..] == rest;
      forall k | 0 <= k < |chain|
        ensures chain[k] < |edges| && G.Joins(edges[chain[k]], path[i..][k], path[i..][k + 1])
      {
        if k > 0 {
          assert chain[k] == rest[k - 1];
          assert path[i..][k] == path[i + 1..][k - 1] && path[i..][k + 1] == path[i + 1..][k];
        }
      }
    }
  }

  /** `astar_search_tree(g, s, h, ...)` with the goal visitor, from start
      `s` towards `goal`, with heuristic `h`, on at most `fuel` pops.
      `examined` lists the vertices in the order `examine_vertex` saw them:
      the search reports the goal exactly when it examined it, and then
      the goal is the last vertex examined. */
  method Search(g: G.Multigraph, s: nat, goal: nat, h: nat -> real, pick: seq<Entry> -> nat,
                fuel: nat, p: array<nat>, d: array<Cost>)
    returns (outcome: Outcome, examined: seq<nat>)
    requires g.Valid() && s < g.vertexCount && goal < g.vertexCount
    requires p.Length == g.vertexCount && d.Length == g.vertexCount
    requires IsMinPicker(pick)
    modifies p, d
    ensures Searching(g.edges, s, p[..], d[..])
    ensures outcome.GoalFound? <==> goal in examined
    ensures outcome.GoalFound? ==> examined[|examined| - 1] == goal && goal !in examined[..|examined| - 1]
    ensures outcome.OutOfFuel? ==> |examined| == fuel
    ensures outcome.Exhausted? ==> !G.Connected(g.edges, s, goal)
    ensures forall k :: 0 <= k < |examined| ==> examined[k] < g.vertexCount && d[examined[k]].Finite?
  {
    Initialize(p, d, s);
    InitialIsTree(s, p[..], d[..]);
    assert Linked(g.edges, p[..], d[..]);
    outcome, examined := SearchNoInit(g, s, goal, h, pick, fuel, p, d);
  }

  /** The search loop proper, from a state in which only `s` is reached:
      pop a least-ranked entry, stop at the goal, expand the vertex. */
  method SearchNoInit(g: G.Multigraph, s: nat, goal: nat, h: nat -> real, pick: seq<Entry> -> nat,
                      fuel: nat, p: array<nat>, d: array<Cost>)
    returns (outcome: Outcome, examined: seq<nat>)
    requires g.Valid() && s < g.vertexCount && goal < g.vertexCount
    requires p.Length == g.vertexCount && d.Length == g.vertexCount
    requires IsMinPicker(pick)
    requires Searching(g.edges, s, p[..], d[..]) && OnlyStart(s, d[..])
    modifies p, d
    ensures Searching(g.edges, s, p[..], d[..])
    ensures outcome.GoalFound? <==> goal in examined
    ensures outcome.GoalFound? ==> examined[|examined| - 1] == goal && goal !in examined[..|examined| - 1]
    ensures outcome.OutOfFuel? ==> |examined| == fuel
    ensures outcome.Exhausted? ==> !G.Connected(g.edges, s, goal)
    ensures forall k :: 0 <= k < |examined| ==> examined[k] < g.vertexCount && d[examined[k]].Finite?
  {
    var queue := [Entry(Combine(d[s], Finite(h(s))), s)];
    examined := [];
    assert queue[0].vertex == s && Queued(queue, s);
    while queue != []
      invariant Searching(g.edges, s, p[..], d[..])
      invariant QueuedReached(d[..], queue) && Reached(d[..], examined)
      invariant goal !in examined && |examined| <= fuel
      invariant Covered(d[..], examined, queue) && Expanded(g.edges, d[..], examined)
      decreases fuel - |examined|
    {
      if |examined| == fuel {
        outcome := OutOfFuel;
        return;
      }
      var v, negative;
      v, negative, queue := Step(g, s, goal, h, pick, p, d, queue, examined);
      ghost var before := examined;
      examined := examined + [v];
      if StopsAt(goal, v) {
        assert examined[..|examined| - 1] == before;
        outcome := GoalFound;
        return;
      }
      if negative {
        outcome := NegativeEdge;
        return;
      }
    }
    ExhaustedUnreachable(g.edges, s, d[..], examined, goal);
    outcome := Exhausted;
  }

  /** One round of the search loop: pop an entry of least rank and examine
      its vertex `v`; unless `v` is the goal, expand it. */
  method Step(g: G.Multigraph, s: nat, goal: nat, h: nat -> real, pick: seq<Entry> -> nat,
              p: array<nat>, d: array<Cost>, queue: seq<Entry>, ghost examined: seq<nat>)
    returns (v: nat, negative: bool, rest: seq<Entry>)
    requires g.Valid() && s < g.vertexCount
    requires p.Length == g.vertexCount && d.Length == g.vertexCount
    requires IsMinPicker(pick) && queue != []
    requires Searching(g.edges, s, p[..], d[..])
    requires QueuedReached(d[..], queue) && Reached(d[..], examined)
    requires Covered(d[..], examined, queue) && Expanded(g.edges, d[..], examined)
    modifies p, d
    ensures pick(queue) < |queue| && v == queue[pick(queue)].vertex
    ensures Searching(g.edges, s, p[..], d[..])
    ensures QueuedReached(d[..], rest) && Reached(d[..], examined + [v])
    ensures v != goal && !negative ==>
      Covered(d[..], examined + [v], rest) && Expanded(g.edges, d[..], examined + [v])
  {
    var i := pick(queue);
    v := queue[i].vertex;
    PopKeepsReached(d[..], queue, i);
    PopKeepsCovered(d[..], examined, queue, i);
    rest := queue[..i] + queue[i + 1..];
    if StopsAt(goal, v) {
      negative := false;
      return;
    }
    G.OutEdgesClosed(g.vertexCount, g.edges, v);
    G.OutEdgesJoined(g.edges, v);
    ghost var reached := d[..];
    negative, rest := ExpandVertex(g.edges, s, v, G.OutEdges(g.edges, v), h, p, d, rest, examined + [v]);
    if !negative {
      ExpandedStep(g.edges, reached, d[..], examined, v);
    }
  }

  /** `w` is the far end of one of the out-edges `out`. */
  ghost predicate IsNeighbour(out: seq<(nat, real)>, w: nat) {
    exists i :: 0 <= i < |out| && out[i].0 == w
  }

  /** The invariant of the search loop. */
  ghost predicate Searching(edges: seq<G.Edge>, s: nat, p: seq<nat>, d: seq<Cost>) {
    Tree(s, p, d) && Monotone(p, d) && P.Rooted(p) && Linked(edges, p, d)
  }

  /** Every vertex that has a predecessor other than itself shares an edge
      with it, and its distance is at least the predecessor's plus the
      weight of that edge. */
  ghost predicate Linked(edges: seq<G.Edge>, p: seq<nat>, d: seq<Cost>) {
    && |p| == |d| && P.Closed(p)
    && forall x {:trigger Leads(edges, d, p[x], x)} :: 0 <= x < |p| && p[x] != x ==> Leads(edges, d, p[x], x)
  }

  /** Some edge joins `a` and `b` whose weight added to the distance of
      `a` is at most the distance of `b`. */
  ghost predicate Leads(edges: seq<G.Edge>, d: seq<Cost>, a: nat, b: nat)
    requires a < |d| && b < |d|
  {
    exists j :: 0 <= j < |edges| && G.Joins(edges[j], a, b) && !Less(d[b], Combine(d[a], Finite(edges[j].weight)))
  }

  /** Every vertex of `vs` has a finite distance. */
  ghost predicate Reached(d: seq<Cost>, vs: seq<nat>) {
    forall k :: 0 <= k < |vs| ==> vs[k] < |d| && d[vs[k]].Finite?
  }

  /** Every queued vertex has a finite distance. */
  ghost predicate QueuedReached(d: seq<Cost>, q: seq<Entry>) {
    forall k :: 0 <= k < |q| ==> q[k].vertex < |d| && d[q[k].vertex].Finite?
  }

  /** No distance of `d` is below the one of `e`. */
  ghost predicate NoWorse(d: seq<Cost>, e: seq<Cost>) {
    |d| == |e| && forall k :: 0 <= k < |d| ==> !Less(d[k], e[k])
  }

  /** Only `w` can go from an infinite to a finite distance, and only
      with a decrease. */
  ghost predicate NewlyReached(d: seq<Cost>, e: seq<Cost>, w: nat, decreased: bool) {
    |d| == |e| && forall k :: 0 <= k < |d| && e[k].Finite? && d[k].Infinite? ==> k == w && decreased
  }

  /** No finite distance of `d` is infinite in `e`. */
  ghost predicate KeepsReached(d: seq<Cost>, e: seq<Cost>) {
    |d| == |e| && forall k :: 0 <= k < |d| && d[k].Finite? ==> e[k].Finite?
  }

  /** Some entry of `q` names `y`. */
  ghost predicate Queued(q: seq<Entry>, y: nat) {
    exists k :: 0 <= k < |q| && q[k].vertex == y
  }

  /** Every vertex with a finite distance has been examined or is queued. */
  ghost predicate Covered(d: seq<Cost>, examined: seq<nat>, q: seq<Entry>) {
    forall y :: 0 <= y < |d| && d[y].Finite? ==> y in examined || Queued(q, y)
  }

  /** Every neighbour of an examined vertex has a finite distance. */
  ghost predicate Expanded(edges: seq<G.Edge>, d: seq<Cost>, examined: seq<nat>) {
    forall x: nat, y: nat :: x in examined && G.Joined(edges, x, y) ==> y < |d| && d[y].Finite?
  }

  /** Before the loop only the start has a finite distance. */
  ghost predicate OnlyStart(s: nat, d: seq<Cost>) {
    forall y :: 0 <= y < |d| && d[y].Finite? ==> y == s
  }

  /** Popping entry `i` and examining its vertex keeps every reached vertex
      examined or queued. */
  lemma PopKeepsCovered(d: seq<Cost>, examined: seq<nat>, q: seq<Entry>, i: nat)
    requires Covered(d, examined, q) && i < |q|
    ensures Covered(d, examined + [q[i].vertex], q[..i] + q[i + 1..])
  {
    var rest := q[..i] + q[i + 1..];
    forall y | 0 <= y < |d| && d[y].Finite? && y != q[i].vertex && y !in examined
      ensures Queued(rest, y)
    {
      var k :| 0 <= k < |q| && q[k].vertex == y;
      assert rest[if k < i then k else k - 1] == q[k];
    }
  }

  /** A relaxation step, with the entry it queues when it reports a
      decrease, keeps every reached vertex examined or queued. */
  lemma RelaxKeepsCovered(d: seq<Cost>, e: seq<Cost>, examined: seq<nat>, q: seq<Entry>,
                          w: nat, decreased: bool, rank: Cost)
    requires Covered(d, examined, q) && NewlyReached(d, e, w, decreased)
    ensures Covered(e, examined, if decreased then q + [Entry(rank, w)] else q)
  {
    var q2 := if decreased then q + [Entry(rank, w)] else q;
    forall y | 0 <= y < |e| && e[y].Finite? && y !in examined
      ensures Queued(q2, y)
    {
      if d[y].Finite? {
        var k :| 0 <= k < |q| && q[k].vertex == y;
        assert q2[k] == q[k];
      } else {
        assert q2[|q|].vertex == y;
      }
    }
  }

  /** Once the neighbours of `v` are reached, `v` joins the expanded
      vertices. */
  lemma ExpandedStep(edges: seq<G.Edge>, d: seq<Cost>, e: seq<Cost>, examined: seq<nat>, v: nat)
    requires Expanded(edges, d, examined) && KeepsReached(d, e)
    requires forall k :: 0 <= k < |G.OutEdges(edges, v)| ==>
      G.OutEdges(edges, v)[k].0 < |e| && e[G.OutEdges(edges, v)[k].0].Finite?
    ensures Expanded(edges, e, examined + [v])
  {
    forall x: nat, y: nat | x in examined + [v] && G.Joined(edges, x, y)
      ensures y < |e| && e[y].Finite?
    {
      if x !in examined {
        G.JoinedOut(edges, v, y);
      }
    }
  }

  /** When the queue is empty, the examined vertices hold the start and
      every neighbour of each of them, so they hold every vertex a walk
      from the start reaches. */
  lemma ExhaustedUnreachable(edges: seq<G.Edge>, s: nat, d: seq<Cost>, examined: seq<nat>, goal: nat)
    requires s < |d| && d[s].Finite?
    requires Covered(d, examined, []) && Expanded(edges, d, examined)
    requires goal !in examined
    ensures !G.Connected(edges, s, goal)
  {
    forall path | G.IsWalk(edges, path) && path != [] && path[0] == s
      ensures path[|path| - 1] != goal
    {
      G.WalkStaysInside(edges, examined, path);
    }
  }

  /** Removing a queued entry keeps the rest reached, and the removed
      vertex is reached. */
  lemma PopKeepsReached(d: seq<Cost>, q: seq<Entry>, i: nat)
    requires QueuedReached(d, q) && i < |q|
    ensures q[i].vertex < |d| && d[q[i].vertex].Finite?
    ensures QueuedReached(d, q[..i] + q[i + 1..])
  {
    var rest := q[..i] + q[i + 1..];
    assert forall k :: 0 <= k < |rest| ==> rest[k] == q[if k < i then k else k + 1];
  }

  lemma ReachedStays(d: seq<Cost>, e: seq<Cost>, vs: seq<nat>, q: seq<Entry>)
    requires NoWorse(d, e) && Reached(d, vs) && QueuedReached(d, q)
    ensures Reached(e, vs) && QueuedReached(e, q)
  {
  }

  /** What a relaxation over a non-negative weight keeps, in one step of
      the out-edge loop. */
  lemma RelaxStep(edges: seq<G.Edge>, s: nat, p: seq<nat>, d: seq<Cost>, u: nat, v: nat, c: real)
    requires Searching(edges, s, p, d) && u < |p| && v < |p| && 0.0 <= c && d[u].Finite?
    requires G.JoinedBy(edges, u, v, c)
    ensures var r := Relax(p, d, u, v, c);
      && Searching(edges, s, r.p, r.d) && NoWorse(d, r.d)
      && r.d[u].Finite? && r.d[v].Finite? && NewlyReached(d, r.d, v, r.decreased)
  {
    RelaxKeepsTree(s, p, d, u, v, c);
    RelaxKeepsRooted(s, p, d, u, v, c);
    RelaxKeepsLinked(edges, s, p, d, u, v, c);
  }

  /** A relaxation over an edge of weight `c` keeps every predecessor link
      no longer than its edge: the vertex it redirects lies exactly that
      edge's weight beyond its new predecessor, and every other distance
      stays or shrinks only at a predecessor. */
  lemma RelaxKeepsLinked(edges: seq<G.Edge>, s: nat, p: seq<nat>, d: seq<Cost>, u: nat, v: nat, c: real)
    requires Tree(s, p, d) && Linked(edges, p, d) && u < |p| && v < |p| && 0.0 <= c && d[u].Finite?
    requires G.JoinedBy(edges, u, v, c)
    ensures var r := Relax(p, d, u, v, c); Linked(edges, r.p, r.d)
  {
    var j :| 0 <= j < |edges| && G.Joins(edges[j], u, v) && edges[j].weight == c;
    var through := Combine(d[u], Finite(c));
    var back := Combine(d[v], Finite(c));
    if Less(through, d[v]) {
      LinkedRedirect(edges, p, d, v, u, j);
    } else if Less(back, d[u]) {
      LinkedRedirect(edges, p, d, u, v, j);
    }
  }

  /** Pointing `a` at `b` across edge `j`, with the distance of `b` plus
      the edge's weight when that is smaller than the distance of `a`. */
  lemma LinkedRedirect(edges: seq<G.Edge>, p: seq<nat>, d: seq<Cost>, a: nat, b: nat, j: nat)
    requires Linked(edges, p, d) && a < |p| && b < |p| && j < |edges| && G.Joins(edges[j], b, a)
    requires Less(Combine(d[b], Finite(edges[j].weight)), d[a]) && 0.0 <= edges[j].weight
    ensures Linked(edges, p[a := b], d[a := Combine(d[b], Finite(edges[j].weight))])
  {
    var e := Combine(d[b], Finite(edges[j].weight));
    var q, f := p[a := b], d[a := e];
    assert a != b;
    forall x | 0 <= x < |q| && q[x] != x
      ensures Leads(edges, f, q[x], x)
    {
      if x == a {
        assert !Less(f[a], Combine(f[b], Finite(edges[j].weight)));
      } else {
        assert Leads(edges, d, p[x], x);
        var i :| 0 <= i < |edges| && G.Joins(edges[i], p[x], x)
          && !Less(d[x], Combine(d[p[x]], Finite(edges[i].weight)));
        assert !Less(f[x], Combine(f[q[x]], Finite(edges[i].weight)));
      }
    }
  }

  /** One round of the out-edge loop: relax the edge `v -- w` of weight
      `c`, and when a distance dropped, queue `w` with rank `d[w] + h(w)`. */
  method RelaxAndQueue(ghost edges: seq<G.Edge>, s: nat, v: nat, w: nat, c: real, h: nat -> real,
                       p: array<nat>, d: array<Cost>, queue: seq<Entry>, ghost examined: seq<nat>)
    returns (grown: seq<Entry>)
    requires p.Length == d.Length && v < p.Length && w < p.Length && 0.0 <= c
    requires G.JoinedBy(edges, v, w, c)
    requires Searching(edges, s, p[..], d[..]) && d[v].Finite?
    requires QueuedReached(d[..], queue) && Reached(d[..], examined)
    requires Covered(d[..], examined, queue)
    modifies p, d
    ensures Searching(edges, s, p[..], d[..]) && d[v].Finite? && d[w].Finite?
    ensures grown == queue || grown == queue + [Entry(Combine(d[w], Finite(h(w))), w)]
    ensures QueuedReached(d[..], grown) && Reached(d[..], examined)
    ensures Covered(d[..], examined, grown) && KeepsReached(old(d[..]), d[..])
  {
    ghost var before := d[..];
    RelaxStep(edges, s, p[..], d[..], v, w, c);
    var decreased := RelaxEdge(p, d, v, w, c);
    ReachedStays(before, d[..], examined, queue);
    RelaxKeepsCovered(before, d[..], examined, queue, w, decreased, Combine(d[w], Finite(h(w))));
    grown := queue;
    if decreased {
      grown := grown + [Entry(Combine(d[w], Finite(h(w))), w)];
    }
  }

  /** The loop over the out-edges of the examined vertex `v`: each edge is
      first checked for a negative weight, which throws `negative_edge`,
      and then relaxed; when the relaxation lowers a distance, the target
      `w` is queued with rank `d[w] + h(w)`. The entries already queued
      stay and the new ones name neighbours of `v`; every vertex that
      becomes reached is queued, and when no weight is negative every
      neighbour of `v` ends up reached. */
  method ExpandVertex(ghost edges: seq<G.Edge>, s: nat, v: nat, out: seq<(nat, real)>, h: nat -> real,
                      p: array<nat>, d: array<Cost>, queue: seq<Entry>, ghost examined: seq<nat>)
    returns (negative: bool, grown: seq<Entry>)
    requires p.Length == d.Length && v < p.Length
    requires forall k :: 0 <= k < |out| ==> out[k].0 < p.Length && G.JoinedBy(edges, v, out[k].0, out[k].1)
    requires Searching(edges, s, p[..], d[..]) && d[v].Finite?
    requires QueuedReached(d[..], queue) && Reached(d[..], examined)
    requires Covered(d[..], examined, queue)
    modifies p, d
    ensures Searching(edges, s, p[..], d[..])
    ensures negative <==> exists k :: 0 <= k < |out| && out[k].1 < 0.0
    ensures |queue| <= |grown| && grown[..|queue|] == queue
    ensures forall k :: |queue| <= k < |grown| ==> IsNeighbour(out, grown[k].vertex)
    ensures QueuedReached(d[..], grown) && Reached(d[..], examined)
    ensures Covered(d[..], examined, grown) && KeepsReached(old(d[..]), d[..])
    ensures !negative ==> forall k :: 0 <= k < |out| ==> d[out[k].0].Finite?
  {
    grown := queue;
    ghost var start := d[..];
    var j := 0;
    while j < |out|
      invariant j <= |out|
      invariant Searching(edges, s, p[..], d[..]) && d[v].Finite?
      invariant forall k :: 0 <= k < j ==> 0.0 <= out[k].1 && d[out[k].0].Finite?
      invariant |queue| <= |grown| && grown[..|queue|] == queue
      invariant forall k :: |queue| <= k < |grown| ==> IsNeighbour(out, grown[k].vertex)
      invariant QueuedReached(d[..], grown) && Reached(d[..], examined)
      invariant Covered(d[..], examined, grown) && KeepsReached(start, d[..])
    {
      var (w, c) := out[j];
      if c < 0.0 {
        negative := true;
        return;
      }
      ghost var before := grown;
      grown := RelaxAndQueue(edges, s, v, w, c, h, p, d, grown, examined);
      assert forall k :: |before| <= k < |grown| ==> grown[k].vertex == out[j].0;
      j := j + 1;
    }
    negative := false;
  }
}
