# A* pathfinder with a .dot parser, in Dafny

The program reads a road network from a Graphviz `.dot` file and runs
Boost's A* tree search twice between two chosen vertices, first with a
Euclidean heuristic and then with a "Manhattan" one. After each search it
prints the route and its travel time.

- **Parsing.** A first pass counts the position lines (`,pos=`) and the
  edge lines (`--`). It then allocates four tables of those sizes:
  coordinates, node ids, edge endpoint pairs and edge weights. A second
  pass fills the tables with `find`, `substr`, `stoi` and `strtof`.
- **Graph.** Building the graph feeds every endpoint pair to `add_edge` of
  an undirected `adjacency_list`. Edge `j` gets weight `j` of the weight
  table.
- **Search.** Each search leaves a predecessor map and a distance map. The
  route is rebuilt from the goal by following predecessors until a vertex
  is its own predecessor.

The model follows that structure, one module and file per part:

- `text.dfy` (`Text`): the C++ string library calls the parser uses.
  - `find`, `find_first_of`, `find_last_of` and `substr`, with their
    exceptions.
  - `size_t` arithmetic modulo 2^64 and `npos`.
  - `stoi`, with its 32-bit range and its `invalid_argument` and
    `out_of_range` exceptions.
  - `strtof` on decimal notation.
- `geometry.dfy` (`Geometry`): the node location and the two heuristics.
  The Manhattan heuristic is modelled as written, as the *signed* sum of
  the differences.
- `dotparser.dfy` (`DotParser`):
  - what each kind of line yields;
  - pass 2 as a pure fold `ParseLines`;
  - pass 1, the allocation and pass 2 as methods over arrays, proved
    against that fold.
- `dotlines.dfy` (`DotLines`): round trips for the lines the program
  expects, plus the behaviour of the edge branch on longer first ids.
  - A position line is `<id> [shape=point,pos="<x>,<y>"]`.
  - An edge line is `<u> -- <v> [style=bold,label="<w>"]`.
  - The length given for the second endpoint's text is "first blank − 3"
    (main.cpp:274). Three or four digits in the first id make `stoi`
    throw. With five digits the second text is a blank and the first character
    of the second id, so the second id is read as its first digit. The round trip holds
    for first ids below 100, where that length wraps around to "the rest
    of the line".
- `graph.dfy` (`Graph`): the multigraph.
  - It is a class whose `add_edge` grows the vertex store to hold both
    endpoints (`vecS`) and appends the edge (`listS`).
  - There is a build loop over the pair table.
  - The undirected out-edge list has lemmas relating it to the edges.
  - Walks and reachability are defined over the edges.
- `predecessors.dfy` (`Predecessors`): predecessor walks and the
  reconstruction loop.
- `astar.dfy` (`AStar`): `astar_search_tree` with the goal visitor. It
  pops a least-ranked entry, calls `examine_vertex`, checks each out-edge
  for a negative weight, relaxes it in both directions and queues improved
  vertices.
  - The loop invariant: the start is the root, distances are non-negative
    and never grow along predecessors, and every predecessor walk ends at
    the start through edges of the graph. Each vertex's distance is at
    least its predecessor's plus the weight of an edge joining them.
  - It follows that the reconstruction always ends, the route is a walk
    in the graph from the start to the goal, and the printed time is at
    least the weight of a chain of edges along it.
  - A second invariant says every reached vertex is examined or queued, and
    every neighbour of an examined vertex is reached. So a search that
    empties its queue without meeting the goal shows that no walk leads to
    it.
- `pipeline.dfy` (`Pipeline`): `main` without its I/O.
  - Parse, build, check that every vertex has coordinates, then run both
    searches.
  - Each search is followed by the reconstruction and the list of node ids
    printed.

## Model

| member | source | states |
|---|---|---|
| Text.AddSize | main.cpp:250 | `size_t` addition: the sum below 2^64 is exact, and a sum between 2^64 and 2^65 wraps to the sum minus 2^64 |
| Text.SubSize | main.cpp:274 | `size_t` subtraction: exact when `b <= a`, otherwise wraps to `2^64 - (b - a)` |
| Text.FindFromSpec | main.cpp:187 | `find` returns the first index at which the pattern occurs, and "not found" only when it occurs nowhere |
| Text.FindFirstOf | main.cpp:246 | `find_first_of(c)` returns an index holding `c` with no `c` before it, and "not found" exactly when `c` is absent |
| Text.FindLastOf | main.cpp:247-248 | `find_last_of(c)` returns an index holding `c` with no `c` after it, and "not found" exactly when `c` is absent |
| Text.Substr | main.cpp:250 | `substr(pos, len)` throws `out_of_range` exactly when `pos` is past the end; otherwise it is the text from `pos`, cut to `len` characters or to the end |
| Text.SubstrFrom | main.cpp:245 | `substr(pos)` throws exactly when `pos` is past the end; otherwise it is the text from `pos` on |
| Text.SubstrWhole | main.cpp:263 | `substr(0, npos)` is the whole string |
| Text.Stoi | main.cpp:264 | `stoi`: blanks, an optional sign and the digits after it, read as a number; any value it returns is in the `int` range. Partners: `Text.StoiOfSigned`, `Text.StoiOutOfRange`, `Text.StoiWithoutDigits`, `Text.StoiWithoutMinus` |
| Text.StoiOfSigned | main.cpp:264 | `stoi` reads back every `int` written in decimal, with a minus sign when negative, whatever non-digit text follows |
| Text.StoiOutOfRange | main.cpp:276 | `stoi` throws `out_of_range` on a numeral of either sign outside the `int` range |
| Text.StoiWithoutDigits | main.cpp:276 | `stoi` throws `invalid_argument` on text without a digit |
| Text.StoiWithoutMinus | main.cpp:276 | without a minus sign in the text, `stoi` returns no negative number |
| Text.StoiOfDigits | main.cpp:276 | `stoi` reads back a decimal numeral within the `int` range, whatever non-digit text follows |
| Text.StoiAfterSpace | main.cpp:274-276 | `stoi` ignores a leading blank |
| Text.StrtofOfDigits | main.cpp:258-259 | `strtof` reads back a whole decimal number, whatever non-digit, non-point text follows |
| Text.Strtof | main.cpp:258-259 | `strtof` on decimal notation never throws, and returns a negative value only when the text has a minus sign; on text without a digit it converts nothing and returns 0. Partner: `Text.StrtofOfDigits` |
| Geometry.Euclidean | main.cpp:90-95 | the Euclidean heuristic is non-negative, and its square is the sum of the squared coordinate differences |
| Geometry.EuclideanBounds | main.cpp:90-95 | the Euclidean estimate is at least each coordinate difference and at most the Manhattan distance |
| Geometry.EuclideanZeroIff | main.cpp:90-95 | the Euclidean estimate is zero exactly at the goal's location |
| Geometry.Manhattan | main.cpp:109-114 | the signed estimate is zero at the goal's location and never exceeds the true Manhattan distance |
| Geometry.ManhattanIsDistanceIff | main.cpp:109-114 | the signed estimate equals the Manhattan distance exactly when the goal has no smaller x and no smaller y |
| Geometry.ManhattanNegativeTowardsOrigin | main.cpp:109-114 | with the goal below and left of `u` the estimate is negative |
| Geometry.ManhattanZeroAwayFromGoal | main.cpp:109-114 | for every vertex `u`, the estimate is zero exactly when `u` and the goal have the same `x + y`; when their locations differ, the true Manhattan distance is positive, so the estimate misjudges every other location on that anti-diagonal |
| Geometry.HeuristicsSwapped | main.cpp:90-114 | swapping goal and vertex keeps the Euclidean estimate and negates the Manhattan one |
| DotParser.CountTags | main.cpp:184-198 | pass 1 counts one position and one node per `,pos=` line, and one weight and one edge per `--` line |
| DotParser.AllocateTables | main.cpp:201-224 | the four tables have the counted sizes, and every slot holds zero |
| DotParser.PositionLineHasComma | main.cpp:242-244 | a position line has a comma, so its coordinates are always cut out |
| DotParser.CommaFieldsNeverThrow | main.cpp:244-254 | on a line with a comma no `substr` of the coordinate or weight branch throws, even when quotes are missing |
| DotParser.PositionCoordinates | main.cpp:244-259 | the coordinate branch can only throw `out_of_range` (from `substr`; `strtof` never throws). Partners: `DotParser.PositionCoordinatesAt`, `DotParser.CommaFieldsNeverThrow` |
| DotParser.PositionCoordinatesAt | main.cpp:244-259 | the coordinates are `strtof` of the text between the first quote and the last comma, and between that comma and the last quote |
| DotParser.PositionNodeId | main.cpp:262-264 | the node id is an `int`. Partner: `DotParser.PositionNodeIdAt` |
| DotParser.PositionNodeIdAt | main.cpp:262-264 | the node id is `stoi` of the text before the first `[`, or of the whole line when there is none |
| DotParser.EdgeEndpoints | main.cpp:270-276 | both endpoints are `int`s. Partners: `DotParser.EdgeEndpointsAt`, `DotParser.EndpointsNonNegative` |
| DotParser.EdgeEndpointsAt | main.cpp:270-276 | on an edge line no `substr` throws; the line fails exactly when one of the two `stoi` calls fails; the endpoints are `stoi` of the text before the first `-` and of the text the `firstBlank - 3` length cuts after the last `-`; when `stoi` fails on the first text its exception is reported, otherwise that of the second |
| DotParser.EndpointsNonNegative | main.cpp:270-276 | neither endpoint is negative: the first text lies before the first `-` and the second after the last `-`, so `stoi` never sees a minus sign |
| DotParser.ParsedEndpointsNonNegative | main.cpp:240-295 | every endpoint pair pass 2 stores is non-negative |
| DotParser.EdgeWeight | main.cpp:281-291 | the weight branch can only throw `out_of_range`. Partners: `DotParser.EdgeWeightAt`, `DotParser.CommaFieldsNeverThrow` |
| DotParser.EdgeWeightAt | main.cpp:281-291 | the weight is `strtof` of the text between the first and the last quote after the first comma |
| DotParser.ParseLine | main.cpp:242-294 | one line adds at most one location together with one node id, and at most one edge; it adds a weight only with an edge. Partner: `DotParser.ParseLineEffect` |
| DotParser.ParseLineEffect | main.cpp:242-294 | pass 2 raises on a line exactly when its node id or its endpoints fail to parse, with that exception; otherwise it appends the line's coordinates and id, its endpoints, and its weight when it has a comma |
| DotParser.PositionItemsEffect | main.cpp:242-266 | the position branch appends coordinates and id, and fails exactly when the id does |
| DotParser.EdgeItemsEffect | main.cpp:268-294 | the edge branch appends the endpoints and, on a line with a comma, the weight; it fails exactly when the endpoints do |
| DotParser.ParseLines | main.cpp:240-295 | after pass 2 there are as many locations as node ids, no more weights than edges, and no more of either than lines. Partners: `DotParser.ParseLinesOk`, `DotParser.ParseLinesContents` |
| DotParser.ParseLinesOk | main.cpp:240-295 | pass 2 reads the whole file exactly when no line raises |
| DotParser.ParseLinesContents | main.cpp:240-295 | after pass 2, the tables hold in file order the coordinates and ids of the position lines, the endpoints of the edge lines, and the weights of the edge lines with a comma |
| DotParser.ErrorPersists | main.cpp:240-295 | an exception ends pass 2: later lines change nothing |
| DotParser.WeightedFewer | main.cpp:279-293 | no more weights are read than edges |
| DotParser.InBounds | main.cpp:242-292 | each write of pass 2 goes to a slot that pass 1 counted |
| DotParser.ReadLine | main.cpp:242-294 | one iteration of pass 2 stores exactly what the fold appends, or raises the fold's exception, leaving later weight slots alone |
| DotParser.StorePosition | main.cpp:258-265 | the coordinates are stored and counted before `stoi` of the id can throw |
| DotParser.StoreEdge | main.cpp:276-293 | the endpoints are stored, then the weight when there is one |
| DotParser.FillTables | main.cpp:240-295 | pass 2 over the arrays throws exactly the fold's exception; otherwise the arrays hold the fold's tables, and the weight slots past the counter keep their zeros |
| DotLines.PositionLineRoundTrip | main.cpp:242-266 | a position line written with integer coordinates parses back to those coordinates and that id, and is not an edge line |
| DotLines.PositionLineCoordinates | main.cpp:244-259 | a position line's coordinates parse back |
| DotLines.CoordinatesOfAttribute | main.cpp:246-259 | any line whose text from its first comma is a `pos` attribute yields its coordinates |
| DotLines.PositionLineNodeId | main.cpp:262-264 | a position line's id parses back |
| DotLines.NodeIdBeforeBracket | main.cpp:262-264 | a number and a blank before the first `[` give that number as id |
| DotLines.EdgeLineRoundTrip | main.cpp:268-293 | an edge line whose first id has at most two digits parses back to its endpoints and weight, and pass 2 appends exactly those |
| DotLines.EndpointsShortFirst | main.cpp:270-276 | with a first id of one or two digits, the second endpoint's text runs to the end of the line and `stoi` reads the second id |
| DotLines.EdgeLineThreeOrFourDigits | main.cpp:274-276 | with a three- or four-digit first id, the second endpoint's text is blank or empty and pass 2 throws `invalid_argument` |
| DotLines.EdgeLineFiveDigits | main.cpp:274-276 | with a five-digit first id and a two-digit second id, the second endpoint is read as the second id's first digit |
| DotLines.EdgeLineComma | main.cpp:279-281 | an edge line has exactly the comma that opens its label, and is not a position line |
| DotLines.EdgeWeightOfLabel | main.cpp:281-291 | a `label` attribute after the first comma yields its weight |
| Graph.Grow | main.cpp:307-308 | `add_edge` grows the vertex store to hold both endpoints, and to no more than the larger of the old count and the endpoints |
| Graph.Multigraph.constructor | main.cpp:303 | the graph starts with `nodeCounter` vertices and no edge |
| Graph.Multigraph.AddEdge | main.cpp:307-308 | `add_edge` appends one edge of weight 0, grows the vertex count, and returns the new edge's index |
| Graph.Multigraph.SetWeight | main.cpp:309 | `weightmap[e] = w` changes the weight of edge `e` and nothing else |
| Graph.FirstNegative | main.cpp:305-308 | finds the first pair with a negative id, preceded only by non-negative pairs; none exactly when all ids are non-negative |
| Graph.BuildGraph | main.cpp:303-310 | the build loop fails at the first negative id; otherwise edge `j` joins pair `j` with weight `j` of the table, and the vertex count is the grown count (in `main`, no id is ever negative: see `Pipeline.Run`) |
| Graph.GrownCountIsLeast | main.cpp:303-310 | the grown vertex count holds `nodeCounter` and every endpoint, and is `nodeCounter` or one more than some endpoint |
| Graph.GrownCountWithin | main.cpp:303-310 | with every endpoint below `nodeCounter`, the graph keeps `nodeCounter` vertices |
| Graph.OutEdges | main.cpp:139-140 | each edge shows up at most twice among the out-edges (twice only as a self-loop). Partners: `Graph.OutEdgesIff`, `Graph.JoinedOut` |
| Graph.OutEdgesIff | main.cpp:139-140 | `w` is an out-neighbour of `v` with weight `c` exactly when some edge joins `v` and `w` with weight `c`, in either direction |
| Graph.OutEdgesSymmetric | main.cpp:139-140 | the graph is undirected: `w` neighbours `v` with weight `c` exactly when `v` neighbours `w` |
| Graph.OutEdgesClosed | main.cpp:139-140 | every out-edge leads to a vertex of the graph |
| Graph.OutEdgesJoined | main.cpp:139-140 | every out-edge follows an edge of the graph that joins the two vertices and carries the out-edge's weight |
| Graph.JoinedOut | main.cpp:139-140 | every edge at `v` shows up among the out-edges of `v` |
| Graph.WalkStaysInside | main.cpp:139-140 | a walk that starts in a set of vertices closed under neighbours ends in it |
| Predecessors.ReconstructPath | main.cpp:375-380 | on a predecessor map whose walk from the goal ends, the reconstruction returns the route: it ends at the goal, starts at a self-predecessor, and each vertex is the predecessor of the next |
| Predecessors.RouteIsWalk | main.cpp:376-380 | the route read backwards is the predecessor walk from the goal |
| Predecessors.RouteRootAfter | main.cpp:376-380 | the walk from the goal meets its first self-loop after the route's length minus one steps |
| Predecessors.RouteUnique | main.cpp:375-380 | the route to the goal is unique |
| Predecessors.RouteReaches | main.cpp:376-380 | a route exists only when the walk from the goal ends |
| Predecessors.IdentityRooted | main.cpp:366-372 | the initial predecessor map, every vertex its own predecessor, has only finite walks |
| Predecessors.RedirectKeepsRooted | main.cpp:366-372 | redirecting the predecessor of `a` to a vertex whose walk avoids `a` keeps every walk finite |
| AStar.Initialize | main.cpp:360-372 | every vertex is its own predecessor, the start has distance 0 and every other vertex infinity |
| AStar.InitialIsTree | main.cpp:366-372 | the initial state satisfies the search invariant |
| AStar.ChainMonotone | main.cpp:366-372 | distances never grow along a predecessor walk |
| AStar.Relax | main.cpp:366-372 | a relaxation changes the maps only at the two ends of the edge, and not at all when it reports no decrease. Partners: `AStar.RelaxDecreasesIff`, `AStar.RelaxSettlesEdge`, `AStar.RelaxKeepsTree` |
| AStar.RelaxEdge | main.cpp:366-372 | relaxing an edge changes the maps exactly as the reference `Relax` does, and reports its decrease |
| AStar.RelaxKeepsTree | main.cpp:366-372 | relaxing over a non-negative weight keeps the tree state and never raises a distance; both ends are reached afterwards, and only the far end can become reached, with a reported decrease |
| AStar.RelaxKeepsLinked | main.cpp:366-372 | relaxing over an edge of the graph keeps every predecessor link along an edge whose weight, added to the predecessor's distance, is at most the vertex's distance |
| AStar.RelaxKeepsRooted | main.cpp:366-372 | relaxing over a non-negative weight keeps distances monotone along predecessors and every predecessor walk finite |
| AStar.RelaxSettlesEdge | main.cpp:366-372 | after a relaxation neither direction of the edge can be relaxed again |
| AStar.RelaxDecreasesIff | main.cpp:366-372 | a relaxation reports a decrease exactly when a distance at one end drops |
| AStar.ExpandVertex | main.cpp:366-372 | the out-edge loop throws `negative_edge` exactly when some out-edge is negative; it keeps the search invariant, keeps the queued entries, queues only neighbours and queues every vertex that becomes reached; without a negative weight, every neighbour ends up reached |
| AStar.RelaxAndQueue | main.cpp:366-372 | one round of the out-edge loop keeps the search invariant, leaves both ends reached, queues at most the far end with rank `d[w] + h(w)`, and keeps every reached vertex examined or queued |
| AStar.PopKeepsCovered | main.cpp:366-372 | popping an entry and examining its vertex keeps every reached vertex examined or queued |
| AStar.RelaxKeepsCovered | main.cpp:366-372 | a relaxation, with the entry it queues on a decrease, keeps every reached vertex examined or queued |
| AStar.ExpandedStep | main.cpp:366-372 | once its neighbours are reached, an examined vertex joins the expanded ones |
| AStar.ExhaustedUnreachable | main.cpp:366-372 | when the queue is empty, every reached vertex is examined and every neighbour of an examined vertex is reached, so no walk leads from the start to a vertex that was not examined |
| AStar.Step | main.cpp:366-372 | one round pops the entry `pick` chooses and examines its vertex; unless it is the goal or a weight is negative, the vertex is expanded and every reached vertex stays examined or queued |
| AStar.SearchNoInit | main.cpp:366-372 | the search loop keeps the invariant; it reports the goal exactly when it examined it, and then as the last vertex examined and not before; an empty queue means no walk leads from the start to the goal; every examined vertex was reached |
| AStar.Search | main.cpp:366-372 | the search leaves predecessors that root every walk at the start through graph edges; it reports the goal exactly when it examined it, and then as the last vertex examined; when it ends with an empty queue, the goal cannot be reached from the start |
| AStar.RouteFromStart | main.cpp:374-380 | once the goal has a finite distance, its route starts at the start vertex and follows graph edges, and some chain of edges along the route weighs no more than the goal's distance |
| Pipeline.GraphEdgeWeight | main.cpp:279-309 | edge `j` joins the endpoints of the `j`-th edge line and carries the weight of the `j`-th edge line that has a comma, or 0 when there are fewer such lines |
| Pipeline.ReadTables | main.cpp:177-298 | pass 1, allocation and pass 2 fail exactly when the fold does; otherwise the arrays are the fold's tables and the weight table ends in zeros |
| Pipeline.Display | main.cpp:384-387 | the printed ids are the start's id, then the id of every later route vertex |
| Pipeline.SearchOnce | main.cpp:364-394 | one `try` block: a reported route runs from the start to the goal along graph edges, the printed ids are its vertices' ids, and its time is non-negative and at least the weight of a chain of edges along the route; "no route" after a finished search means no walk leads to the goal |
| Pipeline.SoundAnswerExact | main.cpp:364-394 | a sound answer of a finished search reports a route exactly when a walk from the start to the goal exists |
| Pipeline.SearchBoth | main.cpp:360-421 | both searches share the maps; every answer is sound (a route is a walk to the goal, "no route" means none exists), and a negative weight in the second search keeps the first answer |
| Pipeline.Run | main.cpp:177-421 | `main`: a parse failure exactly when pass 2 throws, with that exception; the graph is always built, since no endpoint is negative; a coordinate failure exactly when the grown graph has more vertices than coordinates; otherwise every answer is sound for the graph built from the lines |

## Left out

- File handling, the prompts and the console output are left out. The lines of the file and the chosen vertices are inputs, and the prompt loops' range check (main.cpp:317-339) becomes a precondition of `Pipeline.Run` that applies only when pass 2 reads the whole file, since the prompts come after it. `Pipeline.Run` also requires every line to be shorter than 2^63 characters, as every `std::string` is.
- `write_graphviz` (main.cpp:347-353), the timer and the `delete` calls are not modelled. They do not affect the route.
- `float` is modelled as `real`, so there is no rounding and no overflow to infinity.
- Text.Strtof: models decimal notation only (sign, digits, fraction). Exponents, hexadecimal, `inf` and `nan` are read as the decimal prefix before them.
- The `int` counters of the two passes are unbounded here; a file with more than 2^31 tagged lines is out of scope.
- `sqrt` is a parameter `root` constrained to be the non-negative square root.
- AStar.Search: the heap's choice among entries of equal rank is a parameter `pick` that must return an entry of least rank. The loop is bounded by `fuel` pops, ending with `OutOfFuel`, because termination of the tree search is not proved.
- AStar.Search: no proved property depends on the least-rank part of `IsMinPicker`. Every contract holds for any choice of queued entry; best-first order matters only for the optimality of the route, which is not stated.
- AStar.Search: does not state that the route found is a shortest route, and `Pipeline.Run` does not state that the printed time equals the route's weight. Equality does not hold in general. When relaxing an edge `u -- v` lowers `d[u]` of the vertex `u` being expanded (the backward direction of Boost's undirected `relax`), only `v` is queued, not `u`, so the vertices below `u` in the predecessor tree, the goal among them, can keep distances computed from the older, larger `d[u]`. The contracts state that the route is a walk from the start to the goal along edges of the graph, and that the time is non-negative and at least the weight of some chain of edges along the route (`AStar.RouteFromStart`).
- The Boost header `astar_search.hpp` is not part of this model. `AStar` follows the published algorithm of `astar_search_tree`; its visitor hooks other than `examine_vertex` do nothing in this program and are omitted.
- Pipeline.Run: the writer passed to `write_graphviz` (main.cpp:347-353) reads `locations[v]` and `nodes[v]` for every vertex of the graph; the heuristics read `locations[u]` only for the vertices that reach the queue (main.cpp:90-95, 109-114). When an edge names an id at or beyond `nodeCounter` the graph grows past the tables, which is undefined behaviour in the program. The model reports `LocationOutOfRange` instead.
- Graph.BuildGraph: a negative id given to `add_edge` would ask for a vertex store near 2^64, which no allocation provides. The build loop models that as a failure at the pair's index, but `main` never reaches it, because `DotParser.EndpointsNonNegative` shows that pass 2 stores no negative id.
- Pipeline.Run: the `negative_edge` exception is not caught by the program and ends it. The model reports `NegativeWeight`, with the first search's answer when it is the second search that threw.
- DotParser.EdgeEndpoints: C++ does not fix the evaluation order of the two `stoi` arguments of `edge(...)` (main.cpp:276). The model evaluates the first before the second, so when both throw it reports the first one's exception, while the program may throw the second's. `DotParser.EdgeEndpointsAt` also states the part that does not depend on the order: the line fails exactly when either call fails.
- DotLines.PositionLineRoundTrip: covers only integer coordinates, which is what `Digits` can write.
- DotLines.EdgeLineRoundTrip: covers integer weights and first ids below 100. Longer first ids do not round-trip, as `DotLines.EdgeLineThreeOrFourDigits` and `DotLines.EdgeLineFiveDigits` show.
- `Astar Pathfinder/main.cpp` is an earlier copy of the same program and is not modelled separately.
