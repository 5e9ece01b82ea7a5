/**
  The two-pass reader of the graph file. Pass 1 counts the position lines
  (those containing `,pos=`) and the edge lines (those containing `--`) and
  allocates zero-filled tables of those sizes; pass 2 reads the same lines
  again and fills the tables by index arithmetic on the `std::string`
  primitives of module Text.

  The file is a sequence of lines. Whatever pass 2 collects from a prefix of
  the file is the value of `ParseLines`; an exception thrown by `stoi` or
  `substr` ends the program and is the `Err` outcome.
 */
module DotParser {
  import opened Text
  import opened Geometry

  /** A line that declares a node's position: pass 1 counts it for the
      `locations` and `nodes` tables and pass 2 reads it into them. */
  predicate IsPositionLine(line: string) {
    Contains(line, ",pos=")
  }

  /** A line that declares an edge. */
  predicate IsEdgeLine(line: string) {
    Contains(line, "--")
  }

  /** An edge line carries a weight only if it contains a comma. */
  predicate HasComma(line: string) {
    FindFirstOf(line, ',').At?
  }

  /** `split.substr(first + 1, (last - 1) - first)` in `size_t` arithmetic:
      the text strictly between the indices `first` and `last` when both
      are found and `first < last`. */
  function Between(split: string, first: nat, last: nat): Result<string> {
    Substr(split, AddSize(first, 1), SubSize(SubSize(last, 1), first))
  }

  /** The coordinates of a position line: in the text from the first comma
      on, `x` lies between the first double quote and the last comma and `y`
      between that comma and the last double quote. */
  function PositionCoordinates(line: string): (r: Result<Location>)
    ensures r.Err? ==> r.error == OutOfRange
  {
    var pos := SizeT(FindFirstOf(line, ','));
    var split :- SubstrFrom(line, pos);
    var findFirst := SizeT(FindFirstOf(split, '"'));
    var findComma := SizeT(FindLastOf(split, ','));
    var findLast := SizeT(FindLastOf(split, '"'));
    var xCoord :- Between(split, findFirst, findComma);
    var yCoord :- Between(split, findComma, findLast);
    Ok(Location(Strtof(yCoord), Strtof(xCoord)))
  }

  /** The node id of a position line: `stoi` of the text before the first `[`. */
  function PositionNodeId(line: string): (r: Result<int>)
    ensures r.Ok? ==> INT_MIN <= r.value <= INT_MAX
  {
    var pos2 := SizeT(FindFirstOf(line, '['));
    var nodeFound :- Substr(line, 0, pos2);
    Stoi(nodeFound)
  }

  /** The two endpoints of an edge line. The first is `stoi` of the text
      before the first `-`. The second is `stoi` of at most
      `foundFirstWhiteSpace - 3` characters after the last `-`, a `size_t`
      subtraction that wraps around when the first space comes before
      index 3. */
  function EdgeEndpoints(line: string): (r: Result<(int, int)>)
    ensures r.Ok? ==> INT_MIN <= r.value.0 <= INT_MAX && INT_MIN <= r.value.1 <= INT_MAX
  {
    var foundFirstEdge := SizeT(FindFirstOf(line, '-'));
    var fNSplit :- Substr(line, 0, foundFirstEdge);
    var foundSecondEdge := SizeT(FindLastOf(line, '-'));
    var foundFirstWhiteSpace := SizeT(FindFirstOf(line, ' '));
    var sNSplit :- Substr(line, AddSize(foundSecondEdge, 1), SubSize(foundFirstWhiteSpace, 3));
    var u :- Stoi(fNSplit);
    var v :- Stoi(sNSplit);
    Ok((u, v))
  }

  /** The weight of an edge line: in the text from the first comma on, the
      number between the first and the last double quote. */
  function EdgeWeight(line: string): (r: Result<real>)
    ensures r.Err? ==> r.error == OutOfRange
  {
    var pos := SizeT(FindFirstOf(line, ','));
    var split :- SubstrFrom(line, pos);
    var findFirst := SizeT(FindFirstOf(split, '"'));
    var findLast := SizeT(FindLastOf(split, '"'));
    var weight :- Between(split, findFirst, findLast);
    Ok(Strtof(weight))
  }

  /** What pass 2 has stored so far: the filled part of each table, in the
      order the values were read. */
  datatype Tables = Tables(locations: seq<Location>, nodes: seq<int>, edges: seq<(int, int)>, weights: seq<real>)

  const EMPTY: Tables := Tables([], [], [], [])

  /** Pass 2 on one line: the position branch, then the edge branch (a line
      can take both). */
  function ParseLine(t: Tables, line: string): (r: Result<Tables>)
    ensures r.Ok? ==>
      && |r.value.nodes| - |t.nodes| == |r.value.locations| - |t.locations| <= 1
      && |r.value.weights| - |t.weights| <= |r.value.edges| - |t.edges| <= 1
  {
    var t1 :- if IsPositionLine(line) then PositionItems(t, line) else Ok(t);
    if IsEdgeLine(line) then EdgeItems(t1, line) else Ok(t1)
  }

  function PositionItems(t: Tables, line: string): Result<Tables> {
    var location :- PositionCoordinates(line);
    var id :- PositionNodeId(line);
    Ok(t.(locations := t.locations + [location], nodes := t.nodes + [id]))
  }

  function EdgeItems(t: Tables, line: string): Result<Tables> {
    var e :- EdgeEndpoints(line);
    var t1 := t.(edges := t.edges + [e]);
    if HasComma(line) then
      var w :- EdgeWeight(line);
      Ok(t1.(weights := t1.weights + [w]))
    else Ok(t1)
  }

  /** Pass 2 over a whole file: the tables after its last line, or the
      first exception. */
  function ParseLines(lines: seq<string>): (r: Result<Tables>)
    ensures r.Ok? ==>
      && |r.value.locations| == |r.value.nodes| <= |lines|
      && |r.value.weights| <= |r.value.edges| <= |lines|
  {
    if lines == [] then Ok(EMPTY)
    else
      var t :- ParseLines(lines[..|lines| - 1]);
      ParseLine(t, lines[|lines| - 1])
  }

  /** The lines a predicate keeps, in file order. */
  function Select(lines: seq<string>, keep: string -> bool): (r: seq<string>)
    ensures |r| <= |lines|
    ensures forall k :: 0 <= k < |r| ==> keep(r[k])
  {
    if lines == [] then []
    else Select(lines[..|lines| - 1], keep) + if keep(lines[|lines| - 1]) then [lines[|lines| - 1]] else []
  }

  predicate IsWeightedEdgeLine(line: string) {
    IsEdgeLine(line) && HasComma(line)
  }

  function PositionLines(lines: seq<string>): seq<string> {
    Select(lines, IsPositionLine)
  }

  function EdgeLines(lines: seq<string>): seq<string> {
    Select(lines, IsEdgeLine)
  }

  function WeightedLines(lines: seq<string>): seq<string> {
    Select(lines, IsWeightedEdgeLine)
  }

  /** Every line kept is a line of the file. */
  lemma {:induction false} SelectFrom(lines: seq<string>, keep: string -> bool)
    ensures forall k :: 0 <= k < |Select(lines, keep)| ==> Select(lines, keep)[k] in lines
  {
    if lines != [] {
      var n := |lines| - 1;
      SelectFrom(lines[..n], keep);
      assert forall k :: 0 <= k < n ==> lines[..n][k] in lines;
    }
  }

  /** The lines kept from a longer prefix extend those kept from a shorter one. */
  lemma {:induction false} SelectPrefix(lines: seq<string>, keep: string -> bool, i: nat, j: nat)
    requires i <= j <= |lines|
    ensures |Select(lines[..i], keep)| <= |Select(lines[..j], keep)|
    ensures Select(lines[..j], keep)[..|Select(lines[..i], keep)|] == Select(lines[..i], keep)
    decreases j - i
  {
    if i < j {
      SelectPrefix(lines, keep, i, j - 1);
      assert lines[..j][..j - 1] == lines[..j - 1];
    }
  }

  /** Extending a file by one line. */
  lemma SelectStep(lines: seq<string>, keep: string -> bool, i: nat)
    requires i < |lines|
    ensures Select(lines[..i + 1], keep) == Select(lines[..i], keep) + if keep(lines[i]) then [lines[i]] else []
  {
    assert lines[..i + 1][..i] == lines[..i];
  }

  /** Pass 1: the number of position lines and of edge lines in the file. */
  method CountTags(lines: seq<string>) returns (weightCount: nat, posCount: nat, nodeCount: nat, edgeCount: nat)
    ensures posCount == nodeCount == |PositionLines(lines)|
    ensures weightCount == edgeCount == |EdgeLines(lines)|
  {
    weightCount, posCount, nodeCount, edgeCount := 0, 0, 0, 0;
    var i := 0;
    while i < |lines|
      invariant i <= |lines|
      invariant posCount == nodeCount == |PositionLines(lines[..i])|
      invariant weightCount == edgeCount == |EdgeLines(lines[..i])|
    {
      var line := lines[i];
      SelectStep(lines, IsPositionLine, i);
      SelectStep(lines, IsEdgeLine, i);
      if IsPositionLine(line) {
        posCount := posCount + 1;
        nodeCount := nodeCount + 1;
      }
      if IsEdgeLine(line) {
        weightCount := weightCount + 1;
        edgeCount := edgeCount + 1;
      }
      i := i + 1;
    }
    assert lines[..i] == lines;
  }

  /** A position line contains a comma: the one that starts `,pos=`. */
  lemma PositionLineHasComma(line: string)
    requires IsPositionLine(line)
    ensures HasComma(line)
  {
    ContainsFirst(line, ",pos=");
  }

  /** For found indices `first < last`, `Between` is the text strictly
      between them. */
  lemma BetweenAt(split: string, first: nat, last: nat)
    requires first < last < |split| < MAX_SIZE
    ensures Between(split, first, last) == Ok(split[first + 1..last])
  {
    assert AddSize(first, 1) == first + 1;
    assert SubSize(last, 1) == last - 1;
    assert SubSize(last - 1, first) == last - 1 - first;
  }

  /** `Between` does not throw when `first` is a found index or `npos`. */
  lemma BetweenFound(split: string, first: Pos, last: nat)
    requires first.At? ==> first.index < |split|
    ensures Between(split, SizeT(first), last).Ok?
  {
  }

  /** On a line with a comma, none of the `substr` calls that cut out the
      coordinates or the weight throws. */
  lemma CommaFieldsNeverThrow(line: string)
    requires HasComma(line)
    ensures PositionCoordinates(line).Ok?
    ensures EdgeWeight(line).Ok?
  {
    var pos := FindFirstOf(line, ',').index;
    var split := line[pos..];
    assert SubstrFrom(line, pos) == Ok(split);
    assert split[0] == ',';
    assert split[0] in split;
    BetweenFound(split, FindFirstOf(split, '"'), SizeT(FindLastOf(split, ',')));
    BetweenFound(split, FindLastOf(split, ','), SizeT(FindLastOf(split, '"')));
    BetweenFound(split, FindFirstOf(split, '"'), SizeT(FindLastOf(split, '"')));
  }

  /** The text from a line's first comma on, where the coordinates and the
      weight are looked for. */
  function CommaSplit(line: string): string
    requires HasComma(line)
  {
    line[FindFirstOf(line, ',').index..]
  }

  /** With the first double quote at `f`, the last comma at `c` and the last
      double quote at `l` of the text from the first comma on, x is the
      number strictly between `f` and `c` and y the number strictly between
      `c` and `l`. */
  lemma PositionCoordinatesAt(line: string, f: nat, c: nat, l: nat)
    requires |line| < MAX_SIZE && HasComma(line)
    requires FindFirstOf(CommaSplit(line), '"') == At(f)
    requires FindLastOf(CommaSplit(line), ',') == At(c)
    requires FindLastOf(CommaSplit(line), '"') == At(l)
    requires f < c < l
    ensures PositionCoordinates(line)
         == Ok(Location(Strtof(CommaSplit(line)[c + 1..l]), Strtof(CommaSplit(line)[f + 1..c])))
  {
    var split := CommaSplit(line);
    assert SubstrFrom(line, FindFirstOf(line, ',').index) == Ok(split);
    BetweenAt(split, f, c);
    BetweenAt(split, c, l);
  }

  /** With the first double quote at `f` and the last at `l` of the text
      from the first comma on, the weight is the number strictly between them. */
  lemma EdgeWeightAt(line: string, f: nat, l: nat)
    requires |line| < MAX_SIZE && HasComma(line)
    requires FindFirstOf(CommaSplit(line), '"') == At(f)
    requires FindLastOf(CommaSplit(line), '"') == At(l)
    requires f < l
    ensures EdgeWeight(line) == Ok(Strtof(CommaSplit(line)[f + 1..l]))
  {
    var split := CommaSplit(line);
    assert SubstrFrom(line, FindFirstOf(line, ',').index) == Ok(split);
    BetweenAt(split, f, l);
  }

  /** The node id is `stoi` of the text before the first `[`, or of the
      whole line when there is none. */
  lemma PositionNodeIdAt(line: string)
    requires |line| < MAX_SIZE
    ensures PositionNodeId(line) == Stoi(match FindFirstOf(line, '[') case At(b) => line[..b] case NotFound => line)
  {
    match FindFirstOf(line, '[')
    case At(b) =>
      assert Substr(line, 0, b) == Ok(line[..b]);
    case NotFound =>
      SubstrWhole(line);
  }

  /** Neither endpoint of a line is negative: the first is read from text
      before the first `-` and the second from text after the last `-`, so
      `stoi` never sees a minus sign. (The lines of a file are shorter than
      `max_size()`, so the index after the last `-` does not wrap around.) */
  lemma EndpointsNonNegative(line: string)
    requires |line| < MAX_SIZE
    ensures EdgeEndpoints(line).Ok? ==> 0 <= EdgeEndpoints(line).value.0 && 0 <= EdgeEndpoints(line).value.1
  {
    var first := Substr(line, 0, SizeT(FindFirstOf(line, '-'))).value;
    assert forall k :: 0 <= k < |first| ==> first[k] != '-';
    StoiWithoutMinus(first);
    var pos := AddSize(SizeT(FindLastOf(line, '-')), 1);
    var second := Substr(line, pos, SubSize(SizeT(FindFirstOf(line, ' ')), 3));
    if second.Ok? {
      assert pos == 0 ==> FindLastOf(line, '-').NotFound?;
      assert forall k :: 0 <= k < |second.value| ==> second.value[k] != '-';
      StoiWithoutMinus(second.value);
    }
  }

  /** No endpoint pass 2 stores is negative. */
  lemma ParsedEndpointsNonNegative(lines: seq<string>)
    requires forall k :: 0 <= k < |lines| ==> |lines[k]| < MAX_SIZE
    ensures ParseLines(lines).Ok? ==>
      var edges := ParseLines(lines).value.edges;
      forall j :: 0 <= j < |edges| ==> 0 <= edges[j].0 && 0 <= edges[j].1
  {
    if ParseLines(lines).Ok? {
      ParseLinesContents(lines);
      SelectFrom(lines, IsEdgeLine);
      var edgeLines := EdgeLines(lines);
      forall j | 0 <= j < |edgeLines|
        ensures EdgeEndpoints(edgeLines[j]).Ok? ==>
          0 <= EdgeEndpoints(edgeLines[j]).value.0 && 0 <= EdgeEndpoints(edgeLines[j]).value.1
      {
        EndpointsNonNegative(edgeLines[j]);
      }
    }
  }

  /** The text the second endpoint is read from: after the last `-`, at
      most `s - 3` characters when the first space is at an index `s >= 3`,
      and the whole rest of the line when the subtraction wraps around (the
      first space before index 3, or no space). */
  function SecondEndpointText(line: string, last: nat): string
    requires last < |line|
  {
    match FindFirstOf(line, ' ')
    case At(s) =>
      if 3 <= s && s - 3 <= |line| - (last + 1) then line[last + 1..last + 1 + (s - 3)] else line[last + 1..]
    case NotFound => line[last + 1..]
  }

  /** On an edge line no `substr` throws: the endpoints are `stoi` of the
      text before the first `-` and of the text after the last `-` that
      `SecondEndpointText` describes, and only those `stoi` calls can fail. */
  lemma EdgeEndpointsAt(line: string, first: nat, last: nat)
    requires |line| < MAX_SIZE && IsEdgeLine(line)
    requires FindFirstOf(line, '-') == At(first) && FindLastOf(line, '-') == At(last)
    ensures EdgeEndpoints(line).Ok?
        <==> Stoi(line[..first]).Ok? && Stoi(SecondEndpointText(line, last)).Ok?
    ensures EdgeEndpoints(line).Ok? ==>
      EdgeEndpoints(line).value == (Stoi(line[..first]).value, Stoi(SecondEndpointText(line, last)).value)
    ensures Stoi(line[..first]).Err? ==> EdgeEndpoints(line) == Err(Stoi(line[..first]).error)
    ensures Stoi(line[..first]).Ok? && Stoi(SecondEndpointText(line, last)).Err? ==>
      EdgeEndpoints(line) == Err(Stoi(SecondEndpointText(line, last)).error)
  {
    assert Substr(line, 0, first) == Ok(line[..first]);
    SecondEndpointSubstr(line, last);
  }

  lemma SecondEndpointSubstr(line: string, last: nat)
    requires last < |line| < MAX_SIZE
    ensures Substr(line, AddSize(last, 1), SubSize(SizeT(FindFirstOf(line, ' ')), 3))
         == Ok(SecondEndpointText(line, last))
  {
    assert AddSize(last, 1) == last + 1;
    var len := SubSize(SizeT(FindFirstOf(line, ' ')), 3);
    match FindFirstOf(line, ' ')
    case NotFound =>
      assert len == NPOS - 3;
      SubstrRest(line, last + 1, len);
    case At(s) =>
      if s < 3 {
        assert len == SIZE_T_MODULUS - (3 - s);
        SubstrRest(line, last + 1, len);
      } else {
        assert len == s - 3;
      }
  }

  /** A line on which pass 2 raises no exception: its node id, when it is a
      position line, and its endpoints, when it is an edge line, are text
      that `stoi` reads (the `substr` calls never throw on such lines). */
  predicate LineOk(line: string) {
    (IsPositionLine(line) ==> PositionNodeId(line).Ok?) && (IsEdgeLine(line) ==> EdgeEndpoints(line).Ok?)
  }

  /** What pass 2 appends to each table for one line. */
  lemma ParseLineEffect(t: Tables, line: string)
    ensures ParseLine(t, line).Ok? <==> LineOk(line)
    ensures IsPositionLine(line) && PositionNodeId(line).Err? ==> ParseLine(t, line) == Err(PositionNodeId(line).error)
    ensures (IsPositionLine(line) ==> PositionNodeId(line).Ok?) && IsEdgeLine(line) && EdgeEndpoints(line).Err? ==>
      ParseLine(t, line) == Err(EdgeEndpoints(line).error)
    ensures IsPositionLine(line) ==> PositionCoordinates(line).Ok?
    ensures IsWeightedEdgeLine(line) ==> EdgeWeight(line).Ok?
    ensures ParseLine(t, line).Ok? ==>
      var u := ParseLine(t, line).value;
      && u.locations == t.locations + (if IsPositionLine(line) then [PositionCoordinates(line).value] else [])
      && u.nodes == t.nodes + (if IsPositionLine(line) then [PositionNodeId(line).value] else [])
      && u.edges == t.edges + (if IsEdgeLine(line) then [EdgeEndpoints(line).value] else [])
      && u.weights == t.weights + (if IsWeightedEdgeLine(line) then [EdgeWeight(line).value] else [])
  {
    if IsPositionLine(line) {
      PositionItemsEffect(t, line);
      if PositionItems(t, line).Ok? {
        EdgeItemsEffect(PositionItems(t, line).value, line);
      }
    } else {
      EdgeItemsEffect(t, line);
    }
  }

  lemma PositionItemsEffect(t: Tables, line: string)
    requires IsPositionLine(line)
    ensures PositionCoordinates(line).Ok?
    ensures PositionItems(t, line).Ok? <==> PositionNodeId(line).Ok?
    ensures PositionNodeId(line).Err? ==> PositionItems(t, line) == Err(PositionNodeId(line).error)
    ensures PositionItems(t, line).Ok? ==>
      PositionItems(t, line).value
        == t.(locations := t.locations + [PositionCoordinates(line).value], nodes := t.nodes + [PositionNodeId(line).value])
  {
    PositionLineHasComma(line);
    CommaFieldsNeverThrow(line);
  }

  lemma EdgeItemsEffect(t: Tables, line: string)
    ensures HasComma(line) ==> EdgeWeight(line).Ok?
    ensures EdgeItems(t, line).Ok? <==> EdgeEndpoints(line).Ok?
    ensures EdgeEndpoints(line).Err? ==> EdgeItems(t, line) == Err(EdgeEndpoints(line).error)
    ensures EdgeItems(t, line).Ok? ==>
      EdgeItems(t, line).value
        == t.(edges := t.edges + [EdgeEndpoints(line).value],
              weights := t.weights + if HasComma(line) then [EdgeWeight(line).value] else [])
  {
    if HasComma(line) {
      CommaFieldsNeverThrow(line);
    }
  }

  /** The tables hold, in file order, the coordinates and node ids of the
      position lines, one slot per such line. */
  predicate HoldsPositions(t: Tables, lines: seq<string>) {
    var positions := PositionLines(lines);
    && |t.locations| == |t.nodes| == |positions|
    && forall k :: 0 <= k < |positions| ==>
         PositionCoordinates(positions[k]) == Ok(t.locations[k]) && PositionNodeId(positions[k]) == Ok(t.nodes[k])
  }

  /** The tables hold the endpoints of the edge lines in file order. */
  predicate HoldsEdges(t: Tables, lines: seq<string>) {
    var edges := EdgeLines(lines);
    |t.edges| == |edges| && forall k :: 0 <= k < |edges| ==> EdgeEndpoints(edges[k]) == Ok(t.edges[k])
  }

  /** The tables hold the weights of the edge lines that have a comma, in
      file order. */
  predicate HoldsWeights(t: Tables, lines: seq<string>) {
    var weighted := WeightedLines(lines);
    |t.weights| == |weighted| && forall k :: 0 <= k < |weighted| ==> EdgeWeight(weighted[k]) == Ok(t.weights[k])
  }

  predicate AllLinesOk(lines: seq<string>) {
    All(lines, LineOk)
  }

  predicate All(lines: seq<string>, ok: string -> bool) {
    forall k :: 0 <= k < |lines| ==> ok(lines[k])
  }

  /** Pass 2 reads the whole file exactly when no line raises an exception. */
  lemma {:induction false} ParseLinesOk(lines: seq<string>)
    ensures ParseLines(lines).Ok? <==> AllLinesOk(lines)
  {
    if lines != [] {
      var n := |lines| - 1;
      var front := lines[..n];
      ParseLinesOk(front);
      AllLinesOkStep(lines);
      if ParseLines(front).Ok? {
        ParseLineEffect(ParseLines(front).value, lines[n]);
        assert ParseLines(lines) == ParseLine(ParseLines(front).value, lines[n]);
      } else {
        assert ParseLines(lines).Err?;
      }
    }
  }

  lemma AllLinesOkStep(lines: seq<string>)
    requires lines != []
    ensures AllLinesOk(lines) <==> AllLinesOk(lines[..|lines| - 1]) && LineOk(lines[|lines| - 1])
  {
    AllStep(lines, LineOk);
  }

  lemma AllStep(lines: seq<string>, ok: string -> bool)
    requires lines != []
    ensures All(lines, ok) <==> All(lines[..|lines| - 1], ok) && ok(lines[|lines| - 1])
  {
    var n := |lines| - 1;
    assert forall k :: 0 <= k < n ==> lines[..n][k] == lines[k];
  }

  /** When pass 2 reads the whole file, the tables hold, in file order, the
      coordinates and node ids of the position lines, the endpoints of the
      edge lines and the weights of the edge lines that have a comma, one
      slot per such line. */
  lemma {:induction false} ParseLinesContents(lines: seq<string>)
    requires ParseLines(lines).Ok?
    ensures HoldsPositions(ParseLines(lines).value, lines)
    ensures HoldsEdges(ParseLines(lines).value, lines)
    ensures HoldsWeights(ParseLines(lines).value, lines)
  {
    if lines != [] {
      var n := |lines| - 1;
      ParseLinesContents(lines[..n]);
      var t := ParseLines(lines[..n]).value;
      ParseLineEffect(t, lines[n]);
      SelectStep(lines, IsPositionLine, n);
      SelectStep(lines, IsEdgeLine, n);
      SelectStep(lines, IsWeightedEdgeLine, n);
      assert lines[..n + 1] == lines;
      PositionsStep(t, ParseLines(lines).value, lines[..n], lines[n]);
      EdgesStep(t, ParseLines(lines).value, lines[..n], lines[n]);
      WeightsStep(t, ParseLines(lines).value, lines[..n], lines[n]);
    }
  }

  lemma PositionsStep(t: Tables, u: Tables, front: seq<string>, line: string)
    requires HoldsPositions(t, front)
    requires IsPositionLine(line) ==> PositionCoordinates(line).Ok? && PositionNodeId(line).Ok?
    requires u.locations == t.locations + (if IsPositionLine(line) then [PositionCoordinates(line).value] else [])
    requires u.nodes == t.nodes + (if IsPositionLine(line) then [PositionNodeId(line).value] else [])
    ensures HoldsPositions(u, front + [line])
  {
    assert (front + [line])[..|front|] == front;
  }

  lemma EdgesStep(t: Tables, u: Tables, front: seq<string>, line: string)
    requires HoldsEdges(t, front)
    requires IsEdgeLine(line) ==> EdgeEndpoints(line).Ok?
    requires u.edges == t.edges + (if IsEdgeLine(line) then [EdgeEndpoints(line).value] else [])
    ensures HoldsEdges(u, front + [line])
  {
    assert (front + [line])[..|front|] == front;
  }

  lemma WeightsStep(t: Tables, u: Tables, front: seq<string>, line: string)
    requires HoldsWeights(t, front)
    requires IsWeightedEdgeLine(line) ==> EdgeWeight(line).Ok?
    requires u.weights == t.weights + (if IsWeightedEdgeLine(line) then [EdgeWeight(line).value] else [])
    ensures HoldsWeights(u, front + [line])
  {
    assert (front + [line])[..|front|] == front;
  }

  /** An exception ends pass 2: the outcome of a prefix that failed is the
      outcome of every longer prefix. */
  lemma {:induction false} ErrorPersists(lines: seq<string>, i: nat, j: nat)
    requires i <= j <= |lines|
    requires ParseLines(lines[..i]).Err?
    ensures ParseLines(lines[..j]) == ParseLines(lines[..i])
    decreases j - i
  {
    if i < j {
      ErrorPersists(lines, i, j - 1);
      ErrorStep(lines, j);
    }
  }

  /** One more line after an exception changes nothing. */
  lemma ErrorStep(lines: seq<string>, j: nat)
    requires 0 < j <= |lines| && ParseLines(lines[..j - 1]).Err?
    ensures ParseLines(lines[..j]) == ParseLines(lines[..j - 1])
  {
    assert lines[..j][..j - 1] == lines[..j - 1];
  }

  /** The tables pass 1 allocates, of the sizes it counted, with every slot
      set to zero. */
  method AllocateTables(posCount: nat, weightCount: nat, edgeCount: nat, nodeCount: nat)
    returns (locations: array<Location>, weights: array<real>, edgeArray: array<(int, int)>, nodes: array<int>)
    ensures fresh(locations) && fresh(weights) && fresh(edgeArray) && fresh(nodes)
    ensures locations.Length == posCount && weights.Length == weightCount
    ensures edgeArray.Length == edgeCount && nodes.Length == nodeCount
    ensures forall i :: 0 <= i < posCount ==> locations[i] == ORIGIN
    ensures forall i :: 0 <= i < weightCount ==> weights[i] == 0.0
    ensures forall i :: 0 <= i < edgeCount ==> edgeArray[i] == (0, 0)
    ensures forall i :: 0 <= i < nodeCount ==> nodes[i] == 0
  {
    locations := ZeroLocations(posCount);
    weights := ZeroReals(weightCount);
    edgeArray := ZeroPairs(edgeCount);
    nodes := ZeroInts(nodeCount);
  }

  method ZeroLocations(n: nat) returns (a: array<Location>)
    ensures fresh(a) && a.Length == n
    ensures forall i :: 0 <= i < n ==> a[i] == ORIGIN
  {
    a := new Location[n];
    for i := 0 to n
      invariant forall k :: 0 <= k < i ==> a[k] == ORIGIN
    {
      a[i] := a[i].(x := 0.0);
      a[i] := a[i].(y := 0.0);
    }
  }

  method ZeroReals(n: nat) returns (a: array<real>)
    ensures fresh(a) && a.Length == n
    ensures forall i :: 0 <= i < n ==> a[i] == 0.0
  {
    a := new real[n];
    for i := 0 to n
      invariant forall k :: 0 <= k < i ==> a[k] == 0.0
    {
      a[i] := 0.0;
    }
  }

  method ZeroPairs(n: nat) returns (a: array<(int, int)>)
    ensures fresh(a) && a.Length == n
    ensures forall i :: 0 <= i < n ==> a[i] == (0, 0)
  {
    a := new (int, int)[n];
    for i := 0 to n
      invariant forall k :: 0 <= k < i ==> a[k] == (0, 0)
    {
      a[i] := (0, 0);
    }
  }

  method ZeroInts(n: nat) returns (a: array<int>)
    ensures fresh(a) && a.Length == n
    ensures forall i :: 0 <= i < n ==> a[i] == 0
  {
    a := new int[n];
    for i := 0 to n
      invariant forall k :: 0 <= k < i ==> a[k] == 0
    {
      a[i] := 0;
    }
  }

  /** The counters of pass 2. */
  datatype Counters = Counters(weightCounter: nat, posCounter: nat, nodeCounter: nat, edgeCounter: nat)

  /** The first `|t.…|` slots of each array hold the tables `t`, and the
      counters are the tables' sizes. */
  ghost predicate Stored(t: Tables, c: Counters, locations: array<Location>, weights: array<real>,
                         edgeArray: array<(int, int)>, nodes: array<int>)
    reads locations, weights, edgeArray, nodes
  {
    && c == Counters(|t.weights|, |t.locations|, |t.nodes|, |t.edges|)
    && |t.locations| <= locations.Length && locations[..|t.locations|] == t.locations
    && |t.nodes| <= nodes.Length && nodes[..|t.nodes|] == t.nodes
    && |t.edges| <= edgeArray.Length && edgeArray[..|t.edges|] == t.edges
    && |t.weights| <= weights.Length && weights[..|t.weights|] == t.weights
  }

  /** One iteration of pass 2: a position line stores its coordinates, then
      its node id; an edge line stores its endpoints, then its weight when
      it has a comma. An exception is the outcome of `ParseLine`'s. */
  method ReadLine(line: string, ghost t: Tables, c: Counters, locations: array<Location>, weights: array<real>,
                  edgeArray: array<(int, int)>, nodes: array<int>)
    returns (r: Result<Counters>)
    requires Stored(t, c, locations, weights, edgeArray, nodes)
    requires IsPositionLine(line) ==> c.posCounter < locations.Length && c.nodeCounter < nodes.Length
    requires IsEdgeLine(line) ==> c.edgeCounter < edgeArray.Length && c.weightCounter < weights.Length
    modifies locations, weights, edgeArray, nodes
    ensures r.Err? ==> ParseLine(t, line) == Err(r.error)
    ensures r.Ok? ==> ParseLine(t, line).Ok? && Stored(ParseLine(t, line).value, r.value, locations, weights, edgeArray, nodes)
    ensures r.Ok? ==> c.weightCounter <= r.value.weightCounter
    ensures r.Ok? ==> forall k :: r.value.weightCounter <= k < weights.Length ==> weights[k] == old(weights[k])
  {
    ParseLineEffect(t, line);
    ghost var t1 := t;
    var c1 := c;
    if IsPositionLine(line) {
      var p := StorePosition(PositionCoordinates(line).value, PositionNodeId(line), t, c, locations, weights, edgeArray, nodes);
      if p.Err? {
        return Err(p.error);
      }
      c1 := p.value;
      t1 := t.(locations := t.locations + [PositionCoordinates(line).value], nodes := t.nodes + [PositionNodeId(line).value]);
    }
    if IsEdgeLine(line) {
      var e := EdgeEndpoints(line);
      if e.Err? {
        return Err(e.error);
      }
      var weight := if HasComma(line) then Some(EdgeWeight(line).value) else None;
      var c2 := StoreEdge(e.value, weight, t1, c1, locations, weights, edgeArray, nodes);
      r := Ok(c2);
    } else {
      r := Ok(c1);
    }
  }

  /** The position branch: the coordinates are stored and counted before
      the node id is converted, so a bad id leaves them behind. */
  method StorePosition(location: Location, id: Result<int>, ghost t: Tables, c: Counters,
                       locations: array<Location>, weights: array<real>, edgeArray: array<(int, int)>, nodes: array<int>)
    returns (r: Result<Counters>)
    requires Stored(t, c, locations, weights, edgeArray, nodes)
    requires c.posCounter < locations.Length && c.nodeCounter < nodes.Length
    modifies locations, nodes
    ensures locations[c.posCounter] == location
    ensures r.Err? ==> id.Err? && r.error == id.error
    ensures r.Ok? ==> id.Ok? && r.value == c.(posCounter := c.posCounter + 1, nodeCounter := c.nodeCounter + 1)
    ensures r.Ok? ==>
      Stored(t.(locations := t.locations + [location], nodes := t.nodes + [id.value]), r.value,
             locations, weights, edgeArray, nodes)
  {
    locations[c.posCounter] := location;
    if id.Err? {
      return Err(id.error);
    }
    nodes[c.nodeCounter] := id.value;
    r := Ok(c.(posCounter := c.posCounter + 1, nodeCounter := c.nodeCounter + 1));
  }

  /** The edge branch once the endpoints are read: the endpoints, then the
      weight if there is one. */
  method StoreEdge(endpoints: (int, int), weight: Option<real>, ghost t: Tables, c: Counters,
                   locations: array<Location>, weights: array<real>, edgeArray: array<(int, int)>, nodes: array<int>)
    returns (c1: Counters)
    requires Stored(t, c, locations, weights, edgeArray, nodes)
    requires c.edgeCounter < edgeArray.Length && c.weightCounter < weights.Length
    modifies edgeArray, weights
    ensures Stored(t.(edges := t.edges + [endpoints], weights := t.weights + if weight.Some? then [weight.value] else []),
                   c1, locations, weights, edgeArray, nodes)
    ensures c.weightCounter <= c1.weightCounter
    ensures forall k :: c1.weightCounter <= k < weights.Length ==> weights[k] == old(weights[k])
  {
    edgeArray[c.edgeCounter] := endpoints;
    c1 := c.(edgeCounter := c.edgeCounter + 1);
    if weight.Some? {
      weights[c.weightCounter] := weight.value;
      c1 := c1.(weightCounter := c.weightCounter + 1);
    }
  }

  /** Pass 2: reads every line into the tables pass 1 sized. It stops at the
      first exception; otherwise the counters are the numbers of values
      stored, the tables hold `ParseLines(lines)`, and the weight slots
      beyond the last weighted line keep their old value. */
  method FillTables(lines: seq<string>, locations: array<Location>, weights: array<real>,
                    edgeArray: array<(int, int)>, nodes: array<int>)
    returns (r: Result<Counters>)
    requires locations.Length == nodes.Length == |PositionLines(lines)|
    requires edgeArray.Length == weights.Length == |EdgeLines(lines)|
    modifies locations, weights, edgeArray, nodes
    ensures r.Err? ==> ParseLines(lines) == Err(r.error)
    ensures r.Ok? ==> ParseLines(lines).Ok?
    ensures r.Ok? ==>
      var t := ParseLines(lines).value;
      && Stored(t, r.value, locations, weights, edgeArray, nodes)
      && locations[..] == t.locations && nodes[..] == t.nodes && edgeArray[..] == t.edges
      && (forall k :: r.value.weightCounter <= k < weights.Length ==> weights[k] == old(weights[k]))
  {
    var c := Counters(0, 0, 0, 0);
    ghost var t := EMPTY;
    var i := 0;
    assert lines[..0] == [];
    while i < |lines|
      invariant i <= |lines|
      invariant ParseLines(lines[..i]) == Ok(t)
      invariant Stored(t, c, locations, weights, edgeArray, nodes)
      invariant forall k :: c.weightCounter <= k < weights.Length ==> weights[k] == old(weights[k])
    {
      FillStep(lines, i);
      var next := ReadLine(lines[i], t, c, locations, weights, edgeArray, nodes);
      if next.Err? {
        ErrorToEnd(lines, i + 1);
        return Err(next.error);
      }
      c := next.value;
      t := ParseLine(t, lines[i]).value;
      i := i + 1;
    }
    FilledToEnd(lines, c, locations, weights, edgeArray, nodes);
    r := Ok(c);
  }

  lemma ErrorToEnd(lines: seq<string>, i: nat)
    requires i <= |lines| && ParseLines(lines[..i]).Err?
    ensures ParseLines(lines) == ParseLines(lines[..i])
  {
    ErrorPersists(lines, i, |lines|);
    assert lines[..|lines|] == lines;
  }

  /** Once every line is read, the arrays, sized by pass 1, are full. */
  lemma FilledToEnd(lines: seq<string>, c: Counters, locations: array<Location>, weights: array<real>,
                    edgeArray: array<(int, int)>, nodes: array<int>)
    requires locations.Length == nodes.Length == |PositionLines(lines)|
    requires edgeArray.Length == |EdgeLines(lines)|
    requires ParseLines(lines[..|lines|]).Ok?
    requires Stored(ParseLines(lines[..|lines|]).value, c, locations, weights, edgeArray, nodes)
    ensures ParseLines(lines).Ok?
    ensures var t := ParseLines(lines).value;
      && Stored(t, c, locations, weights, edgeArray, nodes)
      && locations[..] == t.locations && nodes[..] == t.nodes && edgeArray[..] == t.edges
  {
    assert lines[..|lines|] == lines;
    ParseLinesContents(lines);
  }

  /** What one iteration of pass 2 needs: the next line extends the tables
      read so far, and a slot is left for each value it stores. */
  lemma FillStep(lines: seq<string>, i: nat)
    requires i < |lines| && ParseLines(lines[..i]).Ok?
    ensures ParseLines(lines[..i + 1]) == ParseLine(ParseLines(lines[..i]).value, lines[i])
    ensures var t := ParseLines(lines[..i]).value;
      && (IsPositionLine(lines[i]) ==> |t.locations| < |PositionLines(lines)| && |t.nodes| < |PositionLines(lines)|)
      && (IsEdgeLine(lines[i]) ==> |t.edges| < |EdgeLines(lines)| && |t.weights| < |EdgeLines(lines)|)
  {
    assert lines[..i + 1][..i] == lines[..i];
    ParseLinesContents(lines[..i]);
    InBounds(lines, i);
    WeightedFewer(lines[..i]);
  }

  /** No more lines carry a weight than carry an edge. */
  lemma {:induction false} WeightedFewer(lines: seq<string>)
    ensures |WeightedLines(lines)| <= |EdgeLines(lines)|
  {
    if lines != [] {
      var n := |lines| - 1;
      WeightedFewer(lines[..n]);
      SelectStep(lines, IsWeightedEdgeLine, n);
      SelectStep(lines, IsEdgeLine, n);
      assert lines[..n + 1] == lines;
    }
  }

  /** Pass 2 writes in bounds: the next position, edge or weight slot of a
      line is below the size pass 1 counted. */
  lemma InBounds(lines: seq<string>, i: nat)
    requires i < |lines|
    ensures |PositionLines(lines[..i + 1])| == |PositionLines(lines[..i])| + if IsPositionLine(lines[i]) then 1 else 0
    ensures |EdgeLines(lines[..i + 1])| == |EdgeLines(lines[..i])| + if IsEdgeLine(lines[i]) then 1 else 0
    ensures |PositionLines(lines[..i + 1])| <= |PositionLines(lines)|
    ensures |EdgeLines(lines[..i + 1])| <= |EdgeLines(lines)|
  {
    SelectStep(lines, IsPositionLine, i);
    SelectStep(lines, IsEdgeLine, i);
    SelectPrefix(lines, IsPositionLine, i + 1, |lines|);
    SelectPrefix(lines, IsEdgeLine, i + 1, |lines|);
    assert lines[..|lines|] == lines;
  }
}
