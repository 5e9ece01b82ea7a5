/**
  The lines of a Graphviz file the parser is written for, and what pass 2
  reads back from them: a position line gives back its coordinates and node
  id, an edge line its endpoints and weight, as long as the first endpoint
  has at most two digits. Longer first endpoints meet the `- 3` length of
  the second endpoint's `substr`: three or four digits make `stoi` throw,
  five digits truncate the second endpoint.
 */
module DotLines {
  import opened Text
  import opened Geometry
  import opened DotParser

  /** `<id> [shape=point,pos="<x>,<y>"]`, the line Graphviz writes for a node. */
  function PositionLine(id: nat, x: nat, y: nat): string {
    PositionHead(id) + PositionAttribute(x, y)
  }

  function PositionHead(id: nat): string {
    Digits(id) + " [shape=point"
  }

  function PositionAttribute(x: nat, y: nat): string {
    ",pos=\"" + Digits(x) + "," + Digits(y) + "\"]"
  }

  /** `<u> -- <v> [style=bold,label="<w>"]`, the line Graphviz writes for an
      undirected edge. */
  function EdgeLine(u: nat, v: nat, w: nat): string {
    Digits(u) + " --" + EdgeRest(v, w)
  }

  function EdgeRest(v: nat, w: nat): string {
    " " + Digits(v) + EdgeTail(w)
  }

  function EdgeTail(w: nat): string {
    " [style=bold" + LabelAttribute(w)
  }

  function LabelAttribute(w: nat): string {
    ",label=\"" + Digits(w) + "\"]"
  }

  /** Pass 2 reads back a position line: it is a position line and not an
      edge line, its coordinates are `x` and `y` and its node id is `id`. */
  lemma PositionLineRoundTrip(t: Tables, id: nat, x: nat, y: nat)
    requires id <= INT_MAX && |PositionLine(id, x, y)| < MAX_SIZE
    ensures IsPositionLine(PositionLine(id, x, y)) && !IsEdgeLine(PositionLine(id, x, y))
    ensures PositionCoordinates(PositionLine(id, x, y)) == Ok(Location(y as real, x as real))
    ensures PositionNodeId(PositionLine(id, x, y)) == Ok(id)
    ensures ParseLine(t, PositionLine(id, x, y))
         == Ok(t.(locations := t.locations + [Location(y as real, x as real)], nodes := t.nodes + [id]))
  {
    var line := PositionLine(id, x, y);
    PositionLineKind(id, x, y);
    PositionLineCoordinates(id, x, y);
    PositionLineNodeId(id, x, y);
    ParseLineEffect(t, line);
  }

  lemma PositionLineKind(id: nat, x: nat, y: nat)
    ensures IsPositionLine(PositionLine(id, x, y)) && !IsEdgeLine(PositionLine(id, x, y))
  {
    var line := PositionLine(id, x, y);
    var head := PositionHead(id);
    assert line[|head|..|head| + 5] == ",pos=";
    ContainsAt(line, ",pos=", |head|);
    DigitsLack(id, '-');
    DigitsLack(x, '-');
    DigitsLack(y, '-');
    assert '-' !in line;
    if IsEdgeLine(line) {
      ContainsFirst(line, "--");
    }
  }

  lemma PositionLineCoordinates(id: nat, x: nat, y: nat)
    requires |PositionLine(id, x, y)| < MAX_SIZE
    ensures HasComma(PositionLine(id, x, y))
    ensures PositionCoordinates(PositionLine(id, x, y)) == Ok(Location(y as real, x as real))
  {
    PositionLineSplit(id, x, y);
    CoordinatesOfAttribute(PositionLine(id, x, y), x, y);
  }

  /** A line whose text from the first comma on is a `pos` attribute has
      that attribute's coordinates. */
  lemma CoordinatesOfAttribute(line: string, x: nat, y: nat)
    requires |line| < MAX_SIZE && HasComma(line) && CommaSplit(line) == PositionAttribute(x, y)
    ensures PositionCoordinates(line) == Ok(Location(y as real, x as real))
  {
    var xs, ys := Digits(x), Digits(y);
    AttributeQuotes(x, y);
    AttributeComma(x, y);
    AttributeFields(x, y);
    PositionCoordinatesAt(line, 5, 6 + |xs|, 7 + |xs| + |ys|);
    StrtofOfDigits(x, []);
    StrtofOfDigits(y, []);
  }

  /** The text from the first comma on is the `pos` attribute. */
  lemma PositionLineSplit(id: nat, x: nat, y: nat)
    ensures HasComma(PositionLine(id, x, y)) && CommaSplit(PositionLine(id, x, y)) == PositionAttribute(x, y)
  {
    var head := PositionHead(id);
    var attribute := PositionAttribute(x, y);
    DigitsLack(id, ',');
    assert ',' !in head;
    FirstOfAt(attribute, ',', 0);
    FirstOfAfter(head, attribute, ',');
    assert (head + attribute)[|head|..] == attribute;
  }

  lemma AttributeFields(x: nat, y: nat)
    ensures var xs, ys := Digits(x), Digits(y);
      && PositionAttribute(x, y)[6..6 + |xs|] == xs + []
      && PositionAttribute(x, y)[7 + |xs|..7 + |xs| + |ys|] == ys + []
  {
  }

  lemma AttributeQuotes(x: nat, y: nat)
    ensures FindFirstOf(PositionAttribute(x, y), '"') == At(5)
    ensures FindLastOf(PositionAttribute(x, y), '"') == At(7 + |Digits(x)| + |Digits(y)|)
  {
    var attribute := PositionAttribute(x, y);
    FirstOfAt(attribute, '"', 5);
    LastOfAt(attribute, '"', |attribute| - 2);
  }

  lemma AttributeComma(x: nat, y: nat)
    ensures FindLastOf(PositionAttribute(x, y), ',') == At(6 + |Digits(x)|)
  {
    var front := ",pos=\"" + Digits(x) + ",";
    var back := Digits(y) + "\"]";
    DigitsLack(y, ',');
    assert PositionAttribute(x, y) == front + back;
    LastOfAt(front, ',', |front| - 1);
    LastOfBefore(front, back, ',');
  }

  lemma PositionLineNodeId(id: nat, x: nat, y: nat)
    requires id <= INT_MAX && |PositionLine(id, x, y)| < MAX_SIZE
    ensures PositionNodeId(PositionLine(id, x, y)) == Ok(id)
  {
    var line := PositionLine(id, x, y);
    var ds := Digits(id);
    DigitsLack(id, '[');
    assert line[|ds| + 1] == '[';
    FirstOfAt(line, '[', |ds| + 1);
    assert line[..|ds| + 1] == ds + " ";
    NodeIdBeforeBracket(line, id, |ds| + 1);
  }

  /** A line whose text before its first `[` is a number and a blank has
      that number as its node id. */
  lemma NodeIdBeforeBracket(line: string, id: nat, b: nat)
    requires id <= INT_MAX && |line| < MAX_SIZE
    requires FindFirstOf(line, '[') == At(b) && line[..b] == Digits(id) + " "
    ensures PositionNodeId(line) == Ok(id)
  {
    PositionNodeIdAt(line);
    StoiOfDigits(id, " ");
  }

  /** Pass 2 reads back an edge line whose first endpoint has at most two
      digits: it is an edge line and not a position line, its endpoints are
      `u` and `v` and its weight is `w`. */
  lemma EdgeLineRoundTrip(t: Tables, u: nat, v: nat, w: nat)
    requires u < 100 && v <= INT_MAX && |EdgeLine(u, v, w)| < MAX_SIZE
    ensures IsEdgeLine(EdgeLine(u, v, w)) && !IsPositionLine(EdgeLine(u, v, w))
    ensures EdgeEndpoints(EdgeLine(u, v, w)) == Ok((u, v))
    ensures EdgeWeight(EdgeLine(u, v, w)) == Ok(w as real)
    ensures ParseLine(t, EdgeLine(u, v, w)) == Ok(t.(edges := t.edges + [(u, v)], weights := t.weights + [w as real]))
  {
    var line := EdgeLine(u, v, w);
    EdgeLineFields(u, v, w);
    DigitsLength(u, 2);
    assert Pow10(2) == 100;
    EndpointsShortFirst(line, u, v, EdgeTail(w));
    EdgeLineComma(u, v, w);
    EdgeWeightOfLabel(line, w);
    ParseLineEffect(t, line);
  }

  /** A first endpoint of three or four digits leaves the second endpoint's
      text empty or a single blank, and `stoi` throws `invalid_argument`. */
  lemma EdgeLineThreeOrFourDigits(u: nat, v: nat, w: nat)
    requires 100 <= u < 10000 && |EdgeLine(u, v, w)| < MAX_SIZE
    ensures IsEdgeLine(EdgeLine(u, v, w))
    ensures EdgeEndpoints(EdgeLine(u, v, w)) == Err(InvalidArgument)
  {
    EdgeLineFields(u, v, w);
    DigitsLength(u, 2);
    DigitsLength(u, 4);
    assert Pow10(2) == 100 && Pow10(4) == 10000;
    EndpointsThreeOrFour(EdgeLine(u, v, w), u, v, EdgeTail(w));
  }

  /** A first endpoint of five digits cuts the second endpoint's text to a
      blank and one character: a two-digit second endpoint loses its last
      digit, so `10000 -- 57` is read as the edge (10000, 5). */
  lemma EdgeLineFiveDigits(u: nat, v: nat, w: nat)
    requires 10000 <= u < 100000 && 10 <= v < 100 && |EdgeLine(u, v, w)| < MAX_SIZE
    ensures IsEdgeLine(EdgeLine(u, v, w))
    ensures EdgeEndpoints(EdgeLine(u, v, w)) == Ok((u, v / 10))
  {
    EdgeLineFields(u, v, w);
    DigitsLength(u, 4);
    DigitsLength(u, 5);
    assert Pow10(4) == 10000 && Pow10(5) == 100000;
    assert Digits(v) == Digits(v / 10) + [('0' as int + v % 10) as char];
    EndpointsFiveFirst(EdgeLine(u, v, w), u, v, EdgeTail(w));
  }

  /** The dashes and the first blank of `<head> --<rest>`, where the head
      has neither and the rest has no dash. */
  predicate DashFields(line: string, head: string, rest: string) {
    && |head| + 3 <= |line|
    && FindFirstOf(line, '-') == At(|head| + 1)
    && FindLastOf(line, '-') == At(|head| + 2)
    && FindFirstOf(line, ' ') == At(|head|)
    && line[..|head| + 1] == head + " "
    && line[|head| + 3..] == rest
    && IsEdgeLine(line)
  }

  lemma DashShape(head: string, rest: string)
    requires '-' !in head && ' ' !in head && '-' !in rest
    ensures DashFields(head + " --" + rest, head, rest)
  {
    var line := head + " --" + rest;
    var front := head + " --";
    assert line == head + (" --" + rest);
    FirstOfAt(" --" + rest, '-', 1);
    FirstOfAfter(head, " --" + rest, '-');
    FirstOfAt(" --" + rest, ' ', 0);
    FirstOfAfter(head, " --" + rest, ' ');
    LastOfAt(front, '-', |head| + 2);
    LastOfBefore(front, rest, '-');
    assert line[..|head| + 1] == head + " ";
    assert line[|head| + 3..] == rest;
    assert line[|head| + 1..|head| + 3] == "--";
    ContainsAt(line, "--", |head| + 1);
  }

  lemma EdgeLineFields(u: nat, v: nat, w: nat)
    ensures DashFields(EdgeLine(u, v, w), Digits(u), EdgeRest(v, w))
    ensures EdgeRest(v, w) == " " + (Digits(v) + EdgeTail(w))
  {
    DigitsLack(u, '-');
    DigitsLack(u, ' ');
    RestLacksDash(v, w);
    DashShape(Digits(u), EdgeRest(v, w));
  }

  lemma RestLacksDash(v: nat, w: nat)
    ensures '-' !in EdgeRest(v, w)
    ensures EdgeRest(v, w) == " " + (Digits(v) + EdgeTail(w))
  {
    DigitsLack(v, '-');
    DigitsLack(w, '-');
  }

  /** The text after the last dash of a dash-shaped line that the second
      endpoint is read from. */
  lemma SecondTextOf(line: string, head: string, rest: string)
    requires DashFields(line, head, rest)
    ensures SecondEndpointText(line, |head| + 2)
        == if 3 <= |head| && |head| - 3 <= |rest| then rest[..|head| - 3] else rest
  {
  }

  /** The first endpoint of a dash-shaped line with a number for head. */
  lemma FirstEndpoint(line: string, u: nat, rest: string)
    requires u <= INT_MAX && DashFields(line, Digits(u), rest)
    ensures Stoi(line[..|Digits(u)| + 1]) == Ok(u)
  {
    StoiOfDigits(u, " ");
  }

  lemma EndpointsShortFirst(line: string, u: nat, v: nat, tail: string)
    requires |line| < MAX_SIZE && u <= INT_MAX && v <= INT_MAX && |Digits(u)| < 3
    requires DashFields(line, Digits(u), " " + (Digits(v) + tail))
    requires tail != [] && !IsDigit(tail[0])
    ensures EdgeEndpoints(line) == Ok((u, v))
  {
    SecondTextOf(line, Digits(u), " " + (Digits(v) + tail));
    StoiAfterSpace(Digits(v) + tail);
    StoiOfDigits(v, tail);
    FirstEndpoint(line, u, " " + (Digits(v) + tail));
    EdgeEndpointsAt(line, |Digits(u)| + 1, |Digits(u)| + 2);
  }

  lemma EndpointsThreeOrFour(line: string, u: nat, v: nat, tail: string)
    requires |line| < MAX_SIZE && u <= INT_MAX && 3 <= |Digits(u)| <= 4
    requires DashFields(line, Digits(u), " " + (Digits(v) + tail))
    ensures EdgeEndpoints(line) == Err(InvalidArgument)
  {
    var rest := " " + (Digits(v) + tail);
    SecondTextOf(line, Digits(u), rest);
    BlankOrNothing(rest, |Digits(u)| - 3);
    FirstEndpoint(line, u, rest);
    EdgeEndpointsAt(line, |Digits(u)| + 1, |Digits(u)| + 2);
  }

  /** Nothing, or only the blank that opens `rest`, holds no number. */
  lemma BlankOrNothing(rest: string, n: nat)
    requires n <= 1 && rest != [] && rest[0] == ' '
    ensures Stoi(rest[..n]) == Err(InvalidArgument)
  {
    if n == 1 {
      assert rest[..n] == " " + "";
      StoiAfterSpace("");
    }
  }

  lemma EndpointsFiveFirst(line: string, u: nat, v: nat, tail: string)
    requires |line| < MAX_SIZE && u <= INT_MAX && |Digits(u)| == 5 && 10 <= v < 100
    requires Digits(v) == Digits(v / 10) + [('0' as int + v % 10) as char]
    requires DashFields(line, Digits(u), " " + (Digits(v) + tail))
    ensures EdgeEndpoints(line) == Ok((u, v / 10))
  {
    var rest := " " + (Digits(v) + tail);
    SecondTextOf(line, Digits(u), rest);
    assert rest[..2] == " " + (Digits(v / 10) + []);
    StoiAfterSpace(Digits(v / 10) + []);
    StoiOfDigits(v / 10, []);
    FirstEndpoint(line, u, rest);
    EdgeEndpointsAt(line, |Digits(u)| + 1, |Digits(u)| + 2);
  }

  /** An edge line holds one comma, the one that opens its `label`
      attribute, and so no `,pos=`. */
  lemma EdgeLineComma(u: nat, v: nat, w: nat)
    ensures HasComma(EdgeLine(u, v, w)) && CommaSplit(EdgeLine(u, v, w)) == LabelAttribute(w)
    ensures !IsPositionLine(EdgeLine(u, v, w))
  {
    var front := Digits(u) + " --" + " " + Digits(v) + " [style=bold";
    DigitsLack(u, ',');
    DigitsLack(v, ',');
    assert ',' !in front;
    assert EdgeLine(u, v, w) == front + LabelAttribute(w);
    LabelHasOneComma(w);
    CommaShape(front, LabelAttribute(w));
  }

  lemma LabelHasOneComma(w: nat)
    ensures LabelAttribute(w) == "," + LabelAttribute(w)[1..]
    ensures ',' !in LabelAttribute(w)[1..] && LabelAttribute(w)[1] == 'l'
  {
    DigitsLack(w, ',');
    assert LabelAttribute(w)[1..] == "label=\"" + Digits(w) + "\"]";
  }

  /** `<front><attribute>` where only the attribute's first character is a
      comma, and the next one is not `p`. */
  lemma CommaShape(front: string, attribute: string)
    requires ',' !in front && |attribute| >= 2 && attribute == "," + attribute[1..]
    requires ',' !in attribute[1..] && attribute[1] != 'p'
    ensures HasComma(front + attribute) && CommaSplit(front + attribute) == attribute
    ensures !IsPositionLine(front + attribute)
  {
    var line := front + attribute;
    FirstOfAt(attribute, ',', 0);
    FirstOfAfter(front, attribute, ',');
    assert line == (front + [',']) + attribute[1..];
    LastOfAt(front + [','], ',', |front|);
    LastOfBefore(front + [','], attribute[1..], ',');
    assert line[|front| + 1] == attribute[1];
    MismatchAt(line, ",pos=", |front|, 1);
    NotContainsOnce(line, ",pos=", |front|);
    assert line[|front|..] == attribute;
  }

  /** A line whose text from the first comma on is a `label` attribute has
      that attribute's weight. */
  lemma EdgeWeightOfLabel(line: string, w: nat)
    requires |line| < MAX_SIZE && HasComma(line) && CommaSplit(line) == LabelAttribute(w)
    ensures EdgeWeight(line) == Ok(w as real)
  {
    var attribute := LabelAttribute(w);
    var dw := Digits(w);
    FirstOfAt(attribute, '"', 7);
    LastOfAt(attribute, '"', |attribute| - 2);
    assert attribute[8..8 + |dw|] == dw + [];
    EdgeWeightAt(line, 7, 8 + |dw|);
    StrtofOfDigits(w, []);
  }
}
