/** The graph of a trace: one rectangle per span below a root rectangle, and one edge per span. */
module TraceLayout {
  import opened TraceForest

  const NODE_WIDTH := 168
  const NODE_HEIGHT := 52
  const TINY_NODE_HEIGHT := 34
  const X_GAP := 42
  const Y_GAP := 54
  const MARGIN := 24

  // Node 0 is the root, node i + 1 is span i.
  datatype Node = Node(x: int, y: int, width: int, height: int)

  datatype Edge = Edge(
    parent: nat, child: nat, x1: int, y1: int, yMid: int, x2: int, y2: int,
    arrowLeft: int, arrowRight: int, arrowBase: int)

  datatype Graph = Graph(width: int, height: int, nodes: seq<Node>, edges: seq<Edge>)

  // Integer division of i32 rounds towards zero.
  function Half(n: int): int {
    if 0 <= n then n / 2 else -((-n) / 2)
  }

  // ----- depths and rows -----

  predicate Linked(spans: seq<SpanView>) {
    exists i :: 0 <= i < |spans| && HasParentSpanId(spans[i])
  }

  function DepthAt(spans: seq<SpanView>, ghost rank: seq<nat>, i: nat): (d: nat)
    requires Ranked(spans, rank) && i < |spans|
    ensures 1 <= d
  {
    if Linked(spans) then SpanDepth(i, spans, rank) else i + 1
  }

  function Count(s: seq<nat>, x: nat): nat {
    if s == [] then 0 else Count(s[..|s| - 1], x) + if s[|s| - 1] == x then 1 else 0
  }

  // How many earlier spans have the same depth.
  function RowAt(depths: seq<nat>, i: nat): nat
    requires i < |depths|
  {
    Count(depths[..i], depths[i])
  }

  lemma {:induction false} CountGrows(depths: seq<nat>, i: nat, j: nat)
    requires i < j <= |depths|
    ensures Count(depths[..i], depths[i]) < Count(depths[..j], depths[i])
    decreases j
  {
    assert depths[..j][..j - 1] == depths[..j - 1];
    if i < j - 1 {
      CountGrows(depths, i, j - 1);
    }
  }

  lemma {:induction false} CountBound(s: seq<nat>, x: nat)
    ensures Count(s, x) <= |s|
  {
    if s != [] { CountBound(s[..|s| - 1], x); }
  }

  lemma SizesBounded(spans: seq<SpanView>, rank: seq<nat>, depths: seq<nat>, i: nat)
    requires Ranked(spans, rank) && |depths| == |spans| && i < |spans| && depths[i] == DepthAt(spans, rank, i)
    ensures depths[i] <= |spans| && RowAt(depths, i) < |spans|
  {
    DepthBound(spans, rank, i);
    CountBound(depths[..i], depths[i]);
  }

  method AssignRows(depths: seq<nat>) returns (rows: seq<nat>)
    ensures |rows| == |depths|
    ensures forall i :: 0 <= i < |rows| ==> rows[i] == RowAt(depths, i)
  {
    var counts: map<nat, nat> := map[];
    rows := [];
    for i := 0 to |depths|
      invariant |rows| == i
      invariant forall k :: 0 <= k < i ==> rows[k] == RowAt(depths, k)
      invariant forall d: nat :: (if d in counts then counts[d] else 0) == Count(depths[..i], d)
    {
      var d := depths[i];
      var row := if d in counts then counts[d] else 0;
      rows := rows + [row];
      counts := counts[d := row + 1];
      assert depths[..i + 1][..i] == depths[..i];
    }
  }

  method Largest(s: seq<nat>) returns (m: nat)
    requires s != []
    ensures m in s && forall i :: 0 <= i < |s| ==> s[i] <= m
  {
    m := s[0];
    for i := 0 to |s|
      invariant m in s && forall k :: 0 <= k < i ==> s[k] <= m
    {
      if m < s[i] { m := s[i]; }
    }
  }

  // ----- rectangles -----

  function RootNode(maxRow: nat): Node {
    Node(MARGIN + Half(maxRow * (NODE_WIDTH + X_GAP)), MARGIN, NODE_WIDTH, NODE_HEIGHT)
  }

  function HeightOf(s: SpanView): int {
    if s.durationMs == 0 then TINY_NODE_HEIGHT else NODE_HEIGHT
  }

  function SpanNode(s: SpanView, depth: nat, row: nat): Node {
    Node(MARGIN + row * (NODE_WIDTH + X_GAP), MARGIN + depth * (NODE_HEIGHT + Y_GAP), NODE_WIDTH, HeightOf(s))
  }

  ghost predicate Apart(a: Node, b: Node) {
    a.x + a.width <= b.x || b.x + b.width <= a.x || a.y + a.height <= b.y || b.y + b.height <= a.y
  }

  ghost predicate Inside(n: Node, g: Graph) {
    0 <= n.x && n.x + n.width <= g.width && 0 <= n.y && n.y + n.height <= g.height
  }

  // The node that the edge of span i comes from: in linked mode whatever span has the id that
  // the span names as its parent, otherwise the span before it.
  function ParentNode(spans: seq<SpanView>, i: nat): (p: nat)
    requires i < |spans|
    ensures p <= |spans|
  {
    if Linked(spans) then
      var m := IndexById(spans);
      if spans[i].parentSpanId in m then m[spans[i].parentSpanId] + 1 else 0
    else i
  }

  // Node p stands for the last span with the id that span i names, or for the root when there is none;
  // in a trace in which no span names a parent, for what comes just before span i.
  ghost predicate IsParentNode(spans: seq<SpanView>, i: nat, p: nat)
    requires i < |spans|
  {
    if exists k :: 0 <= k < |spans| && spans[k].parentSpanId != "" then
      if p == 0 then forall q :: 0 <= q < |spans| ==> spans[q].spanId != spans[i].parentSpanId
      else
        && p <= |spans| && spans[p - 1].spanId == spans[i].parentSpanId
        && forall q :: p <= q < |spans| ==> spans[q].spanId != spans[i].parentSpanId
    else p == i
  }

  lemma ParentNodeIs(spans: seq<SpanView>, i: nat)
    requires i < |spans|
    ensures IsParentNode(spans, i, ParentNode(spans, i))
  {
    assert Linked(spans) <==> exists k :: 0 <= k < |spans| && spans[k].parentSpanId != "";
    var m := IndexById(spans);
    forall q | 0 <= q < |spans| ensures spans[q].spanId in m && q <= m[spans[q].spanId] {
    }
  }

  ghost predicate Connects(e: Edge, a: Node, b: Node) {
    && e.x1 == a.x + a.width / 2 && e.y1 == a.y + a.height
    && e.x2 == b.x + b.width / 2 && e.y2 == b.y - 8
    && e.yMid == e.y1 + (if e.y1 <= e.y2 then (e.y2 - e.y1) / 2 else -((e.y1 - e.y2) / 2))
    && e.arrowLeft == e.x2 - 5 && e.arrowRight == e.x2 + 5 && e.arrowBase == e.y2 - 8
  }

  ghost predicate Downward(e: Edge) {
    e.y1 < e.y2 && e.y1 <= e.yMid <= e.y2
  }

  // A span without a parent id, in a linked trace in which some span has the empty id.
  predicate TakesEmptyIdForParent(spans: seq<SpanView>, i: nat)
    requires i < |spans|
  {
    Linked(spans) && !HasParentSpanId(spans[i]) && "" in IndexById(spans)
  }

  // ----- the parts of the picture -----

  ghost predicate Placed(spans: seq<SpanView>, depths: seq<nat>, rows: seq<nat>, maxRow: nat, nodes: seq<Node>) {
    && |depths| == |spans| == |rows| && 1 <= |nodes| <= |spans| + 1
    && nodes[0] == RootNode(maxRow)
    && forall i :: 1 <= i < |nodes| ==> nodes[i] == SpanNode(spans[i - 1], depths[i - 1], rows[i - 1])
  }

  function Depths(spans: seq<SpanView>, ghost rank: seq<nat>): (d: seq<nat>)
    requires Ranked(spans, rank)
    ensures |d| == |spans|
  {
    seq(|spans|, i requires 0 <= i < |spans| => DepthAt(spans, rank, i))
  }

  lemma RowsDiffer(depths: seq<nat>, i: nat, j: nat)
    requires i < j < |depths| && depths[i] == depths[j]
    ensures RowAt(depths, i) < RowAt(depths, j)
  {
    CountGrows(depths, i, j);
  }

  lemma SpanNodesApart(s: SpanView, d: nat, row: nat, t: SpanView, e: nat, col: nat)
    requires d != e || row != col
    ensures Apart(SpanNode(s, d, row), SpanNode(t, e, col))
  {
  }

  lemma RootApart(maxRow: nat, s: SpanView, d: nat, row: nat)
    requires 1 <= d
    ensures Apart(RootNode(maxRow), SpanNode(s, d, row)) && Apart(SpanNode(s, d, row), RootNode(maxRow))
  {
  }

  lemma NodesApart(
      spans: seq<SpanView>, depths: seq<nat>, rows: seq<nat>, maxRow: nat, nodes: seq<Node>, i: nat, j: nat)
    requires Placed(spans, depths, rows, maxRow, nodes)
    requires forall k :: 0 <= k < |rows| ==> rows[k] == RowAt(depths, k)
    requires forall k :: 0 <= k < |depths| ==> 1 <= depths[k]
    requires i < j < |nodes|
    ensures Apart(nodes[i], nodes[j])
  {
    if i == 0 {
      RootApart(maxRow, spans[j - 1], depths[j - 1], rows[j - 1]);
    } else {
      if depths[i - 1] == depths[j - 1] { RowsDiffer(depths, i - 1, j - 1); }
      SpanNodesApart(spans[i - 1], depths[i - 1], rows[i - 1], spans[j - 1], depths[j - 1], rows[j - 1]);
    }
  }

  lemma SpanNodeInside(s: SpanView, d: nat, row: nat, maxDepth: nat, maxRow: nat, g: Graph)
    requires d <= maxDepth && row <= maxRow
    requires g.width == MARGIN * 2 + (maxRow + 1) * NODE_WIDTH + maxRow * X_GAP
    requires g.height == MARGIN * 2 + (maxDepth + 1) * NODE_HEIGHT + maxDepth * Y_GAP
    ensures Inside(SpanNode(s, d, row), g) && Inside(RootNode(maxRow), g)
  {
  }

  lemma SpanEdgeDownward(s: SpanView, d: nat, row: nat, t: SpanView, e: nat, col: nat, edge: Edge)
    requires Connects(edge, SpanNode(s, d, row), SpanNode(t, e, col))
    ensures Downward(edge) <==> d < e
  {
  }

  lemma RootEdgeDownward(maxRow: nat, t: SpanView, e: nat, col: nat, edge: Edge)
    requires 1 <= e && Connects(edge, RootNode(maxRow), SpanNode(t, e, col))
    ensures Downward(edge)
  {
  }

  lemma ParentIsShallower(spans: seq<SpanView>, rank: seq<nat>, i: nat)
    requires Ranked(spans, rank) && i < |spans|
    ensures ParentNode(spans, i) == 0 ==> !TakesEmptyIdForParent(spans, i)
    ensures ParentNode(spans, i) > 0 ==>
              (DepthAt(spans, rank, ParentNode(spans, i) - 1) < DepthAt(spans, rank, i)
               <==> !TakesEmptyIdForParent(spans, i))
  {
  }

  /** An edge points down unless its span takes a span with the empty id for its parent. */
  lemma EdgeDownwardIff(
      spans: seq<SpanView>, rank: seq<nat>, rows: seq<nat>, maxRow: nat, nodes: seq<Node>, i: nat, e: Edge)
    requires Ranked(spans, rank) && Placed(spans, Depths(spans, rank), rows, maxRow, nodes) && |nodes| == |spans| + 1
    requires i < |spans| && Connects(e, nodes[ParentNode(spans, i)], nodes[i + 1])
    ensures Downward(e) <==> !TakesEmptyIdForParent(spans, i)
  {
    var p := ParentNode(spans, i);
    var d := DepthAt(spans, rank, i);
    ParentIsShallower(spans, rank, i);
    if p == 0 {
      RootEdgeDownward(maxRow, spans[i], d, rows[i], e);
    } else {
      SpanEdgeDownward(spans[p - 1], DepthAt(spans, rank, p - 1), rows[p - 1], spans[i], d, rows[i], e);
    }
  }

  ghost predicate IsLayout(spans: seq<SpanView>, g: Graph) {
    && |g.nodes| == |spans| + 1 && |g.edges| == |spans|
    && (forall i, j :: 0 <= i < j < |g.nodes| ==> Apart(g.nodes[i], g.nodes[j]))
    && (forall i :: 0 <= i < |g.nodes| ==> Inside(g.nodes[i], g))
    && (forall i :: 0 <= i < |spans| ==>
          && IsParentNode(spans, i, g.edges[i].parent)
          && g.edges[i].parent == ParentNode(spans, i) && g.edges[i].child == i + 1
          && Connects(g.edges[i], g.nodes[ParentNode(spans, i)], g.nodes[i + 1])
          && (Downward(g.edges[i]) <==> !TakesEmptyIdForParent(spans, i)))
  }

  function PlacedNode(spans: seq<SpanView>, depths: seq<nat>, rows: seq<nat>, maxRow: nat, n: nat): Node
    requires |depths| == |spans| == |rows| && n <= |spans|
  {
    if n == 0 then RootNode(maxRow) else SpanNode(spans[n - 1], depths[n - 1], rows[n - 1])
  }

  ghost predicate IsEdge(spans: seq<SpanView>, depths: seq<nat>, rows: seq<nat>, maxRow: nat, i: nat, e: Edge)
    requires |depths| == |spans| == |rows| && i < |spans|
  {
    var p := ParentNode(spans, i);
    && e.parent == p && e.child == i + 1
    && Connects(e, PlacedNode(spans, depths, rows, maxRow, p), PlacedNode(spans, depths, rows, maxRow, i + 1))
  }

  method PlaceEdge(spans: seq<SpanView>, depths: seq<nat>, rows: seq<nat>, maxRow: nat, i: nat) returns (e: Edge)
    requires |depths| == |spans| == |rows| && i < |spans|
    ensures IsEdge(spans, depths, rows, maxRow, i, e)
  {
    var x := MARGIN + rows[i] * (NODE_WIDTH + X_GAP);
    var y := MARGIN + depths[i] * (NODE_HEIGHT + Y_GAP);
    var p := ParentNode(spans, i);
    var parentX, parentY, parentHeight := MARGIN + Half(maxRow * (NODE_WIDTH + X_GAP)), MARGIN, NODE_HEIGHT;
    if p > 0 {
      parentX := MARGIN + rows[p - 1] * (NODE_WIDTH + X_GAP);
      parentY := MARGIN + depths[p - 1] * (NODE_HEIGHT + Y_GAP);
      parentHeight := HeightOf(spans[p - 1]);
    }
    var y1, y2 := parentY + parentHeight, y - 8;
    e := Edge(p, i + 1, parentX + NODE_WIDTH / 2, y1, y1 + Half(y2 - y1), x + NODE_WIDTH / 2, y2,
              x + NODE_WIDTH / 2 - 5, x + NODE_WIDTH / 2 + 5, y2 - 8);
  }

  method PlaceNodes(spans: seq<SpanView>, depths: seq<nat>, rows: seq<nat>, maxRow: nat)
      returns (nodes: seq<Node>, edges: seq<Edge>)
    requires |depths| == |spans| == |rows|
    ensures Placed(spans, depths, rows, maxRow, nodes) && |nodes| == |spans| + 1
    ensures |edges| == |spans|
    ensures forall i :: 0 <= i < |spans| ==> IsEdge(spans, depths, rows, maxRow, i, edges[i])
  {
    nodes := [RootNode(maxRow)];
    edges := [];
    for i := 0 to |spans|
      invariant Placed(spans, depths, rows, maxRow, nodes) && |nodes| == i + 1
      invariant |edges| == i
      invariant forall k :: 0 <= k < i ==> IsEdge(spans, depths, rows, maxRow, k, edges[k])
    {
      nodes := nodes + [SpanNode(spans[i], depths[i], rows[i])];
      var e := PlaceEdge(spans, depths, rows, maxRow, i);
      edges := edges + [e];
    }
  }

  // ----- the numbers of the picture -----

  // The depth of span i, or its place in a trace in which no span names a parent.
  ghost function LevelOf(spans: seq<SpanView>, rank: seq<nat>, i: nat): nat
    requires Ranked(spans, rank) && i < |spans|
  {
    if exists k :: 0 <= k < |spans| && spans[k].parentSpanId != "" then SpanDepth(i, spans, rank) else i + 1
  }

  // How many earlier spans are on the level of span i.
  ghost function PlaceOf(spans: seq<SpanView>, rank: seq<nat>, i: nat): nat
    requires Ranked(spans, rank) && i < |spans|
  {
    |set k: nat | k < i && LevelOf(spans, rank, k) == LevelOf(spans, rank, i)|
  }

  ghost predicate IsLargest(n: nat, values: seq<nat>) {
    n in values && forall i :: 0 <= i < |values| ==> values[i] <= n
  }

  ghost function Places(spans: seq<SpanView>, rank: seq<nat>): seq<nat>
    requires Ranked(spans, rank)
  {
    seq(|spans|, i requires 0 <= i < |spans| => PlaceOf(spans, rank, i))
  }

  ghost function Levels(spans: seq<SpanView>, rank: seq<nat>): seq<nat>
    requires Ranked(spans, rank)
  {
    seq(|spans|, i requires 0 <= i < |spans| => LevelOf(spans, rank, i))
  }

  // Every rectangle where its level and place put it, 34 high for a span of no duration and 52 otherwise;
  // the root centred above the widest level; 24 around it all.
  ghost predicate IsDrawnToScale(spans: seq<SpanView>, rank: seq<nat>, g: Graph)
    requires Ranked(spans, rank)
  {
    && |g.nodes| == |spans| + 1
    && (forall i :: 0 <= i < |spans| ==>
          g.nodes[i + 1] == Node(24 + 210 * PlaceOf(spans, rank, i), 24 + 106 * LevelOf(spans, rank, i), 168,
                                 if spans[i].durationMs == 0 then 34 else 52))
    && exists place: nat, level: nat ::
         && IsLargest(place, Places(spans, rank)) && IsLargest(level, Levels(spans, rank))
         && g.nodes[0] == Node(24 + 105 * place, 24, 168, 52)
         && g.width == 216 + 210 * place && g.height == 100 + 106 * level
  }

  lemma {:induction false} CountIsSize(s: seq<nat>, x: nat)
    ensures Count(s, x) == |set k: nat | k < |s| && s[k] == x|
  {
    var all := set k: nat | k < |s| && s[k] == x;
    if s == [] {
      assert all == {};
    } else {
      var n := |s| - 1;
      CountIsSize(s[..n], x);
      var before := set k: nat | k < |s[..n]| && s[..n][k] == x;
      assert all == before + if s[n] == x then {n} else {};
    }
  }

  lemma LevelIsDepth(spans: seq<SpanView>, rank: seq<nat>, i: nat)
    requires Ranked(spans, rank) && i < |spans|
    ensures LevelOf(spans, rank, i) == Depths(spans, rank)[i]
  {
  }

  lemma PlaceIsRow(spans: seq<SpanView>, rank: seq<nat>, i: nat)
    requires Ranked(spans, rank) && i < |spans|
    ensures PlaceOf(spans, rank, i) == RowAt(Depths(spans, rank), i)
  {
    var depths := Depths(spans, rank);
    CountIsSize(depths[..i], depths[i]);
    forall k: nat | k <= i ensures LevelOf(spans, rank, k) == depths[k] { LevelIsDepth(spans, rank, k); }
    assert (set k: nat | k < i && LevelOf(spans, rank, k) == LevelOf(spans, rank, i)) ==
           (set k: nat | k < |depths[..i]| && depths[..i][k] == depths[i]);
  }

  lemma DrawnToScale(spans: seq<SpanView>, rank: seq<nat>, rows: seq<nat>, maxRow: nat, maxDepth: nat, g: Graph)
    requires Ranked(spans, rank) && Placed(spans, Depths(spans, rank), rows, maxRow, g.nodes)
    requires |g.nodes| == |spans| + 1
    requires forall i :: 0 <= i < |spans| ==> rows[i] == RowAt(Depths(spans, rank), i)
    requires IsLargest(maxRow, rows) && IsLargest(maxDepth, Depths(spans, rank))
    requires g.width == MARGIN * 2 + (maxRow + 1) * NODE_WIDTH + maxRow * X_GAP
    requires g.height == MARGIN * 2 + (maxDepth + 1) * NODE_HEIGHT + maxDepth * Y_GAP
    ensures IsDrawnToScale(spans, rank, g)
  {
    forall i | 0 <= i < |spans|
      ensures PlaceOf(spans, rank, i) == rows[i] && LevelOf(spans, rank, i) == Depths(spans, rank)[i]
    {
      PlaceIsRow(spans, rank, i);
      LevelIsDepth(spans, rank, i);
    }
    assert Places(spans, rank) == rows && Levels(spans, rank) == Depths(spans, rank);
    forall i | 0 <= i < |spans|
      ensures g.nodes[i + 1] == Node(24 + 210 * PlaceOf(spans, rank, i), 24 + 106 * LevelOf(spans, rank, i), 168,
                                     if spans[i].durationMs == 0 then 34 else 52)
    {
      assert g.nodes[i + 1] == SpanNode(spans[i + 1 - 1], Depths(spans, rank)[i + 1 - 1], rows[i + 1 - 1]);
    }
  }

  /** The picture of a trace whose depths end. */
  method TraceGraphView(spans: seq<SpanView>, ghost rank: seq<nat>) returns (g: Graph)
    requires Ranked(spans, rank)
    ensures spans == [] ==> g == Graph(0, 0, [], [])
    ensures spans != [] ==> IsLayout(spans, g)
    ensures spans != [] ==> IsDrawnToScale(spans, rank, g)
    ensures |spans| <= 10_000_000 ==> g.width < 0x8000_0000 && g.height < 0x8000_0000
  {
    if spans == [] { return Graph(0, 0, [], []); }
    var depths := Depths(spans, rank);
    var rows := AssignRows(depths);
    var maxRow := Largest(rows);
    var maxDepth := Largest(depths);
    var nodes, edges := PlaceNodes(spans, depths, rows, maxRow);
    g := Graph(MARGIN * 2 + (maxRow + 1) * NODE_WIDTH + maxRow * X_GAP,
               MARGIN * 2 + (maxDepth + 1) * NODE_HEIGHT + maxDepth * Y_GAP, nodes, edges);
    PictureHolds(spans, rank, rows, maxRow, maxDepth, g);
    DrawnToScale(spans, rank, rows, maxRow, maxDepth, g);
    forall i | 0 <= i < |spans| ensures depths[i] <= |spans| && rows[i] < |spans| {
      SizesBounded(spans, rank, depths, i);
    }
  }

  lemma PictureHolds(spans: seq<SpanView>, rank: seq<nat>, rows: seq<nat>, maxRow: nat, maxDepth: nat, g: Graph)
    requires Ranked(spans, rank) && spans != []
    requires Placed(spans, Depths(spans, rank), rows, maxRow, g.nodes)
    requires |g.nodes| == |spans| + 1 && |g.edges| == |spans|
    requires forall i :: 0 <= i < |spans| ==> IsEdge(spans, Depths(spans, rank), rows, maxRow, i, g.edges[i])
    requires forall i :: 0 <= i < |spans| ==> rows[i] == RowAt(Depths(spans, rank), i)
    requires forall i :: 0 <= i < |spans| ==> rows[i] <= maxRow && Depths(spans, rank)[i] <= maxDepth
    requires g.width == MARGIN * 2 + (maxRow + 1) * NODE_WIDTH + maxRow * X_GAP
    requires g.height == MARGIN * 2 + (maxDepth + 1) * NODE_HEIGHT + maxDepth * Y_GAP
    ensures IsLayout(spans, g)
  {
    var depths := Depths(spans, rank);
    forall i, j | 0 <= i < j < |g.nodes| ensures Apart(g.nodes[i], g.nodes[j]) {
      NodesApart(spans, depths, rows, maxRow, g.nodes, i, j);
    }
    forall i | 0 <= i < |g.nodes| ensures Inside(g.nodes[i], g) {
      var k := if i == 0 then 0 else i - 1;
      SpanNodeInside(spans[k], depths[k], rows[k], maxDepth, maxRow, g);
    }
    forall i | 0 <= i < |spans|
      ensures IsParentNode(spans, i, g.edges[i].parent)
      ensures Connects(g.edges[i], g.nodes[ParentNode(spans, i)], g.nodes[i + 1])
      ensures Downward(g.edges[i]) <==> !TakesEmptyIdForParent(spans, i)
    {
      assert IsEdge(spans, depths, rows, maxRow, i, g.edges[i]);
      ParentNodeIs(spans, i);
      EdgeDownwardIff(spans, rank, rows, maxRow, g.nodes, i, g.edges[i]);
    }
  }

  /** When all span ids are non-empty, every edge points down. */
  lemma NonEmptyIdsPointDown(spans: seq<SpanView>, g: Graph, i: nat)
    requires IsLayout(spans, g) && i < |spans|
    requires forall k :: 0 <= k < |spans| ==> spans[k].spanId != ""
    ensures Downward(g.edges[i])
  {
  }
}
