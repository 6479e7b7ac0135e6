/**
 * Grid placement of graph nodes (layoutGraph.ts). Nodes come in display order; coordinates are
 * real numbers, y growing downward. Rectangles may touch but must not overlap.
 */
module Layout {
  import opened Wrappers
  import opened GraphWalks
  import opened HopDepth
  import Positional

  const NODE_WIDTH: real := 200.0
  const NODE_HEIGHT: real := 200.0
  const ROW_GAP: real := 24.0
  const COL_GAP: real := 40.0
  const RANK_SEP: real := 100.0
  const BLOCK_GAP: real := 80.0
  const MAX_ROWS_PER_COLUMN: nat := 10
  const MAX_COLS_PER_BLOCK: nat := 10
  const MAX_NODES_PER_HOP_BLOCK: nat := 100
  const HOP_GRID_COLS: nat := 10

  datatype Side = Left | Right

  datatype Position = Position(x: real, y: real)

  datatype Placed = Placed(id: string, position: Position)

  datatype Options = Options(side: Side, maxRows: nat, maxCols: Option<nat>, maxNodesPerBlock: Option<nat>,
                             nodeWidth: real, nodeHeight: real, rowGap: real, colGap: real, blockGap: real)

  /** What a caller must give: at least one row, one node a block, and no negative measure. */
  predicate Sensible(o: Options) {
    && o.maxRows > 0 && (o.maxNodesPerBlock.Some? ==> o.maxNodesPerBlock.value > 0)
    && o.nodeWidth > 0.0 && o.nodeHeight > 0.0 && o.rowGap >= 0.0 && o.colGap >= 0.0 && o.blockGap >= 0.0
  }

  predicate Apart(a: Position, b: Position, width: real, height: real) {
    a.x + width <= b.x || b.x + width <= a.x || a.y + height <= b.y || b.y + height <= a.y
  }

  // ---- blocks -----------------------------------------------------------------------------

  function CeilDiv(n: nat, d: nat): nat
    requires d > 0
  {
    (n + d - 1) / d
  }

  /** n equal steps. */
  function Span(n: nat, step: real): real {
    n as real * step
  }

  function ColumnsInBlock(count: nat, o: Options): nat
    requires Sensible(o)
  {
    if count == 0 then 0
    else
      var cols := CeilDiv(count, o.maxRows);
      if o.maxCols.Some? then Min(o.maxCols.value, cols) else cols
  }

  function TallestColumn(count: nat, o: Options): nat
    requires Sensible(o)
  {
    if count == 0 then 0
    else if ColumnsInBlock(count, o) <= 1 then Min(o.maxRows, count)
    else o.maxRows
  }

  function BlockHeight(count: nat, o: Options): real
    requires Sensible(o)
  {
    var tallest := TallestColumn(count, o);
    if tallest == 0 then 0.0 else Span(tallest, o.nodeHeight) + Span(tallest - 1, o.rowGap)
  }

  function PositionInBlock(index: nat, anchor: Position, originX: real, originY: real, o: Options): Position
    requires Sensible(o)
  {
    var col, row := index / o.maxRows, index % o.maxRows;
    var y := originY + Span(row, o.nodeHeight + o.rowGap);
    var colOffset := Span(col, o.nodeWidth + o.colGap);
    Position(if o.side.Left? then anchor.x - RANK_SEP - o.nodeWidth - colOffset else originX + colOffset, y)
  }

  // ---- the grid as a function of the index ------------------------------------------------

  function PerBlock(n: nat, o: Options): (per: nat)
    requires Sensible(o)
    ensures per > 0
  {
    if o.maxNodesPerBlock.Some? then o.maxNodesPerBlock.value else if n == 0 then 1 else n
  }

  function CountIn(n: nat, per: nat, block: nat): nat {
    if n <= block * per then 0 else Min(per, n - block * per)
  }

  /** How far below the first block's top a block starts. */
  function Drop(n: nat, block: nat, o: Options): real
    requires Sensible(o)
  {
    if block == 0 then 0.0
    else Drop(n, block - 1, o) + BlockHeight(CountIn(n, PerBlock(n, o), block - 1), o) + o.blockGap
  }

  function StackHeight(n: nat, o: Options): real
    requires Sensible(o)
  {
    var blocks := CeilDiv(n, PerBlock(n, o));
    if blocks == 0 then 0.0 else Drop(n, blocks, o) - o.blockGap
  }

  function StackTop(n: nat, anchor: Position, o: Options): real
    requires Sensible(o)
  {
    anchor.y + o.nodeHeight / 2.0 - StackHeight(n, o) / 2.0
  }

  function OriginX(anchor: Position, o: Options): real {
    if o.side.Right? then anchor.x + RANK_SEP else anchor.x - RANK_SEP - o.nodeWidth
  }

  /** Where node k of n goes. */
  function GridPosition(k: nat, n: nat, anchor: Position, o: Options): Position
    requires Sensible(o)
  {
    var per := PerBlock(n, o);
    PositionInBlock(k % per, anchor, OriginX(anchor, o), StackTop(n, anchor, o) + Drop(n, k / per, o), o)
  }

  // ---- no two rectangles overlap ----------------------------------------------------------

  lemma SpanSteps(a: nat, b: nat, s: real)
    requires a <= b && s >= 0.0
    ensures 0.0 <= Span(a, s) <= Span(b, s)
    ensures Span(a + 1, s) == Span(a, s) + s
  {
    assert a as real * s >= 0.0;
    assert (b - a) as real * s >= 0.0;
  }

  lemma SpanSum(n: nat, s: real, t: real)
    ensures Span(n, s + t) == Span(n, s) + Span(n, t)
  {
  }

  lemma DivMod(k: nat, d: nat)
    requires d > 0
    ensures k == (k / d) * d + k % d && k % d < d
  {
  }

  /** Different steps are at least one step apart. */
  lemma CellsApart(a: nat, b: nat, s: real)
    requires a != b && s >= 0.0
    ensures Span(a, s) + s <= Span(b, s) || Span(b, s) + s <= Span(a, s)
  {
    hide Span;
    if a < b {
      SpanSteps(a, a, s);
      SpanSteps(a + 1, b, s);
    } else {
      SpanSteps(b, b, s);
      SpanSteps(b + 1, a, s);
    }
  }

  lemma SameCell(i: nat, j: nat, d: nat)
    requires d > 0 && i / d == j / d && i % d == j % d
    ensures i == j
  {
    DivMod(i, d);
    DivMod(j, d);
  }

  lemma InBlockApart(i: nat, j: nat, anchor: Position, originX: real, originY: real, o: Options)
    requires Sensible(o) && i != j
    ensures Apart(PositionInBlock(i, anchor, originX, originY, o), PositionInBlock(j, anchor, originX, originY, o),
                  o.nodeWidth, o.nodeHeight)
  {
    hide Span;
    var ci, ri, cj, rj := i / o.maxRows, i % o.maxRows, j / o.maxRows, j % o.maxRows;
    if ci != cj {
      CellsApart(ci, cj, o.nodeWidth + o.colGap);
    } else {
      if ri == rj {
        SameCell(i, j, o.maxRows);
      }
      CellsApart(ri, rj, o.nodeHeight + o.rowGap);
    }
  }

  /** No node of a block is lower than its tallest column. */
  lemma RowFits(i: nat, count: nat, o: Options)
    requires Sensible(o) && i < count
    ensures i % o.maxRows < TallestColumn(count, o)
  {
    var m := o.maxRows;
    DivMod(i, m);
    if ColumnsInBlock(count, o) <= 1 && count < m {
      SmallMod(i, m);
    }
  }

  lemma SmallMod(i: nat, m: nat)
    requires i < m
    ensures i % m == i
  {
  }

  lemma InBlockHeight(i: nat, count: nat, anchor: Position, originX: real, originY: real, o: Options)
    requires Sensible(o) && i < count
    ensures var p := PositionInBlock(i, anchor, originX, originY, o);
            originY <= p.y && p.y + o.nodeHeight <= originY + BlockHeight(count, o)
  {
    hide Span;
    RowFits(i, count, o);
    var row, last := i % o.maxRows, TallestColumn(count, o) - 1;
    SpanSteps(row, last, o.nodeHeight + o.rowGap);
    SpanSum(last, o.nodeHeight, o.rowGap);
    SpanSteps(last, last, o.nodeHeight);
  }

  lemma HeightNonnegative(count: nat, o: Options)
    requires Sensible(o)
    ensures BlockHeight(count, o) >= 0.0
  {
    var tallest := TallestColumn(count, o);
    if tallest > 0 {
      SpanSteps(tallest, tallest, o.nodeHeight);
      SpanSteps(tallest - 1, tallest, o.rowGap);
      hide Span;
    }
  }

  /** Later blocks start below the end of earlier ones. */
  lemma {:induction false} DropBelow(n: nat, a: nat, b: nat, o: Options)
    requires Sensible(o) && a < b
    ensures Drop(n, a, o) + BlockHeight(CountIn(n, PerBlock(n, o), a), o) <= Drop(n, b, o)
  {
    if a < b - 1 {
      DropBelow(n, a, b - 1, o);
      HeightNonnegative(CountIn(n, PerBlock(n, o), b - 1), o);
    }
  }

  lemma IndexInBlock(k: nat, n: nat, per: nat)
    requires per > 0 && k < n
    ensures k % per < CountIn(n, per, k / per)
  {
    DivMod(k, per);
  }

  lemma BlocksApart(bi: nat, ri: nat, bj: nat, rj: nat, n: nat, anchor: Position, o: Options)
    requires Sensible(o) && (bi, ri) != (bj, rj)
    requires ri < CountIn(n, PerBlock(n, o), bi) && rj < CountIn(n, PerBlock(n, o), bj)
    ensures var top, x := StackTop(n, anchor, o), OriginX(anchor, o);
            Apart(PositionInBlock(ri, anchor, x, top + Drop(n, bi, o), o),
                  PositionInBlock(rj, anchor, x, top + Drop(n, bj, o), o),
                  o.nodeWidth, o.nodeHeight)
  {
    hide PositionInBlock, BlockHeight, CountIn, Drop, StackTop, PerBlock, OriginX;
    var per := PerBlock(n, o);
    var top, x := StackTop(n, anchor, o), OriginX(anchor, o);
    if bi == bj {
      InBlockApart(ri, rj, anchor, x, top + Drop(n, bi, o), o);
    } else {
      InBlockHeight(ri, CountIn(n, per, bi), anchor, x, top + Drop(n, bi, o), o);
      InBlockHeight(rj, CountIn(n, per, bj), anchor, x, top + Drop(n, bj, o), o);
      if bi < bj {
        DropBelow(n, bi, bj, o);
      } else {
        DropBelow(n, bj, bi, o);
      }
    }
  }

  /** A node's block, and its index there. */
  function Cell(k: nat, per: nat): (nat, nat)
    requires per > 0
  {
    (k / per, k % per)
  }

  lemma InCell(k: nat, n: nat, anchor: Position, o: Options)
    requires Sensible(o) && k < n
    ensures var (block, index) := Cell(k, PerBlock(n, o));
            && index < CountIn(n, PerBlock(n, o), block)
            && GridPosition(k, n, anchor, o)
               == PositionInBlock(index, anchor, OriginX(anchor, o), StackTop(n, anchor, o) + Drop(n, block, o), o)
  {
    hide PositionInBlock, Drop, StackTop, CountIn;
    IndexInBlock(k, n, PerBlock(n, o));
  }

  lemma OwnCell(i: nat, j: nat, per: nat)
    requires per > 0 && Cell(i, per) == Cell(j, per)
    ensures i == j
  {
    SameCell(i, j, per);
  }

  /** Any two nodes of a grid are apart, for all sizes, blocks and sides. */
  lemma GridApart(i: nat, j: nat, n: nat, anchor: Position, o: Options)
    requires Sensible(o) && i < n && j < n && i != j
    ensures Apart(GridPosition(i, n, anchor, o), GridPosition(j, n, anchor, o), o.nodeWidth, o.nodeHeight)
  {
    hide Apart, PositionInBlock, BlockHeight, CountIn, Drop, StackTop, PerBlock, OriginX, GridPosition, Cell;
    var per := PerBlock(n, o);
    InCell(i, n, anchor, o);
    InCell(j, n, anchor, o);
    if Cell(i, per) == Cell(j, per) {
      OwnCell(i, j, per);
    }
    BlocksApart(Cell(i, per).0, Cell(i, per).1, Cell(j, per).0, Cell(j, per).1, n, anchor, o);
  }

  // ---- the programs -----------------------------------------------------------------------

  /** The blocks are laid out one below the other, each filled column by column. */
  method LayoutNodeGrid(nodes: seq<string>, anchor: Position, o: Options) returns (laid: seq<Placed>)
    requires Sensible(o)
    ensures |laid| == |nodes|
    ensures forall k :: 0 <= k < |laid| ==> laid[k] == Placed(nodes[k], GridPosition(k, |nodes|, anchor, o))
  {
    hide PositionInBlock, BlockHeight, Drop;
    var n := |nodes|;
    var originX := OriginX(anchor, o);
    if o.maxNodesPerBlock.None? {
      OneBlock(n, o);
      var totalHeight := BlockHeight(n, o);
      var gridTopY := anchor.y + o.nodeHeight / 2.0 - totalHeight / 2.0;
      laid := [];
      for i := 0 to n
        invariant |laid| == i
        invariant forall k :: 0 <= k < i ==> laid[k] == Placed(nodes[k], GridPosition(k, n, anchor, o))
      {
        SmallMod(i, n);
        assert i / n == 0;
        laid := laid + [Placed(nodes[i], PositionInBlock(i, anchor, originX, gridTopY, o))];
      }
      return;
    }
    var per := o.maxNodesPerBlock.value;
    var blockCount := CeilDiv(n, per);
    var totalStackHeight := StackHeightLoop(n, o);
    var stackTopY := anchor.y + o.nodeHeight / 2.0 - totalStackHeight / 2.0;
    var blockTopY := stackTopY;
    laid := [];
    CeilCovers(n, per);
    DropZero(n, o);
    for block := 0 to blockCount
      invariant blockTopY == stackTopY + Drop(n, block, o)
      invariant |laid| == Min(block * per, n)
      invariant forall k :: 0 <= k < |laid| ==> laid[k] == Placed(nodes[k], GridPosition(k, n, anchor, o))
    {
      var start := block * per;
      var count := CountIn(n, per, block);
      BlockBounds(n, per, block);
      for i := 0 to count
        invariant |laid| == start + i
        invariant forall k :: 0 <= k < |laid| ==> laid[k] == Placed(nodes[k], GridPosition(k, n, anchor, o))
      {
        InsideBlock(block, i, per);
        laid := laid + [Placed(nodes[start + i], PositionInBlock(i, anchor, originX, blockTopY, o))];
      }
      DropNext(n, block, o);
      blockTopY := blockTopY + BlockHeight(count, o) + o.blockGap;
    }
  }

  method StackHeightLoop(n: nat, o: Options) returns (total: real)
    requires Sensible(o) && o.maxNodesPerBlock.Some?
    ensures total == StackHeight(n, o)
  {
    hide BlockHeight;
    var per := o.maxNodesPerBlock.value;
    var blockCount := CeilDiv(n, per);
    var heights := 0.0;
    hide Span;
    NoSteps(o.blockGap);
    for block := 0 to blockCount
      invariant Drop(n, block, o) == heights + Span(block, o.blockGap)
    {
      heights := heights + BlockHeight(CountIn(n, per, block), o);
      SpanSteps(block, block, o.blockGap);
    }
    total := heights + Span(if blockCount > 0 then blockCount - 1 else 0, o.blockGap);
    if blockCount > 0 {
      SpanSteps(blockCount - 1, blockCount - 1, o.blockGap);
    }
  }

  lemma NoSteps(s: real)
    ensures Span(0, s) == 0.0
  {
  }

  lemma OneBlock(n: nat, o: Options)
    requires Sensible(o) && o.maxNodesPerBlock.None?
    ensures StackHeight(n, o) == BlockHeight(n, o) && Drop(n, 0, o) == 0.0
  {
    hide TallestColumn, Span;
    if n > 0 {
      assert CeilDiv(n, n) == 1 by {
        ModOne(n);
      }
      assert Drop(n, 1, o) == Drop(n, 0, o) + BlockHeight(CountIn(n, n, 0), o) + o.blockGap;
    } else {
      assert BlockHeight(0, o) == 0.0 by {
        EmptyBlock(o);
      }
    }
  }

  lemma EmptyBlock(o: Options)
    requires Sensible(o)
    ensures BlockHeight(0, o) == 0.0
  {
  }

  lemma ModOne(n: nat)
    requires n > 0
    ensures (n + n - 1) / n == 1
  {
    InsideBlock(1, n - 1, n);
  }

  lemma DropZero(n: nat, o: Options)
    requires Sensible(o)
    ensures Drop(n, 0, o) == 0.0
  {
  }

  lemma DropNext(n: nat, block: nat, o: Options)
    requires Sensible(o)
    ensures Drop(n, block + 1, o) == Drop(n, block, o) + BlockHeight(CountIn(n, PerBlock(n, o), block), o) + o.blockGap
  {
  }

  lemma OneBlockMore(blocks: int, per: int)
    ensures (blocks + 1) * per == blocks * per + per
  {
  }

  /** The blocks together hold all nodes. */
  lemma CeilCovers(n: nat, per: nat)
    requires per > 0
    ensures Min(CeilDiv(n, per) * per, n) == n && (n > 0 ==> (CeilDiv(n, per) - 1) * per < n)
    ensures n == 0 ==> CeilDiv(n, per) == 0
  {
    DivMod(n + per - 1, per);
    OneBlockMore(CeilDiv(n, per) - 1, per);
  }

  lemma BlockBounds(n: nat, per: nat, block: nat)
    requires per > 0 && block < CeilDiv(n, per)
    ensures block * per < n && CountIn(n, per, block) <= per
    ensures block * per + CountIn(n, per, block) == Min((block + 1) * per, n)
  {
    hide CeilDiv;
    CeilCovers(n, per);
    Positional.MulMonotone(block, CeilDiv(n, per) - 1, per);
    OneBlockMore(block, per);
  }

  lemma InsideBlock(block: nat, i: nat, per: nat)
    requires i < per
    ensures (block * per + i) / per == block && (block * per + i) % per == i
  {
    var k := block * per + i;
    DivMod(k, per);
    Positional.SplitDigit(i, block, k % per, k / per, per);
  }

  // ---- downstream columns -----------------------------------------------------------------

  /** A node as the grouping sees it: the hop its data may carry. */
  datatype Node = Node(id: string, metaHop: Option<int>)

  function ResolveHop(node: Node, hops: Hops, hackerId: string, edges: seq<Edge>): Option<nat> {
    if node.metaHop.Some? && node.metaHop.value >= 0 then Some(node.metaHop.value)
    else if node.id in hops then Some(hops[node.id])
    else if hackerId != "" && Edge(hackerId, node.id) in edges then Some(1)
    else None
  }

  /** The ids of the nodes of one hop, in their order. */
  function IdsAt(nodes: seq<Node>, hops: Hops, hackerId: string, edges: seq<Edge>, hop: nat): seq<string> {
    if nodes == [] then []
    else
      var front, last := IdsAt(nodes[..|nodes| - 1], hops, hackerId, edges, hop), nodes[|nodes| - 1];
      if ResolveHop(last, hops, hackerId, edges) == Some(hop) then front + [last.id] else front
  }

  function IdSet(nodes: seq<Node>): set<string> {
    set k | k in nodes :: k.id
  }

  type Groups = map<nat, seq<string>>

  predicate Grouped(byHop: Groups, nodes: seq<Node>, hops: Hops, hackerId: string, edges: seq<Edge>) {
    && (forall h :: h in byHop ==> byHop[h] == IdsAt(nodes, hops, hackerId, edges, h) && byHop[h] != [])
    && forall i :: 0 <= i < |nodes| && ResolveHop(nodes[i], hops, hackerId, edges).Some? ==>
         ResolveHop(nodes[i], hops, hackerId, edges).value in byHop
  }

  lemma {:induction false} NoneAt(nodes: seq<Node>, hops: Hops, hackerId: string, edges: seq<Edge>, hop: nat)
    requires forall i :: 0 <= i < |nodes| ==> ResolveHop(nodes[i], hops, hackerId, edges) != Some(hop)
    ensures IdsAt(nodes, hops, hackerId, edges, hop) == []
  {
    if nodes != [] {
      NoneAt(nodes[..|nodes| - 1], hops, hackerId, edges, hop);
    }
  }

  lemma NoGroups(hops: Hops, hackerId: string, edges: seq<Edge>)
    ensures Grouped(map[], [], hops, hackerId, edges)
  {
  }

  /** One more node joins the group of its hop, or none. */
  lemma GroupedNext(byHop: Groups, nodes: seq<Node>, hops: Hops, hackerId: string, edges: seq<Edge>)
    requires nodes != [] && Grouped(byHop, nodes[..|nodes| - 1], hops, hackerId, edges)
    ensures var last := nodes[|nodes| - 1];
            var hop := ResolveHop(last, hops, hackerId, edges);
            Grouped(if hop.Some?
                    then byHop[hop.value := (if hop.value in byHop then byHop[hop.value] else []) + [last.id]]
                    else byHop, nodes, hops, hackerId, edges)
  {
    hide ResolveHop;
    var front, last := nodes[..|nodes| - 1], nodes[|nodes| - 1];
    var hop := ResolveHop(last, hops, hackerId, edges);
    if hop.Some? && hop.value !in byHop {
      NoneAt(front, hops, hackerId, edges, hop.value);
    }
    assert forall i :: 0 <= i < |nodes| ==> nodes[i] == last || (i < |front| && nodes[i] == front[i]);
  }

  /** The hops are the shortest distances from the hacker; without one there are none. */
  ghost predicate Measured(hops: Hops, nodes: seq<Node>, hackerId: string, edges: seq<Edge>) {
    if hackerId == "" then hops == map[]
    else forall id, n :: (id in hops && hops[id] == n) <==> Shortest(edges, hackerId, IdSet(nodes), id, n)
  }

  method GroupDownstreamByHop(nodes: seq<Node>, hackerId: string, edges: seq<Edge>) returns (byHop: Groups, hops: Hops)
    ensures Grouped(byHop, nodes, hops, hackerId, edges) && Measured(hops, nodes, hackerId, edges)
  {
    hide ResolveHop, Shortest, Grouped;
    hops := BuildHopDepthMap(hackerId, IdSet(nodes), edges);
    byHop := map[];
    NoGroups(hops, hackerId, edges);
    assert nodes[..0] == [];
    for n := 0 to |nodes|
      invariant Grouped(byHop, nodes[..n], hops, hackerId, edges)
    {
      assert nodes[..n + 1][..n] == nodes[..n];
      GroupedNext(byHop, nodes[..n + 1], hops, hackerId, edges);
      var hop := ResolveHop(nodes[n], hops, hackerId, edges);
      if hop.Some? {
        byHop := byHop[hop.value := (if hop.value in byHop then byHop[hop.value] else []) + [nodes[n].id]];
      }
    }
    assert nodes[..|nodes|] == nodes;
  }

  predicate Ascending(keys: seq<nat>) {
    forall i, j :: 0 <= i < j < |keys| ==> keys[i] < keys[j]
  }

  method SortedKeys(byHop: Groups) returns (keys: seq<nat>)
    ensures Ascending(keys) && forall h :: h in keys <==> h in byHop
  {
    keys := [];
    var rest := byHop.Keys;
    while rest != {}
      invariant rest <= byHop.Keys && Ascending(keys)
      invariant forall h :: h in byHop <==> h in keys || h in rest
      invariant forall i, h :: 0 <= i < |keys| && h in rest ==> keys[i] < h
    {
      var least := Least(rest);
      keys := keys + [least];
      rest := rest - {least};
    }
  }

  method Least(s: set<nat>) returns (least: nat)
    requires s != {}
    ensures least in s && forall x :: x in s ==> least <= x
  {
    least :| least in s;
    var rest := s - {least};
    while rest != {}
      invariant rest <= s && least in s && forall x :: x in s && x !in rest ==> least <= x
    {
      var x :| x in rest;
      if x < least {
        least := x;
      }
      rest := rest - {x};
    }
  }

  const HOP_OPTIONS: Options :=
    Options(Right, MAX_ROWS_PER_COLUMN, Some(MAX_COLS_PER_BLOCK), Some(MAX_NODES_PER_HOP_BLOCK),
            NODE_WIDTH, NODE_HEIGHT, ROW_GAP, COL_GAP, BLOCK_GAP)

  function HopColumnWidth(): real {
    HOP_GRID_COLS as real * NODE_WIDTH + (HOP_GRID_COLS - 1) as real * COL_GAP
  }

  /** A hop's grid stays inside its column. */
  lemma HopGridInColumn(k: nat, n: nat, anchor: Position)
    ensures var p := GridPosition(k, n, anchor, HOP_OPTIONS);
            anchor.x + RANK_SEP <= p.x && p.x + NODE_WIDTH <= anchor.x + RANK_SEP + HopColumnWidth()
  {
    var col := k % 100 / 10;
    assert col <= 9;
    SpanSteps(col, 9, NODE_WIDTH + COL_GAP);
    assert Span(9, NODE_WIDTH + COL_GAP) == 2160.0;
    hide Span;
  }

  predicate AllApart(laid: seq<Placed>) {
    forall i, j :: 0 <= i < j < |laid| ==> Apart(laid[i].position, laid[j].position, NODE_WIDTH, NODE_HEIGHT)
  }

  function Ids(laid: seq<Placed>): seq<string> {
    seq(|laid|, i requires 0 <= i < |laid| => laid[i].id)
  }

  /** The ids of the groups, hop after hop. */
  function Columns(byHop: Groups, order: seq<nat>): seq<string>
    requires forall h :: h in order ==> h in byHop
  {
    if order == [] then []
    else Columns(byHop, order[..|order| - 1]) + byHop[order[|order| - 1]]
  }

  /** Where the column of the g-th hop begins. */
  function ColumnX(anchor: Position, g: nat): real {
    if g == 0 then anchor.x + NODE_WIDTH + RANK_SEP else ColumnX(anchor, g - 1) + (HopColumnWidth() + RANK_SEP)
  }

  function Grid(nodes: seq<string>, anchor: Position): seq<Placed> {
    seq(|nodes|, k requires 0 <= k < |nodes| => Placed(nodes[k], GridPosition(k, |nodes|, anchor, HOP_OPTIONS)))
  }

  /** The groups, hop after hop, each as a grid of its own column. */
  function PlacedColumns(byHop: Groups, order: seq<nat>, anchor: Position): seq<Placed>
    requires forall h :: h in order ==> h in byHop
  {
    if order == [] then []
    else
      var g := |order| - 1;
      PlacedColumns(byHop, order[..g], anchor)
        + Grid(byHop[order[g]], Position(ColumnX(anchor, g) - RANK_SEP, anchor.y))
  }

  method LayOneHop(nodes: seq<string>, anchor: Position) returns (laid: seq<Placed>)
    ensures Ids(laid) == nodes && AllApart(laid) && laid == Grid(nodes, anchor)
    ensures forall i :: 0 <= i < |laid| ==>
              anchor.x + RANK_SEP <= laid[i].position.x <= anchor.x + RANK_SEP + HopColumnWidth() - NODE_WIDTH
  {
    hide GridPosition;
    laid := LayoutNodeGrid(nodes, anchor, HOP_OPTIONS);
    forall i | 0 <= i < |laid|
      ensures anchor.x + RANK_SEP <= laid[i].position.x <= anchor.x + RANK_SEP + HopColumnWidth() - NODE_WIDTH
    {
      HopGridInColumn(i, |nodes|, anchor);
    }
    forall i, j | 0 <= i < j < |laid| ensures Apart(laid[i].position, laid[j].position, NODE_WIDTH, NODE_HEIGHT) {
      GridApart(i, j, |nodes|, anchor, HOP_OPTIONS);
    }
  }

  lemma NoColumns(byHop: Groups, anchor: Position)
    ensures Columns(byHop, []) == [] && PlacedColumns(byHop, [], anchor) == []
  {
  }

  lemma NextColumn(byHop: Groups, order: seq<nat>, anchor: Position)
    requires order != [] && forall h :: h in order ==> h in byHop
    ensures var g := |order| - 1;
            && Columns(byHop, order) == Columns(byHop, order[..g]) + byHop[order[g]]
            && PlacedColumns(byHop, order, anchor)
               == PlacedColumns(byHop, order[..g], anchor)
                  + Grid(byHop[order[g]], Position(ColumnX(anchor, g) - RANK_SEP, anchor.y))
  {
    hide Grid, ColumnX;
  }

  /** The hops in ascending order, with the nodes of each. */
  ghost predicate HopOrder(byHop: Groups, order: seq<nat>, hops: Hops, nodes: seq<Node>, hackerId: string,
                           edges: seq<Edge>)
  {
    && Measured(hops, nodes, hackerId, edges) && Grouped(byHop, nodes, hops, hackerId, edges)
    && Ascending(order) && forall h :: h in order <==> h in byHop
  }

  /** Hop after hop, one column to the right of the other: every grouped node once, none overlapping. */
  method LayoutDownstreamByHopGrids(nodes: seq<Node>, anchor: Position, hackerId: string, edges: seq<Edge>)
    returns (laid: seq<Placed>, byHop: Groups, order: seq<nat>, hops: Hops)
    ensures HopOrder(byHop, order, hops, nodes, hackerId, edges)
    ensures Ids(laid) == Columns(byHop, order) && laid == PlacedColumns(byHop, order, anchor)
    ensures AllApart(laid)
    ensures forall i :: 0 <= i < |laid| ==> laid[i].position.x >= anchor.x + NODE_WIDTH + RANK_SEP
  {
    hide HopColumnWidth, Grouped, Measured, Ascending, Grid, Columns, PlacedColumns;
    byHop, hops := GroupDownstreamByHop(nodes, hackerId, edges);
    order := SortedKeys(byHop);
    laid := [];
    var columnWidth := HopColumnWidth();
    var start := anchor.x + NODE_WIDTH + RANK_SEP;
    WidthNonnegative();
    var columnStartX := start;
    NoColumns(byHop, anchor);
    for g := 0 to |order|
      invariant forall h :: h in order[..g] ==> h in byHop
      invariant Ids(laid) == Columns(byHop, order[..g]) && AllApart(laid)
      invariant laid == PlacedColumns(byHop, order[..g], anchor)
      invariant columnStartX >= start && columnStartX == ColumnX(anchor, g)
      invariant forall i :: 0 <= i < |laid| ==>
                start <= laid[i].position.x && laid[i].position.x + NODE_WIDTH <= columnStartX
    {
      assert order[..g + 1] == order[..g] + [order[g]];
      assert order[g] in order;
      NextColumn(byHop, order[..g + 1], anchor);
      assert order[..g + 1][..g] == order[..g];
      var more := LayOneHop(byHop[order[g]], Position(columnStartX - RANK_SEP, anchor.y));
      AppendApart(laid, more, columnStartX);
      laid := laid + more;
      columnStartX := columnStartX + (columnWidth + RANK_SEP);
    }
    assert order[..|order|] == order;
  }

  lemma WidthNonnegative()
    ensures HopColumnWidth() >= 0.0
  {
  }

  /** Nodes left of a line and nodes right of it are apart. */
  lemma AppendApart(a: seq<Placed>, b: seq<Placed>, x: real)
    requires AllApart(a) && AllApart(b)
    requires forall i :: 0 <= i < |a| ==> a[i].position.x + NODE_WIDTH <= x
    requires forall i :: 0 <= i < |b| ==> x <= b[i].position.x
    ensures AllApart(a + b) && Ids(a + b) == Ids(a) + Ids(b)
  {
  }

  const VICTIM_OPTIONS: Options :=
    Options(Left, MAX_ROWS_PER_COLUMN, None, None, NODE_WIDTH, NODE_HEIGHT, ROW_GAP, COL_GAP, BLOCK_GAP)

  function PlacedVictims(victims: seq<string>, anchor: Position): seq<Placed> {
    seq(|victims|, k requires 0 <= k < |victims| =>
      Placed(victims[k], GridPosition(k, |victims|, anchor, VICTIM_OPTIONS)))
  }

  method LayoutVictimGrid(victims: seq<string>, anchor: Position) returns (laid: seq<Placed>)
    ensures Ids(laid) == victims && AllApart(laid) && laid == PlacedVictims(victims, anchor)
    ensures forall i :: 0 <= i < |laid| ==> laid[i].position.x + NODE_WIDTH <= anchor.x - RANK_SEP
  {
    laid := LayoutNodeGrid(victims, anchor, VICTIM_OPTIONS);
    forall i | 0 <= i < |laid| ensures laid[i].position.x + NODE_WIDTH <= anchor.x - RANK_SEP {
      VictimLeft(i, |victims|, anchor);
    }
    hide GridPosition;
    forall i, j | 0 <= i < j < |laid| ensures Apart(laid[i].position, laid[j].position, NODE_WIDTH, NODE_HEIGHT) {
      GridApart(i, j, |victims|, anchor, VICTIM_OPTIONS);
    }
  }

  lemma VictimLeft(k: nat, n: nat, anchor: Position)
    ensures GridPosition(k, n, anchor, VICTIM_OPTIONS).x + NODE_WIDTH <= anchor.x - RANK_SEP
  {
    var col := k % PerBlock(n, VICTIM_OPTIONS) / 10;
    SpanSteps(col, col, NODE_WIDTH + COL_GAP);
    hide Span;
  }

  /** The graph of a hacker: the anchor, every grouped node and every victim, none overlapping. */
  method LayoutHackerGraph(hacker: string, nodes: seq<Node>, victims: seq<string>, edges: seq<Edge>)
    returns (laid: seq<Placed>, byHop: Groups, order: seq<nat>, hops: Hops)
    ensures HopOrder(byHop, order, hops, nodes, hacker, edges)
    ensures Ids(laid) == [hacker] + Columns(byHop, order) + victims
    ensures laid == [Placed(hacker, Position(0.0, 0.0))] + PlacedColumns(byHop, order, Position(0.0, 0.0))
                    + PlacedVictims(victims, Position(0.0, 0.0))
    ensures AllApart(laid) && |laid| > 0 && laid[0].position == Position(0.0, 0.0)
    ensures forall i :: 0 < i < |laid| ==>
              if i < |laid| - |victims| then laid[i].position.x >= NODE_WIDTH + RANK_SEP
              else laid[i].position.x + NODE_WIDTH <= -RANK_SEP
  {
    hide HopOrder, Columns, PlacedColumns, PlacedVictims, GridPosition;
    var anchor := Position(0.0, 0.0);
    var downstream;
    downstream, byHop, order, hops := LayoutDownstreamByHopGrids(nodes, anchor, hacker, edges);
    var left := LayoutVictimGrid(victims, anchor);
    AppendApart([Placed(hacker, anchor)], downstream, NODE_WIDTH);
    var right := [Placed(hacker, anchor)] + downstream;
    assert right[0].position.x == 0.0 && forall i :: 0 < i < |right| ==> right[i] == downstream[i - 1];
    PrependApart(right, left);
    laid := right + left;
    assert forall i :: |right| <= i < |laid| ==> laid[i] == left[i - |right|];
  }

  /** The same, with the nodes on the right first. */
  lemma PrependApart(a: seq<Placed>, b: seq<Placed>)
    requires AllApart(a) && AllApart(b)
    requires forall i :: 0 <= i < |a| ==> a[i].position.x >= 0.0
    requires forall i :: 0 <= i < |b| ==> b[i].position.x + NODE_WIDTH <= 0.0
    ensures AllApart(a + b) && Ids(a + b) == Ids(a) + Ids(b)
  {
  }

  lemma VictimCell(k: nat, n: nat, anchor: Position)
    requires k < n && k < 10
    ensures GridPosition(k, n, anchor, VICTIM_OPTIONS)
            == Position(anchor.x - 300.0, anchor.y + 112.0 - 112.0 * Min(n, 10) as real + 224.0 * k as real)
  {
    OneBlock(n, VICTIM_OPTIONS);
    SmallMod(k, n);
    assert k / n == 0 && k / 10 == 0 && k % 10 == k;
    var tallest := TallestColumn(n, VICTIM_OPTIONS);
    assert tallest == Min(n, 10);
    assert BlockHeight(n, VICTIM_OPTIONS) == 224.0 * tallest as real - 24.0;
    assert Span(0, NODE_WIDTH + COL_GAP) == 0.0;
  }

  /** A victim cluster placed like a victim always covers part of some victim's rectangle. */
  lemma ClusterOverlapsVictims(n: nat, anchor: Position) returns (k: nat)
    requires n > 0
    ensures k < n && !Apart(GridPosition(0, 1, anchor, VICTIM_OPTIONS), GridPosition(k, n, anchor, VICTIM_OPTIONS),
                            NODE_WIDTH, NODE_HEIGHT)
  {
    k := (Min(n, 10) - 1) / 2;
    VictimCell(0, 1, anchor);
    VictimCell(k, n, anchor);
    hide GridPosition;
  }
}
