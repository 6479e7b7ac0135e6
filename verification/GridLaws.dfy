/**
 * Where the nodes of a grid are, relative to one another and to the anchor, and which hop a node
 * belongs to.
 */
module GridLaws {
  import opened Wrappers
  import opened GraphWalks
  import opened HopDepth
  import opened Layout

  // ---- neighbours -------------------------------------------------------------------------

  /** One column to the side: away from the anchor. */
  function Beside(p: Position, o: Options): real {
    if o.side.Left? then p.x - o.nodeWidth - o.colGap else p.x + o.nodeWidth + o.colGap
  }

  lemma Unique(q: nat, r: nat, m: nat)
    requires r < m
    ensures (q * m + r) / m == q && (q * m + r) % m == r
  {
    InsideBlock(q, r, m);
  }

  lemma QuotientOf(k: nat, q: nat, r: nat, m: nat)
    requires r < m && k == q * m + r
    ensures k / m == q && k % m == r
  {
    Unique(q, r, m);
  }

  lemma NextIndex(i: nat, m: nat)
    requires m > 0
    ensures i % m + 1 < m ==> (i + 1) / m == i / m && (i + 1) % m == i % m + 1
    ensures i % m + 1 == m ==> (i + 1) / m == i / m + 1 && (i + 1) % m == 0
    ensures i % m < m
  {
    var q, r := i / m, i % m;
    DivMod(i, m);
    if r + 1 < m {
      QuotientOf(i + 1, q, r + 1, m);
    } else {
      OneBlockMore(q, m);
      QuotientOf(i + 1, q + 1, 0, m);
    }
  }

  lemma NoSpan(s: real)
    ensures Span(0, s) == 0.0
  {
  }

  /** Within a block, the next node is below the last one, or at the top of the next column. */
  lemma NextInBlock(i: nat, anchor: Position, x: real, y: real, o: Options)
    requires Sensible(o)
    ensures var p, q := PositionInBlock(i, anchor, x, y, o), PositionInBlock(i + 1, anchor, x, y, o);
            && ((i + 1) % o.maxRows != 0 ==> q == Position(p.x, p.y + o.nodeHeight + o.rowGap))
            && ((i + 1) % o.maxRows == 0 ==> q == Position(Beside(p, o), y))
  {
    NextIndex(i, o.maxRows);
    SpanSteps(i % o.maxRows, i % o.maxRows, o.nodeHeight + o.rowGap);
    SpanSteps(i / o.maxRows, i / o.maxRows, o.nodeWidth + o.colGap);
    NoSpan(o.nodeHeight + o.rowGap);
    hide Span;
  }

  /** The first node of a block is next to the anchor, a gap away. */
  lemma FirstInBlock(anchor: Position, y: real, o: Options)
    requires Sensible(o)
    ensures PositionInBlock(0, anchor, OriginX(anchor, o), y, o)
            == Position(if o.side.Left? then anchor.x - RANK_SEP - o.nodeWidth else anchor.x + RANK_SEP, y)
  {
    NoSpan(o.nodeHeight + o.rowGap);
    NoSpan(o.nodeWidth + o.colGap);
    assert 0 / o.maxRows == 0 && 0 % o.maxRows == 0;
    hide Span;
  }

  /** The first index of the block of index k. */
  function BlockStart(k: nat, per: nat): (first: nat)
    requires per > 0
    ensures first <= k
  {
    DivMod(k, per);
    k - k % per
  }

  lemma BlockOf(k: nat, per: nat)
    requires per > 0
    ensures BlockStart(k, per) / per == k / per && BlockStart(k, per) % per == 0
  {
    DivMod(k, per);
    QuotientOf(BlockStart(k, per), k / per, 0, per);
  }

  /** Blocks are filled column by column, top to bottom, away from the anchor. */
  lemma GridSteps(k: nat, n: nat, anchor: Position, o: Options)
    requires Sensible(o) && k < n
    ensures var per, p := PerBlock(n, o), GridPosition(k, n, anchor, o);
            var i := k % per;
            && (i == 0 ==> p.x == if o.side.Left? then anchor.x - RANK_SEP - o.nodeWidth else anchor.x + RANK_SEP)
            && (i > 0 ==>
                  var last, top := GridPosition(k - 1, n, anchor, o), GridPosition(BlockStart(k, per), n, anchor, o);
                  p == if i % o.maxRows != 0 then Position(last.x, last.y + o.nodeHeight + o.rowGap)
                       else Position(Beside(last, o), top.y))
  {
    hide PositionInBlock, Drop, StackTop, CountIn, OriginX;
    var per := PerBlock(n, o);
    var i := k % per;
    var x, y := OriginX(anchor, o), StackTop(n, anchor, o) + Drop(n, k / per, o);
    if i == 0 {
      FirstInBlock(anchor, y, o);
    } else {
      NextIndex(k - 1, per);
      NextInBlock(i - 1, anchor, x, y, o);
      BlockOf(k, per);
      FirstInBlock(anchor, y, o);
    }
  }

  // ---- blocks and the whole stack -----------------------------------------------------------

  /** The lowest node of a block of this many nodes. */
  function LowestIn(count: nat, o: Options): nat
    requires Sensible(o) && count > 0
  {
    TallestColumn(count, o) - 1
  }

  lemma TallestFits(count: nat, o: Options)
    requires Sensible(o) && count > 0
    ensures 0 < TallestColumn(count, o) <= count && TallestColumn(count, o) <= o.maxRows
  {
    if count < o.maxRows {
      assert count + o.maxRows - 1 < 2 * o.maxRows;
      CeilSmall(count, o.maxRows);
    }
  }

  lemma CeilSmall(count: nat, m: nat)
    requires 0 < count < m
    ensures CeilDiv(count, m) == 1
  {
    Unique(1, count - 1, m);
  }

  /** It ends where the block's height ends. */
  lemma LowestEnds(count: nat, anchor: Position, x: real, y: real, o: Options)
    requires Sensible(o) && count > 0
    ensures LowestIn(count, o) < count
    ensures PositionInBlock(LowestIn(count, o), anchor, x, y, o).y + o.nodeHeight == y + BlockHeight(count, o)
  {
    TallestFits(count, o);
    var last := LowestIn(count, o);
    SmallMod(last, o.maxRows);
    SpanSum(last, o.nodeHeight, o.rowGap);
    SpanSteps(last, last, o.nodeHeight);
    hide Span, TallestColumn;
  }

  /** A block before the last is full. */
  lemma FullBlock(n: nat, per: nat, b: nat)
    requires per > 0 && (b + 1) * per < n
    ensures CountIn(n, per, b) == per && b * per + per == (b + 1) * per
  {
    OneBlockMore(b, per);
  }

  /** The next block starts a gap below the lowest node of the last one. */
  lemma BlocksFollow(b: nat, n: nat, anchor: Position, o: Options) returns (low: nat)
    requires Sensible(o) && (b + 1) * PerBlock(n, o) < n
    ensures var per := PerBlock(n, o);
            && b * per <= low < (b + 1) * per
            && GridPosition((b + 1) * per, n, anchor, o).y
               == GridPosition(low, n, anchor, o).y + o.nodeHeight + o.blockGap
  {
    hide PositionInBlock, StackTop, OriginX, BlockHeight, TallestColumn, Drop;
    var per := PerBlock(n, o);
    FullBlock(n, per, b);
    var y := StackTop(n, anchor, o) + Drop(n, b, o);
    LowestEnds(per, anchor, OriginX(anchor, o), y, o);
    low := b * per + LowestIn(per, o);
    Unique(b, LowestIn(per, o), per);
    Unique(b + 1, 0, per);
    DropNext(n, b, o);
    FirstInBlock(anchor, StackTop(n, anchor, o) + Drop(n, b + 1, o), o);
  }

  /** The lowest node of the last block ends where the stack ends. */
  lemma LastEnds(n: nat, anchor: Position, o: Options) returns (low: nat)
    requires Sensible(o) && n > 0
    ensures low < n
    ensures GridPosition(low, n, anchor, o).y + o.nodeHeight == StackTop(n, anchor, o) + StackHeight(n, o)
    ensures forall k :: 0 <= k < n ==> GridPosition(k, n, anchor, o).y <= GridPosition(low, n, anchor, o).y
  {
    hide PositionInBlock, StackTop, OriginX, BlockHeight, TallestColumn, Drop, CountIn, PerBlock;
    var per := PerBlock(n, o);
    var b := CeilDiv(n, per) - 1;
    CeilCovers(n, per);
    OneBlockMore(b, per);
    LastCount(n, per, b);
    var count := CountIn(n, per, b);
    var y, x := StackTop(n, anchor, o) + Drop(n, b, o), OriginX(anchor, o);
    LowestEnds(count, anchor, x, y, o);
    low := b * per + LowestIn(count, o);
    Unique(b, LowestIn(count, o), per);
    DropNext(n, b, o);
    forall k: nat | k < n ensures GridPosition(k, n, anchor, o).y <= GridPosition(low, n, anchor, o).y {
      EndsAbove(k, n, b, anchor, o);
    }
  }

  lemma LastCount(n: nat, per: nat, b: nat)
    requires per > 0 && b * per < n <= (b + 1) * per
    ensures 0 < CountIn(n, per, b) <= per && b * per + CountIn(n, per, b) == n
  {
    OneBlockMore(b, per);
  }

  /** No node ends below the end of the last block. */
  lemma EndsAbove(k: nat, n: nat, b: nat, anchor: Position, o: Options)
    requires Sensible(o) && k < n && n <= (b + 1) * PerBlock(n, o)
    ensures GridPosition(k, n, anchor, o).y + o.nodeHeight
            <= StackTop(n, anchor, o) + Drop(n, b, o) + BlockHeight(CountIn(n, PerBlock(n, o), b), o)
  {
    hide PositionInBlock, StackTop, OriginX, BlockHeight, TallestColumn, Drop, CountIn, PerBlock;
    var per := PerBlock(n, o);
    DivMod(k, per);
    InCell(k, n, anchor, o);
    InBlockHeight(k % per, CountIn(n, per, k / per), anchor, OriginX(anchor, o),
                  StackTop(n, anchor, o) + Drop(n, k / per, o), o);
    if k / per > b {
      Multiples(b + 1, k / per, per);
      assert false;
    } else if k / per < b {
      DropBelow(n, k / per, b, o);
      HeightNonnegative(CountIn(n, per, b), o);
    }
  }

  lemma Multiples(a: nat, b: nat, m: nat)
    requires a <= b
    ensures a * m <= b * m
  {
  }

  /** The highest and the lowest node are equally far from the anchor. */
  lemma Centered(n: nat, anchor: Position, o: Options) returns (low: nat)
    requires Sensible(o) && n > 0
    ensures low < n
    ensures forall k :: 0 <= k < n ==>
              GridPosition(0, n, anchor, o).y <= GridPosition(k, n, anchor, o).y <= GridPosition(low, n, anchor, o).y
    ensures GridPosition(0, n, anchor, o).y + GridPosition(low, n, anchor, o).y == 2.0 * anchor.y
  {
    hide PositionInBlock, OriginX, StackHeight, Drop;
    low := LastEnds(n, anchor, o);
    DropZero(n, o);
    var per := PerBlock(n, o);
    Unique(0, 0, per);
    FirstInBlock(anchor, StackTop(n, anchor, o) + Drop(n, 0, o), o);
    forall k: nat | k < n ensures GridPosition(0, n, anchor, o).y <= GridPosition(k, n, anchor, o).y {
      StartsBelow(k, n, anchor, o);
    }
  }

  lemma StartsBelow(k: nat, n: nat, anchor: Position, o: Options)
    requires Sensible(o) && k < n
    ensures StackTop(n, anchor, o) <= GridPosition(k, n, anchor, o).y
  {
    hide PositionInBlock, StackTop, OriginX, BlockHeight, TallestColumn, Drop, CountIn, PerBlock;
    var per := PerBlock(n, o);
    InCell(k, n, anchor, o);
    InBlockHeight(k % per, CountIn(n, per, k / per), anchor, OriginX(anchor, o),
                  StackTop(n, anchor, o) + Drop(n, k / per, o), o);
    DropZero(n, o);
    if k / per > 0 {
      DropBelow(n, 0, k / per, o);
      HeightNonnegative(CountIn(n, per, 0), o);
    }
  }

  // ---- hop columns ------------------------------------------------------------------------

  /** Columns of ten nodes and nine gaps, with a gap of 100 between columns and before the first. */
  lemma ColumnAt(anchor: Position, g: nat)
    ensures ColumnX(anchor, g) == anchor.x + 300.0 + 2460.0 * g as real
  {
    if g > 0 {
      ColumnAt(anchor, g - 1);
    }
  }

  // ---- hops -------------------------------------------------------------------------------

  /** A node's own hop counts; without one, its shortest distance from the hacker. */
  ghost predicate Belongs(node: Node, nodes: seq<Node>, hackerId: string, edges: seq<Edge>, hop: nat) {
    if node.metaHop.Some? && node.metaHop.value >= 0 then hop == node.metaHop.value
    else hackerId != "" && Shortest(edges, hackerId, IdSet(nodes), node.id, hop)
  }

  lemma ResolveExact(node: Node, nodes: seq<Node>, hops: Hops, hackerId: string, edges: seq<Edge>, hop: nat)
    requires node in nodes && Measured(hops, nodes, hackerId, edges)
    ensures ResolveHop(node, hops, hackerId, edges) == Some(hop) <==> Belongs(node, nodes, hackerId, edges, hop)
  {
    if hackerId != "" && Edge(hackerId, node.id) in edges {
      assert Shortest(edges, hackerId, IdSet(nodes), node.id, 1);
    }
    hide Shortest;
  }

  /** A node is in the group of the hop it belongs to, and in no other. */
  lemma GroupsExact(byHop: Groups, nodes: seq<Node>, hops: Hops, hackerId: string, edges: seq<Edge>, hop: nat)
    requires Grouped(byHop, nodes, hops, hackerId, edges) && Measured(hops, nodes, hackerId, edges)
    ensures hop in byHop <==> exists i :: 0 <= i < |nodes| && Belongs(nodes[i], nodes, hackerId, edges, hop)
    ensures hop in byHop ==>
              forall id :: id in byHop[hop]
                           <==> exists i :: 0 <= i < |nodes| && nodes[i].id == id
                                            && Belongs(nodes[i], nodes, hackerId, edges, hop)
  {
    hide Belongs, ResolveHop, Measured;
    forall i | 0 <= i < |nodes|
      ensures ResolveHop(nodes[i], hops, hackerId, edges) == Some(hop)
              <==> Belongs(nodes[i], nodes, hackerId, edges, hop)
    {
      ResolveExact(nodes[i], nodes, hops, hackerId, edges, hop);
    }
    forall id { IdsAtHas(nodes, hops, hackerId, edges, hop, id); }
    if hop in byHop {
      assert byHop[hop][0] in byHop[hop];
    }
  }

  lemma {:induction false} IdsAtHas(nodes: seq<Node>, hops: Hops, hackerId: string, edges: seq<Edge>, hop: nat,
                                    id: string)
    ensures id in IdsAt(nodes, hops, hackerId, edges, hop) <==>
            exists i :: 0 <= i < |nodes| && nodes[i].id == id
                        && ResolveHop(nodes[i], hops, hackerId, edges) == Some(hop)
  {
    hide ResolveHop;
    if nodes != [] {
      IdsAtHas(nodes[..|nodes| - 1], hops, hackerId, edges, hop, id);
      assert forall i :: 0 <= i < |nodes| - 1 ==> nodes[..|nodes| - 1][i] == nodes[i];
    }
  }
}
