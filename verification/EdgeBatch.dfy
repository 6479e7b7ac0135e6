/**
 * One chunk of upsertEdgesBatch (store.ts): all rows are written first, the figures follow from
 * the amounts read before.
 */
module EdgeBatch {
  import opened Wrappers
  import opened LedgerTable

  function WriteAll(edges: Edges, rows: seq<EdgeRow>): Edges {
    if rows == [] then edges
    else WriteAll(edges, rows[..|rows| - 1])[rows[|rows| - 1].key := rows[|rows| - 1].edge]
  }

  predicate DistinctKeys(rows: seq<EdgeRow>) {
    forall i, j :: 0 <= i < j < |rows| ==> rows[i].key != rows[j].key
  }

  /** No row changes the direction of the edge it replaces. */
  predicate Stable(edges: Edges, rows: seq<EdgeRow>) {
    forall i :: 0 <= i < |rows| && rows[i].key in edges ==> edges[rows[i].key].direction == rows[i].edge.direction
  }

  predicate PositiveRows(rows: seq<EdgeRow>) {
    forall i :: 0 <= i < |rows| ==> rows[i].edge.amount > 0
  }

  function Tracked(rows: seq<EdgeRow>): (r: seq<EdgeRow>)
    ensures forall row :: row in r <==> row in rows && !row.edge.direction.OtherDirection?
  {
    if rows == [] then []
    else if rows[0].edge.direction.OtherDirection? then Tracked(rows[1..])
    else [rows[0]] + Tracked(rows[1..])
  }

  /** The edges read before the write: by transaction and direction of the tracked rows. */
  function OldEdges(edges: Edges, rows: seq<EdgeRow>): Edges {
    var tracked := Tracked(rows);
    var txids := set row | row in tracked :: row.key.txid;
    var directions := set row | row in tracked :: row.edge.direction;
    map k | k in edges && k.txid in txids && edges[k].direction in directions :: edges[k]
  }

  function OldAmount(seen: Edges, k: EdgeKey): int {
    if k in seen then seen[k].amount else 0
  }

  lemma {:induction false} WrittenElsewhere(edges: Edges, rows: seq<EdgeRow>, k: EdgeKey)
    requires forall i :: 0 <= i < |rows| ==> rows[i].key != k
    ensures k in WriteAll(edges, rows) <==> k in edges
    ensures k in edges ==> WriteAll(edges, rows)[k] == edges[k]
  {
    if rows != [] {
      WrittenElsewhere(edges, rows[..|rows| - 1], k);
    }
  }

  /** What is left of a chunk under a key is its last row. */
  lemma {:induction false} WrittenLast(edges: Edges, rows: seq<EdgeRow>, i: nat)
    requires i < |rows| && forall j :: i < j < |rows| ==> rows[j].key != rows[i].key
    ensures rows[i].key in WriteAll(edges, rows) && WriteAll(edges, rows)[rows[i].key] == rows[i].edge
  {
    if i < |rows| - 1 {
      WrittenLast(edges, rows[..|rows| - 1], i);
    }
  }

  lemma {:induction false} LastRow(rows: seq<EdgeRow>, k: EdgeKey) returns (i: nat)
    requires exists i :: 0 <= i < |rows| && rows[i].key == k
    ensures i < |rows| && rows[i].key == k && forall j :: i < j < |rows| ==> rows[j].key != k
  {
    i := |rows| - 1;
    if rows[i].key != k {
      i := LastRow(rows[..i], k);
    }
  }

  /** Under stable directions, a tracked row finds the edge it replaces. */
  lemma OldEdgeFound(edges: Edges, rows: seq<EdgeRow>, i: nat)
    requires Stable(edges, rows) && i < |rows| && !rows[i].edge.direction.OtherDirection?
    ensures OldAmount(OldEdges(edges, rows), rows[i].key)
            == if rows[i].key in edges then edges[rows[i].key].amount else 0
  {
    assert rows[i] in Tracked(rows);
  }

  lemma {:induction false} WriteAllPositive(edges: Edges, rows: seq<EdgeRow>)
    requires Positive(edges) && PositiveRows(rows)
    ensures Positive(WriteAll(edges, rows))
  {
    if rows != [] {
      WriteAllPositive(edges, rows[..|rows| - 1]);
    }
  }

  // ---- drift ------------------------------------------------------------------------------

  /** What a row of the chunk takes back from a sum: the old amount that was read for its key. */
  function TakenBack(m: EdgeSum, row: EdgeRow, seen: Edges): int {
    if CountsFor(m, row.key, row.edge.direction) then OldAmount(seen, row.key) else 0
  }

  /**
   * By how much the differences of the rows exceed the change of a sum: a row replaces what the
   * table holds by then, but takes back what was read before the write.
   */
  function Drift(edges: Edges, rows: seq<EdgeRow>, seen: Edges, m: EdgeSum): int {
    if rows == [] then 0
    else
      var front, row := rows[..|rows| - 1], rows[|rows| - 1];
      Drift(edges, front, seen, m) + OldWeight(WriteAll(edges, front), m, row.key) - TakenBack(m, row, seen)
  }

  lemma DriftNext(edges: Edges, rows: seq<EdgeRow>, n: nat, seen: Edges, m: EdgeSum)
    requires n < |rows|
    ensures Drift(edges, rows[..n + 1], seen, m)
            == Drift(edges, rows[..n], seen, m) + OldWeight(WriteAll(edges, rows[..n]), m, rows[n].key)
               - TakenBack(m, rows[n], seen)
  {
    hide TakenBack, OldWeight, WriteAll;
    assert rows[..n + 1][..n] == rows[..n] && rows[..n + 1][n] == rows[n];
  }

  /** Of a key in the table there is one row, and it keeps the edge's direction; new keys may repeat. */
  predicate Orderly(edges: Edges, rows: seq<EdgeRow>) {
    Stable(edges, rows)
    && forall i, j :: 0 <= i < j < |rows| && rows[i].key == rows[j].key ==> rows[i].key !in edges
  }

  /** Row i counts for the sum, and row j writes its key again. */
  predicate Overwrites(rows: seq<EdgeRow>, m: EdgeSum, i: nat, j: nat) {
    i < j < |rows| && rows[i].key == rows[j].key && CountsFor(m, rows[i].key, rows[i].edge.direction)
  }

  /** No row that counts for the sum is written again by one below n. */
  ghost predicate NoneOverwritten(rows: seq<EdgeRow>, n: nat, m: EdgeSum) {
    forall i: nat, j: nat :: j < n ==> !Overwrites(rows, m, i, j)
  }

  /** A row whose key is in the table takes back just what it replaces. */
  lemma OldRowDrift(edges: Edges, rows: seq<EdgeRow>, n: nat, m: EdgeSum)
    requires Orderly(edges, rows) && n < |rows| && rows[n].key in edges
    ensures OldWeight(WriteAll(edges, rows[..n]), m, rows[n].key) == TakenBack(m, rows[n], OldEdges(edges, rows))
    ensures NoneOverwritten(rows, n + 1, m) <==> NoneOverwritten(rows, n, m)
  {
    hide OldEdges;
    WrittenElsewhere(edges, rows[..n], rows[n].key);
    if CountsFor(m, rows[n].key, rows[n].edge.direction) {
      OldEdgeFound(edges, rows, n);
    }
    assert forall i: nat :: !Overwrites(rows, m, i, n);
  }

  /** A row with a new key takes nothing back. */
  lemma NothingTaken(edges: Edges, rows: seq<EdgeRow>, row: EdgeRow, m: EdgeSum)
    requires row.key !in edges
    ensures TakenBack(m, row, OldEdges(edges, rows)) == 0
  {
  }

  /** But it may replace an earlier row of the chunk. */
  lemma NewRowDrift(edges: Edges, rows: seq<EdgeRow>, n: nat, m: EdgeSum)
    requires n < |rows| && rows[n].key !in edges
    ensures var replaced := OldWeight(WriteAll(edges, rows[..n]), m, rows[n].key);
            && (NoneOverwritten(rows, n + 1, m) ==> NoneOverwritten(rows, n, m) && replaced == 0)
            && (PositiveRows(rows) ==>
                  && replaced >= 0
                  && (NoneOverwritten(rows, n + 1, m) <==> NoneOverwritten(rows, n, m) && replaced == 0))
  {
    hide WriteAll, CountsFor, NoneOverwritten;
    var front, k := rows[..n], rows[n].key;
    if exists i :: 0 <= i < |front| && front[i].key == k {
      var last := LastRow(front, k);
      WrittenLast(edges, front, last);
      OverwrittenLast(rows, n, last, m);
    } else {
      WrittenElsewhere(edges, front, k);
      OverwrittenNot(rows, n, m);
    }
  }

  lemma OverwrittenLast(rows: seq<EdgeRow>, n: nat, last: nat, m: EdgeSum)
    requires last < n < |rows| && rows[last].key == rows[n].key
    requires forall i :: last < i < n ==> rows[..n][i].key != rows[n].key
    ensures NoneOverwritten(rows, n + 1, m)
            <==> NoneOverwritten(rows, n, m) && !CountsFor(m, rows[n].key, rows[last].edge.direction)
  {
    hide CountsFor;
    assert Overwrites(rows, m, last, n) <==> CountsFor(m, rows[n].key, rows[last].edge.direction);
    assert forall i: nat :: i < n && rows[i].key == rows[n].key ==> rows[..n][i] == rows[i] && i <= last;
    assert forall i: nat :: i < last && Overwrites(rows, m, i, n) ==> Overwrites(rows, m, i, last);
  }

  lemma OverwrittenNot(rows: seq<EdgeRow>, n: nat, m: EdgeSum)
    requires n < |rows| && forall i :: 0 <= i < n ==> rows[..n][i].key != rows[n].key
    ensures NoneOverwritten(rows, n + 1, m) <==> NoneOverwritten(rows, n, m)
  {
    hide CountsFor;
    assert forall i: nat :: i < n ==> rows[..n][i] == rows[i] && !Overwrites(rows, m, i, n);
  }

  /**
   * Orderly chunks do not drift unless a counted row is overwritten; with positive amounts they
   * drift if one is, and upwards only.
   */
  lemma {:induction false} OrderlyDrift(edges: Edges, rows: seq<EdgeRow>, n: nat, m: EdgeSum)
    requires Orderly(edges, rows) && n <= |rows|
    ensures var d := Drift(edges, rows[..n], OldEdges(edges, rows), m);
            && (NoneOverwritten(rows, n, m) ==> d == 0)
            && (PositiveRows(rows) ==> d >= 0 && (d == 0 <==> NoneOverwritten(rows, n, m)))
  {
    hide OldEdges, Orderly, PositiveRows, OldWeight, TakenBack, NoneOverwritten, WriteAll;
    if n > 0 {
      OrderlyDrift(edges, rows, n - 1, m);
      DriftNext(edges, rows, n - 1, OldEdges(edges, rows), m);
      if rows[n - 1].key in edges {
        OldRowDrift(edges, rows, n - 1, m);
      } else {
        NothingTaken(edges, rows, rows[n - 1], m);
        NewRowDrift(edges, rows, n - 1, m);
      }
    } else {
      NothingOverwritten(rows, m);
    }
  }

  lemma NothingOverwritten(rows: seq<EdgeRow>, m: EdgeSum)
    ensures NoneOverwritten(rows, 0, m)
  {
  }

  lemma DistinctOrderly(edges: Edges, rows: seq<EdgeRow>, m: EdgeSum)
    requires DistinctKeys(rows) && Stable(edges, rows)
    ensures Orderly(edges, rows) && NoneOverwritten(rows, |rows|, m)
  {
  }

  // ---- peaks ------------------------------------------------------------------------------

  /** Hacker and victim. */
  type Pair = (string, string)

  type Peaks = map<Pair, int>

  predicate PairEdge(edges: Edges, pair: Pair, k: EdgeKey) {
    k in edges && edges[k].direction.InToHacker? && k.to == pair.0 && k.from == pair.1
  }

  ghost predicate IsMax(edges: Edges, pair: Pair, p: int) {
    && (exists k :: PairEdge(edges, pair, k) && edges[k].amount == p)
    && forall k :: PairEdge(edges, pair, k) ==> edges[k].amount <= p
  }

  /** Each peak is the largest amount of its pair, and every pair with an edge has one. */
  ghost predicate PeaksExact(edges: Edges, peaks: Peaks) {
    && (forall pair :: pair in peaks ==> IsMax(edges, pair, peaks[pair]))
    && forall pair, k :: PairEdge(edges, pair, k) ==> pair in peaks
  }

  function PairOf(row: EdgeRow): Pair {
    (row.key.to, row.key.from)
  }

  predicate IsIn(row: EdgeRow) {
    row.edge.direction.InToHacker?
  }

  /** Row j from i on replaces an edge of the pair whose old amount is at least p. */
  predicate Waiting(before: Edges, rows: seq<EdgeRow>, i: nat, pair: Pair, p: int, j: nat) {
    && i <= j < |rows| && IsIn(rows[j]) && PairOf(rows[j]) == pair
    && rows[j].key in before && before[rows[j].key].amount >= p
  }

  ghost predicate AnyWaiting(before: Edges, rows: seq<EdgeRow>, i: nat, pair: Pair, p: int) {
    exists j :: Waiting(before, rows, i, pair, p, j)
  }

  /** Some edge of the pair reaches p. */
  ghost predicate Reached(after: Edges, pair: Pair, p: int) {
    exists k :: PairEdge(after, pair, k) && after[k].amount >= p
  }

  predicate Unprocessed(rows: seq<EdgeRow>, i: nat, k: EdgeKey) {
    exists j :: i <= j < |rows| && rows[j].key == k
  }

  /** Each peak is reached by an edge, or by an old amount still to be replaced. */
  ghost predicate Justified(before: Edges, after: Edges, rows: seq<EdgeRow>, i: nat, peaks: Peaks) {
    forall pair :: pair in peaks ==>
      Reached(after, pair, peaks[pair]) || AnyWaiting(before, rows, i, pair, peaks[pair])
  }

  /** The peaks are high enough for every edge but those of the rows to come. */
  ghost predicate HighEnough(after: Edges, rows: seq<EdgeRow>, i: nat, peaks: Peaks) {
    forall pair, k :: PairEdge(after, pair, k) && !Unprocessed(rows, i, k) ==>
      pair in peaks && peaks[pair] >= after[k].amount
  }

  ghost predicate Known(before: Edges, peaks: Peaks) {
    forall pair, k :: PairEdge(before, pair, k) ==> pair in peaks
  }

  /** The peaks after i rows of the chunk, against the table in which all rows are written. */
  ghost predicate PeaksAfter(before: Edges, after: Edges, rows: seq<EdgeRow>, i: nat, peaks: Peaks) {
    Justified(before, after, rows, i, peaks) && HighEnough(after, rows, i, peaks) && Known(before, peaks)
  }

  /** For each incoming row, the table then has an edge of the pair that is as large. */
  ghost predicate AllReached(after: Edges, rows: seq<EdgeRow>) {
    forall i :: 0 <= i < |rows| && IsIn(rows[i]) ==> Reached(after, PairOf(rows[i]), rows[i].edge.amount)
  }

  lemma DistinctReached(before: Edges, rows: seq<EdgeRow>)
    requires DistinctKeys(rows)
    ensures AllReached(WriteAll(before, rows), rows)
  {
    hide WriteAll;
    var after := WriteAll(before, rows);
    forall i | 0 <= i < |rows| && IsIn(rows[i]) ensures Reached(after, PairOf(rows[i]), rows[i].edge.amount) {
      WrittenLast(before, rows, i);
      assert PairEdge(after, PairOf(rows[i]), rows[i].key);
    }
  }

  lemma {:induction false} DirectionKept(before: Edges, rows: seq<EdgeRow>, k: EdgeKey)
    requires Stable(before, rows) && k in before
    ensures k in WriteAll(before, rows) && WriteAll(before, rows)[k].direction == before[k].direction
  {
    if rows != [] {
      DirectionKept(before, rows[..|rows| - 1], k);
    }
  }

  lemma PeaksStart(before: Edges, rows: seq<EdgeRow>, peaks: Peaks)
    requires Stable(before, rows) && PeaksExact(before, peaks)
    ensures PeaksAfter(before, WriteAll(before, rows), rows, 0, peaks)
  {
    var after := WriteAll(before, rows);
    forall pair | pair in peaks
      ensures Reached(after, pair, peaks[pair]) || AnyWaiting(before, rows, 0, pair, peaks[pair])
    {
      var k :| PairEdge(before, pair, k) && before[k].amount == peaks[pair];
      if j :| 0 <= j < |rows| && rows[j].key == k {
        assert Waiting(before, rows, 0, pair, peaks[pair], j);
      } else {
        WrittenElsewhere(before, rows, k);
        assert PairEdge(after, pair, k);
      }
    }
    forall pair, k | PairEdge(after, pair, k) && !Unprocessed(rows, 0, k)
      ensures pair in peaks && peaks[pair] >= after[k].amount
    {
      WrittenElsewhere(before, rows, k);
      assert PairEdge(before, pair, k);
    }
  }

  lemma PeaksEnd(before: Edges, after: Edges, rows: seq<EdgeRow>, peaks: Peaks)
    requires PeaksAfter(before, after, rows, |rows|, peaks)
    ensures PeaksExact(after, peaks)
  {
    forall pair | pair in peaks ensures IsMax(after, pair, peaks[pair]) {
      var k :| PairEdge(after, pair, k) && after[k].amount >= peaks[pair];
      assert !Unprocessed(rows, |rows|, k);
    }
    forall pair, k | PairEdge(after, pair, k) ensures pair in peaks {
      assert !Unprocessed(rows, |rows|, k);
    }
  }

  ghost predicate AnyEdge(edges: Edges, pair: Pair) {
    exists k :: PairEdge(edges, pair, k)
  }

  /** Every pair with an edge has a largest amount. */
  lemma {:induction false} HasMax(edges: Edges, pair: Pair, ks: set<EdgeKey>) returns (best: EdgeKey)
    requires ks != {} && ks <= edges.Keys && forall k :: k in ks ==> PairEdge(edges, pair, k)
    ensures best in ks && forall k :: k in ks ==> edges[k].amount <= edges[best].amount
    decreases ks
  {
    best :| best in ks;
    if ks != {best} {
      assert ks - {best} != {};
      var other := HasMax(edges, pair, ks - {best});
      if edges[other].amount > edges[best].amount {
        best := other;
      }
    }
  }

  /** SELECT MAX(amount_sats), or 0 when the pair has no edge. */
  ghost function Largest(edges: Edges, pair: Pair): (m: int)
    ensures AnyEdge(edges, pair) ==> IsMax(edges, pair, m)
    ensures !AnyEdge(edges, pair) ==> m == 0
  {
    if AnyEdge(edges, pair) then
      SomeMax(edges, pair);
      var m :| IsMax(edges, pair, m);
      m
    else 0
  }

  lemma SomeMax(edges: Edges, pair: Pair)
    requires AnyEdge(edges, pair)
    ensures exists m :: IsMax(edges, pair, m)
  {
    var ks := set k | k in edges && PairEdge(edges, pair, k);
    var k :| PairEdge(edges, pair, k);
    assert k in ks;
    var best := HasMax(edges, pair, ks);
    assert IsMax(edges, pair, edges[best].amount);
  }

  /** applyHackerVictimPeakDelta. */
  ghost function PeakMoved(edges: Edges, peaks: Peaks, pair: Pair, newAmount: int, oldAmount: int): Peaks {
    if newAmount <= 0 && oldAmount <= 0 then peaks
    else if newAmount >= oldAmount then
      peaks[pair := if pair in peaks then Max(peaks[pair], newAmount) else newAmount]
    else if pair !in peaks || oldAmount < peaks[pair] then peaks
    else if Largest(edges, pair) <= 0 then peaks - {pair}
    else peaks[pair := Largest(edges, pair)]
  }

  /** The peaks after row i. */
  ghost function PeaksNow(after: Edges, peaks: Peaks, row: EdgeRow, oldAmount: int): Peaks {
    if IsIn(row) then PeakMoved(after, peaks, PairOf(row), row.edge.amount, oldAmount) else peaks
  }

  lemma JustifiedNext(before: Edges, after: Edges, rows: seq<EdgeRow>, i: nat, peaks: Peaks)
    requires PositiveRows(rows) && AllReached(after, rows)
    requires i < |rows| && Justified(before, after, rows, i, peaks)
    ensures Justified(before, after, rows, i + 1, PeaksNow(after, peaks, rows[i], OldAmount(before, rows[i].key)))
  {
    var peaks' := PeaksNow(after, peaks, rows[i], OldAmount(before, rows[i].key));
    forall pair | pair in peaks'
      ensures Reached(after, pair, peaks'[pair]) || AnyWaiting(before, rows, i + 1, pair, peaks'[pair])
    {
      if pair in peaks && peaks'[pair] == peaks[pair] && !Reached(after, pair, peaks[pair]) {
        var j: nat :| Waiting(before, rows, i, pair, peaks[pair], j);
        if j > i {
          assert Waiting(before, rows, i + 1, pair, peaks[pair], j);
        }
      }
    }
  }

  lemma HighEnoughNext(before: Edges, after: Edges, rows: seq<EdgeRow>, i: nat, peaks: Peaks)
    requires Stable(before, rows) && PositiveRows(rows) && after == WriteAll(before, rows) && Positive(after)
    requires i < |rows| && HighEnough(after, rows, i, peaks) && Known(before, peaks)
    ensures HighEnough(after, rows, i + 1, PeaksNow(after, peaks, rows[i], OldAmount(before, rows[i].key)))
  {
    hide WriteAll, Stable;
    var row, q := rows[i], PairOf(rows[i]);
    var peaks' := PeaksNow(after, peaks, row, OldAmount(before, row.key));
    forall pair, k | PairEdge(after, pair, k) && !Unprocessed(rows, i + 1, k)
      ensures pair in peaks' && peaks'[pair] >= after[k].amount
    {
      if k == row.key {
        WrittenLast(before, rows, i);
        assert pair == q && IsIn(row) && after[k] == row.edge;
        if row.edge.amount < OldAmount(before, k) {
          DirectionKept(before, rows, k);
          assert PairEdge(before, q, k);
        }
      } else {
        assert !Unprocessed(rows, i, k);
      }
    }
  }

  lemma KnownNext(before: Edges, after: Edges, rows: seq<EdgeRow>, i: nat, peaks: Peaks)
    requires Stable(before, rows) && PositiveRows(rows) && after == WriteAll(before, rows) && Positive(after)
    requires i < |rows| && Known(before, peaks)
    ensures Known(before, PeaksNow(after, peaks, rows[i], OldAmount(before, rows[i].key)))
  {
    hide WriteAll, Stable;
    var row := rows[i];
    if IsIn(row) && row.key in before {
      DirectionKept(before, rows, row.key);
      StableAt(before, rows, i);
      assert PairEdge(after, PairOf(row), row.key);
    }
  }

  lemma StableAt(before: Edges, rows: seq<EdgeRow>, i: nat)
    requires Stable(before, rows) && i < |rows| && rows[i].key in before
    ensures before[rows[i].key].direction == rows[i].edge.direction
  {
  }

  /** One peak update, against a table in which the later rows are written too. */
  lemma PeaksNext(before: Edges, after: Edges, rows: seq<EdgeRow>, i: nat, peaks: Peaks)
    requires Stable(before, rows) && PositiveRows(rows) && after == WriteAll(before, rows) && Positive(after)
    requires i < |rows| && PeaksAfter(before, after, rows, i, peaks) && AllReached(after, rows)
    ensures PeaksAfter(before, after, rows, i + 1, PeaksNow(after, peaks, rows[i], OldAmount(before, rows[i].key)))
  {
    hide WriteAll, Stable, PositiveRows, Positive, Justified, HighEnough, Known, AllReached, PeaksNow;
    JustifiedNext(before, after, rows, i, peaks);
    HighEnoughNext(before, after, rows, i, peaks);
    KnownNext(before, after, rows, i, peaks);
  }

  /** No incoming row is smaller than the edge it replaces. */
  predicate NoneLowered(before: Edges, rows: seq<EdgeRow>) {
    forall i :: 0 <= i < |rows| && IsIn(rows[i]) ==> rows[i].edge.amount >= OldAmount(before, rows[i].key)
  }

  /** The peaks have reached every incoming row below n. */
  ghost predicate Raised(rows: seq<EdgeRow>, n: nat, peaks: Peaks)
    requires n <= |rows|
  {
    forall i :: 0 <= i < n && IsIn(rows[i]) ==>
      PairOf(rows[i]) in peaks && peaks[PairOf(rows[i])] >= rows[i].edge.amount
  }

  lemma RaisedNext(before: Edges, after: Edges, rows: seq<EdgeRow>, n: nat, peaks: Peaks)
    requires PositiveRows(rows) && NoneLowered(before, rows) && n < |rows| && Raised(rows, n, peaks)
    ensures Raised(rows, n + 1, PeaksNow(after, peaks, rows[n], OldAmount(before, rows[n].key)))
  {
  }

  /** Exact peaks that are that high have an edge for each incoming row. */
  lemma RaisedReached(after: Edges, rows: seq<EdgeRow>, peaks: Peaks)
    requires PeaksExact(after, peaks) && Raised(rows, |rows|, peaks)
    ensures AllReached(after, rows)
  {
    forall i | 0 <= i < |rows| && IsIn(rows[i]) ensures Reached(after, PairOf(rows[i]), rows[i].edge.amount) {
      assert IsMax(after, PairOf(rows[i]), peaks[PairOf(rows[i])]);
    }
  }

  // ---- whole batches ----------------------------------------------------------------------

  /** The length of the next chunk. */
  function Chunk(rows: seq<EdgeRow>, size: nat): (n: nat)
    requires size > 0
    ensures n <= |rows| && (rows != [] ==> n > 0)
    ensures n <= size && (n < size ==> n == |rows|)
  {
    if size < |rows| then size else |rows|
  }

  /** Within each chunk of the given size, no key occurs twice. */
  predicate DistinctInChunks(rows: seq<EdgeRow>, size: nat)
    requires size > 0
  {
    rows == [] ||
    (var n := Chunk(rows, size);
     DistinctKeys(rows[..n]) && DistinctInChunks(rows[n..], size))
  }

  /** Rows of one key agree on the direction. */
  predicate OneDirection(rows: seq<EdgeRow>) {
    forall i, j :: 0 <= i < |rows| && 0 <= j < |rows| && rows[i].key == rows[j].key ==>
      rows[i].edge.direction == rows[j].edge.direction
  }

  lemma StableAfterChunk(edges: Edges, rows: seq<EdgeRow>, n: nat)
    requires n <= |rows| && Stable(edges, rows) && OneDirection(rows)
    ensures Stable(WriteAll(edges, rows[..n]), rows[n..]) && OneDirection(rows[n..]) && Stable(edges, rows[..n])
  {
    hide WriteAll;
    var chunk, rest := rows[..n], rows[n..];
    var after := WriteAll(edges, chunk);
    forall i | 0 <= i < |rest| && rest[i].key in after
      ensures after[rest[i].key].direction == rest[i].edge.direction
    {
      assert rest[i] == rows[n + i];
      if exists j :: 0 <= j < |chunk| && chunk[j].key == rest[i].key {
        var j := LastRow(chunk, rest[i].key);
        WrittenLast(edges, chunk, j);
        assert chunk[j] == rows[j];
      } else {
        WrittenElsewhere(edges, chunk, rest[i].key);
      }
    }
    assert forall i, j :: 0 <= i < |rest| && 0 <= j < |rest| && rest[i].key == rest[j].key ==>
      rows[n + i].edge.direction == rows[n + j].edge.direction;
  }
}
