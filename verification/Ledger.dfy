/**
 * The store's address and edge methods (store.ts) with the figures kept beside the tables:
 * per-hack statistics, active hackers, per-address sums, the grand total and the peaks. Each
 * method is proved to make the step of LedgerBook, from any state.
 */
module Ledger {
  import opened Wrappers
  import opened LedgerTable
  import opened HackStats
  import opened EdgeBatch
  import opened LedgerBook

  class LedgerStore {
    const batchSize: nat
    var addresses: Addresses
    var edges: Edges
    var hackerCount: Figures
    var totalInByHack: Figures
    var hackerActiveCount: int
    var totalInSats: int
    var peaks: Peaks

    ghost function View(): Book
      reads this
    {
      Book(addresses, edges, hackerCount, totalInByHack, hackerActiveCount, totalInSats, peaks)
    }

    constructor (batchSize: nat)
      requires batchSize > 0
      ensures this.batchSize == batchSize && addresses == map[] && edges == map[]
      ensures HackStatsExact(View()) && ActiveExact(View()) && Covered(View()) && TotalsExact(View())
      ensures InboundExact(View()) && GrandTotalExact(View()) && PeaksExact(edges, peaks)
    {
      this.batchSize := batchSize;
      addresses, edges, hackerCount, totalInByHack, peaks := map[], map[], map[], map[], map[];
      hackerActiveCount, totalInSats := 0, 0;
    }

    // ---- counters -------------------------------------------------------------------------

    method AdjustHackerActive(delta: int)
      modifies this`hackerActiveCount
      ensures hackerActiveCount == Clamped(old(hackerActiveCount), delta)
    {
      if delta != 0 {
        hackerActiveCount := Max(0, hackerActiveCount + delta);
      }
    }

    method AdjustHackerCount(hackId: string, delta: int)
      modifies this`hackerCount
      ensures hackerCount == Adjusted(old(hackerCount), hackId, delta)
    {
      if delta != 0 {
        hackerCount := hackerCount[hackId := Max(0, Figure(hackerCount, hackId) + delta)];
      }
    }

    method AdjustTotalIn(hackId: string, delta: int)
      modifies this`totalInByHack
      ensures totalInByHack == Adjusted(old(totalInByHack), hackId, delta)
    {
      if delta != 0 {
        totalInByHack := totalInByHack[hackId := Max(0, Figure(totalInByHack, hackId) + delta)];
      }
    }

    method ReconcileHackStatsForAddress(before: Option<Address>, after: Address)
      modifies this`hackerCount, this`totalInByHack
      ensures totalInByHack == SatsStep(old(totalInByHack), before, after)
      ensures var moved := HackChanged(before, after) && !FlagChanged(before, after);
              var f1 :=
                if moved && WasActive(before) then Adjusted(old(hackerCount), OldHack(before), -1)
                else old(hackerCount);
              hackerCount == if moved && IsActive(after) then Adjusted(f1, after.hackId, 1) else f1
    {
      var flagChanged, hackIdChanged := FlagChanged(before, after), HackChanged(before, after);
      if !flagChanged && !hackIdChanged { return; }
      if WasFlagged(before) {
        AdjustTotalIn(before.value.hackId, -before.value.total);
        if IsActive(before.value) && hackIdChanged && !flagChanged {
          AdjustHackerCount(before.value.hackId, -1);
        }
      }
      if after.flagged {
        AdjustTotalIn(after.hackId, after.total);
        if IsActive(after) && hackIdChanged && !flagChanged {
          AdjustHackerCount(after.hackId, 1);
        }
      }
    }

    method ApplyAddressStatsDelta(before: Option<Address>, after: Address)
      modifies this`hackerCount, this`totalInByHack, this`hackerActiveCount
      ensures View() == AccountFor(old(View()), before, after)
    {
      var wasActive, isActive := WasActive(before), IsActive(after);
      if wasActive != isActive {
        AdjustHackerActive(if isActive then 1 else -1);
        AdjustHackerCount(if isActive then after.hackId else before.value.hackId, if isActive then 1 else -1);
      }
      ReconcileHackStatsForAddress(before, after);
    }

    // ---- address methods ------------------------------------------------------------------

    method UpsertAddress(data: Upsert)
      modifies this`addresses, this`hackerCount, this`totalInByHack, this`hackerActiveCount
      ensures View() == Upserted(old(View()), data)
    {
      hide CountStep, SatsStep;
      var existing := Row(addresses, data.address);
      var after := Merged(existing, data);
      addresses := addresses[data.address := after];
      ApplyAddressStatsDelta(existing, after);
    }

    method InsertAddressIfMissing(data: Upsert) returns (inserted: bool)
      modifies this`addresses, this`hackerCount, this`totalInByHack, this`hackerActiveCount
      ensures inserted <==> data.address !in old(addresses)
      ensures View() == InsertedIfMissing(old(View()), data)
    {
      if data.address in addresses { return false; }
      UpsertAddress(data);
      return true;
    }

    method WriteAddresses(rows: seq<Upsert>)
      modifies this`addresses
      ensures addresses == PutAllMerged(old(addresses), rows)
    {
      for n := 0 to |rows|
        invariant addresses == PutAllMerged(old(addresses), rows[..n])
      {
        assert rows[..n + 1][..n] == rows[..n];
        addresses := PutMerged(addresses, rows[n]);
      }
      assert rows[..|rows|] == rows;
    }

    /** All rows are written first; then each address is accounted for once, last row first. */
    method UpsertAddressesBatch(rows: seq<Upsert>)
      modifies this`addresses, this`hackerCount, this`totalInByHack, this`hackerActiveCount
      ensures View() == UpsertedMany(old(View()), rows)
    {
      hide AccountFor, PutAllMerged;
      AllMergedKeys(addresses, rows);
      var beforeByAddress := addresses;
      WriteAddresses(rows);
      assert forall j :: 0 <= j < |rows| ==> rows[j].address in Addressed(rows);
      ghost var written := View();
      var seen: set<string> := {};
      var i := |rows|;
      while i > 0
        invariant 0 <= i <= |rows| && addresses == written.addresses
        invariant forall j :: 0 <= j < |rows| ==> rows[j].address in addresses
        invariant AccountForRows(View(), beforeByAddress, rows, i, seen)
                  == AccountForRows(written, beforeByAddress, rows, |rows|, {})
      {
        i := i - 1;
        var address := rows[i].address;
        if address !in seen {
          ApplyAddressStatsDelta(Row(beforeByAddress, address), addresses[address]);
          seen := seen + {address};
        }
      }
    }

    // ---- totals ---------------------------------------------------------------------------

    method ApplyTotalReceivedDelta(a: string, delta: int)
      modifies this`addresses, this`hackerCount, this`totalInByHack, this`hackerActiveCount
      ensures View() == TotalMoved(old(View()), a, delta)
    {
      if delta == 0 { return; }
      var before := Row(addresses, a);
      var wasActive := WasActive(before);
      if a in addresses {
        addresses := addresses[a := addresses[a].(total := addresses[a].total + delta)];
      }
      var afterTotal := OldTotal(before) + delta;
      var isActive := before.Some? && HackerActive(before.value.flagged, afterTotal);
      if wasActive != isActive {
        AdjustHackerActive(if isActive then 1 else -1);
        if WasFlagged(before) {
          AdjustHackerCount(before.value.hackId, if isActive then 1 else -1);
        }
      }
      if WasFlagged(before) {
        AdjustTotalIn(before.value.hackId, delta);
      }
    }

    method SumQuery(m: EdgeSum) returns (total: int)
      ensures total == SumEdges(edges, m)
    {
      hide SumEdges, EdgeWeight;
      var rest := edges.Keys;
      total := 0;
      assert edges - rest == map[];
      SumZero(edges - rest, m);
      while rest != {}
        invariant rest <= edges.Keys
        invariant total == SumEdges(edges - rest, m)
      {
        var k :| k in rest;
        assert edges - (rest - {k}) == (edges - rest)[k := edges[k]];
        SumPut(edges - rest, k, edges[k], m);
        total := total + EdgeWeight(m, k, edges[k]);
        rest := rest - {k};
      }
      assert edges - rest == edges;
    }

    /** Repairs one total. It does not touch the count of active hackers. */
    method RecalcTotalReceived(a: string)
      modifies this`addresses, this`hackerCount, this`totalInByHack
      ensures View() == Recalculated(old(View()), a)
    {
      hide SumEdges;
      var before := Row(addresses, a);
      var nextTotal := SumQuery(InTo(a));
      if a in addresses {
        addresses := addresses[a := addresses[a].(total := nextTotal)];
      }
      if WasFlagged(before) {
        var delta := nextTotal - before.value.total;
        if delta != 0 {
          AdjustTotalIn(before.value.hackId, delta);
        }
        var wasActive, isActive := IsActive(before.value), HackerActive(before.value.flagged, nextTotal);
        if wasActive != isActive {
          AdjustHackerCount(before.value.hackId, if isActive then 1 else -1);
        }
      }
    }

    // ---- inbound sums ---------------------------------------------------------------------

    method ApplyInboundSatsDelta(a: string, delta: int)
      modifies this`addresses
      ensures View() == old(View()).(addresses := InboundMoved(old(addresses), a, delta))
    {
      if delta == 0 { return; }
      if a in addresses {
        addresses := addresses[a := addresses[a].(inbound := addresses[a].inbound + delta)];
      }
    }

    method RecalcInboundSats(a: string)
      modifies this`addresses
      ensures View() == InboundRecalculated(old(View()), a)
    {
      var total := SumQuery(OutTo(a));
      if a in addresses {
        addresses := addresses[a := addresses[a].(inbound := total)];
      }
    }

    // ---- edge batches ---------------------------------------------------------------------

    method WriteRows(rows: seq<EdgeRow>)
      modifies this`edges
      ensures edges == WriteAll(old(edges), rows)
    {
      for n := 0 to |rows|
        invariant edges == WriteAll(old(edges), rows[..n])
      {
        assert rows[..n + 1][..n] == rows[..n];
        edges := edges[rows[n].key := rows[n].edge];
      }
      assert rows[..|rows|] == rows;
    }

    method ApplyTotalDeltas(deltas: Deltas)
      modifies this`addresses, this`hackerCount, this`totalInByHack, this`hackerActiveCount
      ensures View() == TotalsMoved(old(View()), deltas)
    {
      hide TotalMoved;
      for n := 0 to |deltas|
        invariant View() == TotalsMoved(old(View()), deltas[..n])
        invariant edges == old(edges) && totalInSats == old(totalInSats) && peaks == old(peaks)
      {
        assert deltas[..n + 1][..n] == deltas[..n];
        ApplyTotalReceivedDelta(deltas[n].0, deltas[n].1);
      }
      assert deltas[..|deltas|] == deltas;
    }

    method ApplyInboundDeltas(deltas: Deltas)
      modifies this`addresses
      ensures View() == old(View()).(addresses := InboundsMoved(old(addresses), deltas))
    {
      hide InboundMoved;
      for n := 0 to |deltas|
        invariant addresses == InboundsMoved(old(addresses), deltas[..n])
      {
        assert deltas[..n + 1][..n] == deltas[..n];
        ApplyInboundSatsDelta(deltas[n].0, deltas[n].1);
      }
      assert deltas[..|deltas|] == deltas;
    }

    /** SELECT MAX(amount_sats), or 0 when the pair has no edge. */
    method MaxQuery(pair: Pair) returns (m: int)
      ensures m == Largest(edges, pair)
    {
      var rest := edges.Keys;
      var found := false;
      m := 0;
      while rest != {}
        invariant rest <= edges.Keys
        invariant found ==> exists k :: PairEdge(edges, pair, k) && edges[k].amount == m
        invariant forall k :: PairEdge(edges, pair, k) && k !in rest ==> found && edges[k].amount <= m
        invariant !found ==> m == 0
      {
        var k :| k in rest;
        if PairEdge(edges, pair, k) && (!found || edges[k].amount > m) {
          found, m := true, edges[k].amount;
        }
        rest := rest - {k};
      }
      if found {
        assert IsMax(edges, pair, m);
        OneMax(edges, pair, m, Largest(edges, pair));
      }
    }

    method ApplyHackerVictimPeakDelta(pair: Pair, newAmount: int, oldAmount: int)
      modifies this`peaks
      ensures peaks == PeakMoved(edges, old(peaks), pair, newAmount, oldAmount)
    {
      hide Largest;
      if newAmount <= 0 && oldAmount <= 0 { return; }
      if newAmount >= oldAmount {
        peaks := peaks[pair := if pair in peaks then Max(peaks[pair], newAmount) else newAmount];
        return;
      }
      if pair !in peaks || oldAmount < peaks[pair] { return; }
      var recomputed := MaxQuery(pair);
      if recomputed <= 0 {
        peaks := peaks - {pair};
        return;
      }
      peaks := peaks[pair := recomputed];
    }

    method ApplyPeaks(rows: seq<EdgeRow>, seen: Edges)
      modifies this`peaks
      ensures peaks == PeaksMoved(edges, old(peaks), rows, seen)
    {
      hide PeakMoved;
      for n := 0 to |rows|
        invariant peaks == PeaksMoved(edges, old(peaks), rows[..n], seen)
      {
        assert rows[..n + 1][..n] == rows[..n];
        if IsIn(rows[n]) {
          ApplyHackerVictimPeakDelta(PairOf(rows[n]), rows[n].edge.amount, OldAmount(seen, rows[n].key));
        }
      }
      assert rows[..|rows|] == rows;
    }

    method UpsertChunk(rows: seq<EdgeRow>) returns (totalIn: int)
      modifies this`edges, this`addresses, this`hackerCount, this`totalInByHack, this`hackerActiveCount, this`peaks
      ensures View() == ChunkUpserted(old(View()), rows)
      ensures totalIn == InTotal(rows, OldEdges(old(edges), rows))
    {
      hide WriteAll, OldEdges, TotalsMoved, InboundsMoved, PeaksMoved;
      var seen := OldEdges(edges, rows);
      WriteRows(rows);
      var byHacker, byInbound;
      totalIn, byHacker, byInbound := ChunkDeltas(rows, seen);
      ApplyTotalDeltas(byHacker);
      ApplyInboundDeltas(byInbound);
      ApplyPeaks(rows, seen);
    }

    /** Chunk by chunk; the grand total moves once, at the end. */
    method UpsertEdgesBatch(rows: seq<EdgeRow>)
      requires batchSize > 0
      modifies this
      ensures View() == EdgesUpserted(old(View()), rows, batchSize)
    {
      hide ChunkUpserted, WriteAll, OldEdges, InTotal;
      var totalInDelta, i := 0, 0;
      assert rows[0..] == rows;
      while i < |rows|
        invariant 0 <= i <= |rows| && totalInSats == old(totalInSats)
        invariant ChunksUpserted(View(), rows[i..], batchSize) == ChunksUpserted(old(View()), rows, batchSize)
        invariant totalInDelta + InTotals(edges, rows[i..], batchSize) == InTotals(old(edges), rows, batchSize)
      {
        var n := Chunk(rows[i..], batchSize);
        assert rows[i..][n..] == rows[i + n..];
        ghost var before := View();
        var delta := UpsertChunk(rows[i..][..n]);
        ChunkEdges(before, rows[i..][..n]);
        totalInDelta := totalInDelta + delta;
        i := i + n;
      }
      ChunksTotalIn(old(View()), rows, batchSize);
      totalInSats := Max(0, totalInSats + totalInDelta);
    }

    // ---- deletions ------------------------------------------------------------------------

    method RecalcInboundSatsFor(targets: set<string>)
      modifies this`addresses
      ensures addresses == InboundsRecalculated(old(addresses), edges, targets)
    {
      hide SumEdges;
      var rest := targets;
      while rest != {}
        invariant rest <= targets && addresses == InboundsRecalculated(old(addresses), edges, targets - rest)
      {
        var a :| a in rest;
        RecalcInboundSats(a);
        rest := rest - {a};
      }
      assert targets - rest == targets;
    }

    method DeleteEdgesTouchingAddress(address: string) returns (deleted: nat)
      modifies this`edges, this`addresses
      ensures View() == EdgesDeleted(old(View()), address)
      ensures deleted == |old(edges)| - |edges|
      ensures forall k :: k in edges <==> k in old(edges) && k.from != address && k.to != address
      ensures forall k :: k in edges ==> edges[k] == old(edges)[k]
    {
      hide InboundsRecalculated;
      var inboundTargets := Losers(edges, address);
      var gone := set k | k in edges && Touches(k, address);
      KeysRemoved(edges, gone);
      assert edges - gone == Untouched(edges, address);
      deleted := |gone|;
      edges := Untouched(edges, address);
      RecalcInboundSatsFor(inboundTargets);
    }

    method DeleteHackTraceEdges()
      modifies this`edges, this`addresses
      ensures View() == TraceDeleted(old(View()))
      ensures forall k :: k in edges <==> k in old(edges) && old(edges)[k].direction == OtherDirection
      ensures forall k :: k in edges ==> edges[k] == old(edges)[k]
    {
      edges := Untracked(edges);
      addresses := map a | a in addresses :: addresses[a].(inbound := 0);
    }
  }

  lemma OneMax(edges: Edges, pair: Pair, m: int, n: int)
    requires IsMax(edges, pair, m) && IsMax(edges, pair, n)
    ensures m == n
  {
  }

  lemma KeysRemoved(edges: Edges, gone: set<EdgeKey>)
    requires gone <= edges.Keys
    ensures |gone| == |edges| - |edges - gone|
  {
    assert edges.Keys == gone + (edges - gone).Keys && gone !! (edges - gone).Keys;
    assert |edges.Keys| == |gone| + |(edges - gone).Keys|;
  }

  lemma {:induction false} TotalsMovedEdges(b: Book, d: Deltas)
    ensures TotalsMoved(b, d).edges == b.edges && TotalsMoved(b, d).totalIn == b.totalIn
  {
    if d != [] {
      TotalsMovedEdges(b, d[..|d| - 1]);
    }
  }

  lemma ChunkEdges(b: Book, rows: seq<EdgeRow>)
    ensures ChunkUpserted(b, rows).edges == WriteAll(b.edges, rows) && ChunkUpserted(b, rows).totalIn == b.totalIn
  {
    TotalsMovedEdges(b.(edges := WriteAll(b.edges, rows)), Collected(rows, OldEdges(b.edges, rows), InToHacker));
  }

  lemma {:induction false} ChunksTotalIn(b: Book, rows: seq<EdgeRow>, size: nat)
    requires size > 0
    ensures ChunksUpserted(b, rows, size).totalIn == b.totalIn
    decreases |rows|
  {
    hide ChunkUpserted;
    if rows != [] {
      var n := Chunk(rows, size);
      ChunkEdges(b, rows[..n]);
      ChunksTotalIn(ChunkUpserted(b, rows[..n]), rows[n..], size);
    }
  }

  method ChunkDeltas(rows: seq<EdgeRow>, seen: Edges) returns (totalIn: int, byHacker: Deltas, byInbound: Deltas)
    ensures totalIn == InTotal(rows, seen)
    ensures byHacker == Collected(rows, seen, InToHacker)
    ensures byInbound == Collected(rows, seen, OutFromHacker)
  {
    totalIn, byHacker, byInbound := 0, [], [];
    for n := 0 to |rows|
      invariant totalIn == InTotal(rows[..n], seen)
      invariant byHacker == Collected(rows[..n], seen, InToHacker)
      invariant byInbound == Collected(rows[..n], seen, OutFromHacker)
    {
      assert rows[..n + 1][..n] == rows[..n];
      var row := rows[n];
      var delta := row.edge.amount - OldAmount(seen, row.key);
      if row.edge.direction.InToHacker? {
        totalIn := totalIn + delta;
        if delta != 0 {
          byHacker := Bump(byHacker, row.key.to, delta);
        }
      } else if row.edge.direction.OutFromHacker? {
        if delta != 0 {
          byInbound := Bump(byInbound, row.key.to, delta);
        }
      }
    }
    assert rows[..|rows|] == rows;
  }
}
