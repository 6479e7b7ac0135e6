/**
 * What the address and edge methods leave in the tables, field by field and edge by edge, and
 * which rows each recount counts.
 */
module LedgerLaws {
  import opened Wrappers
  import opened TableSums
  import opened LedgerTable
  import opened EdgeBatch
  import opened LedgerBook

  // ---- recounts as queries ----------------------------------------------------------------

  /** SUM with a WHERE clause: rows that weigh nothing may be left out. */
  lemma {:induction false} TotalWhere<K>(all: map<K, int>, some: map<K, int>)
    requires some.Keys <= all.Keys
    requires forall k :: k in all ==> if k in some then all[k] == some[k] else all[k] == 0
    ensures Total(all) == Total(some)
    decreases |all|
  {
    hide Total;
    if k :| k in all && k !in some {
      TotalRemove(all, k);
      TotalWhere(all - {k}, some);
    } else {
      assert all == some;
    }
  }

  lemma {:induction false} TotalOnes<K>(weights: map<K, int>)
    requires forall k :: k in weights ==> weights[k] == 1
    ensures Total(weights) == |weights|
    decreases |weights|
  {
    hide Total;
    if k :| k in weights {
      TotalRemove(weights, k);
      Smaller(weights, k);
      TotalOnes(weights - {k});
    } else {
      TotalZero(weights);
    }
  }

  /** The edges of a direction add up: all, those to an address, and the outgoing ones to an address. */
  lemma EdgeSums(edges: Edges, a: string)
    ensures SumEdges(edges, AllIn)
            == Total(map k | k in edges && edges[k].direction == InToHacker :: edges[k].amount)
    ensures SumEdges(edges, InTo(a))
            == Total(map k | k in edges && edges[k].direction == InToHacker && k.to == a :: edges[k].amount)
    ensures SumEdges(edges, OutTo(a))
            == Total(map k | k in edges && edges[k].direction == OutFromHacker && k.to == a :: edges[k].amount)
  {
    TotalWhere(EdgeWeights(edges, AllIn), map k | k in edges && edges[k].direction == InToHacker :: edges[k].amount);
    TotalWhere(EdgeWeights(edges, InTo(a)),
               map k | k in edges && edges[k].direction == InToHacker && k.to == a :: edges[k].amount);
    TotalWhere(EdgeWeights(edges, OutTo(a)),
               map k | k in edges && edges[k].direction == OutFromHacker && k.to == a :: edges[k].amount);
    hide Total;
  }

  /** Flagged addresses with a positive total are counted, all or by hack; flagged totals add up by hack. */
  lemma AddressSums(addresses: Addresses, h: string)
    ensures SumAddresses(addresses, ActiveHackers)
            == |map a | a in addresses && addresses[a].flagged && addresses[a].total > 0 :: 1|
    ensures SumAddresses(addresses, Hackers(h))
            == |map a | a in addresses && addresses[a].flagged && addresses[a].total > 0
                        && addresses[a].hackId == h :: 1|
    ensures SumAddresses(addresses, Sats(h))
            == Total(map a | a in addresses && addresses[a].flagged && addresses[a].hackId == h :: addresses[a].total)
  {
    var active := map a | a in addresses && addresses[a].flagged && addresses[a].total > 0 :: 1;
    var ofHack := map a | a in addresses && addresses[a].flagged && addresses[a].total > 0
                          && addresses[a].hackId == h :: 1;
    TotalWhere(AddressWeights(addresses, ActiveHackers), active);
    TotalWhere(AddressWeights(addresses, Hackers(h)), ofHack);
    TotalWhere(AddressWeights(addresses, Sats(h)),
               map a | a in addresses && addresses[a].flagged && addresses[a].hackId == h :: addresses[a].total);
    TotalOnes(active);
    TotalOnes(ofHack);
    hide Total;
  }

  // ---- upserts ----------------------------------------------------------------------------

  /** A field that is given is written, one that is not is kept, or gets its default in a new row. */
  lemma UpsertFields(b: Book, data: Upsert)
    ensures var before, after, a := b.addresses, Upserted(b, data).addresses, data.address;
            && after.Keys == before.Keys + {a}
            && (forall x :: x in before && x != a ==> after[x] == before[x])
            && (data.hackId.Some? ==> after[a].hackId == data.hackId.value)
            && (data.flagged.Some? ==> after[a].flagged == data.flagged.value)
            && (data.total.Some? ==> after[a].total == data.total.value)
            && (data.hackId.None? ==> after[a].hackId == if a in before then before[a].hackId else "coldcard")
            && (data.flagged.None? ==> after[a].flagged == (a in before && before[a].flagged))
            && (data.total.None? ==> after[a].total == if a in before then before[a].total else 0)
            && after[a].inbound == if a in before then before[a].inbound else 0
  {
    var after := Upserted(b, data).addresses;
    assert after == PutMerged(b.addresses, data);
  }

  /** The last of the given values; the one before them when none is given. */
  function LastGiven<T>(given: seq<Option<T>>, before: T): T {
    if given == [] then before
    else if given[|given| - 1].Some? then given[|given| - 1].value
    else LastGiven(given[..|given| - 1], before)
  }

  function HackIds(rows: seq<Upsert>, a: string): seq<Option<string>> {
    seq(|rows|, i requires 0 <= i < |rows| => if rows[i].address == a then rows[i].hackId else None)
  }

  function Flags(rows: seq<Upsert>, a: string): seq<Option<bool>> {
    seq(|rows|, i requires 0 <= i < |rows| => if rows[i].address == a then rows[i].flagged else None)
  }

  function Totals(rows: seq<Upsert>, a: string): seq<Option<int>> {
    seq(|rows|, i requires 0 <= i < |rows| => if rows[i].address == a then rows[i].total else None)
  }

  lemma LastGivenNext<T>(given: seq<Option<T>>, front: seq<Option<T>>, last: Option<T>, before: T)
    requires given == front + [last]
    ensures LastGiven(given, before) == if last.Some? then last.value else LastGiven(front, before)
  {
    assert given[..|given| - 1] == front;
  }

  lemma FieldsNext(rows: seq<Upsert>, a: string, was: Address)
    requires rows != []
    ensures var front, last := rows[..|rows| - 1], rows[|rows| - 1];
            var here := last.address == a;
            && LastGiven(HackIds(rows, a), was.hackId)
               == (if here && last.hackId.Some? then last.hackId.value else LastGiven(HackIds(front, a), was.hackId))
            && LastGiven(Flags(rows, a), was.flagged)
               == (if here && last.flagged.Some? then last.flagged.value else LastGiven(Flags(front, a), was.flagged))
            && LastGiven(Totals(rows, a), was.total)
               == (if here && last.total.Some? then last.total.value else LastGiven(Totals(front, a), was.total))
  {
    hide LastGiven;
    var front, last := rows[..|rows| - 1], rows[|rows| - 1];
    var here := last.address == a;
    LastGivenNext(HackIds(rows, a), HackIds(front, a), if here then last.hackId else None, was.hackId);
    LastGivenNext(Flags(rows, a), Flags(front, a), if here then last.flagged else None, was.flagged);
    LastGivenNext(Totals(rows, a), Totals(front, a), if here then last.total else None, was.total);
  }

  /** In a batch, each field of an address is the last one given for it; nothing else changes. */
  lemma {:induction false} BatchFields(before: Addresses, rows: seq<Upsert>, a: string)
    ensures var after := PutAllMerged(before, rows);
            var was := if a in before then before[a] else Address("coldcard", false, 0, 0);
            var now := if a in after then after[a] else was;
            && (a in after <==> a in before || exists i :: 0 <= i < |rows| && rows[i].address == a)
            && now.hackId == LastGiven(HackIds(rows, a), was.hackId)
            && now.flagged == LastGiven(Flags(rows, a), was.flagged)
            && now.total == LastGiven(Totals(rows, a), was.total)
            && now.inbound == was.inbound
  {
    hide LastGiven, HackIds, Flags, Totals;
    var was := if a in before then before[a] else Address("coldcard", false, 0, 0);
    if rows == [] {
      NothingGiven(a, was);
    } else {
      var n := |rows| - 1;
      BatchFields(before, rows[..n], a);
      FieldsNext(rows, a, was);
      assert forall i :: 0 <= i < n ==> rows[..n][i] == rows[i];
    }
  }

  lemma NothingGiven(a: string, was: Address)
    ensures LastGiven(HackIds([], a), was.hackId) == was.hackId
    ensures LastGiven(Flags([], a), was.flagged) == was.flagged
    ensures LastGiven(Totals([], a), was.total) == was.total
  {
  }

  // ---- edge batches -----------------------------------------------------------------------

  /** Before the write, an edge is read if a tracked row has its transaction, and one has its direction. */
  lemma ReadBefore(edges: Edges, rows: seq<EdgeRow>, k: EdgeKey)
    ensures k in OldEdges(edges, rows) <==>
            && k in edges
            && (exists i :: 0 <= i < |rows| && rows[i].edge.direction != OtherDirection && rows[i].key.txid == k.txid)
            && exists i :: 0 <= i < |rows| && rows[i].edge.direction != OtherDirection
                           && rows[i].edge.direction == edges[k].direction
    ensures k in OldEdges(edges, rows) ==> OldEdges(edges, rows)[k] == edges[k]
  {
    var tracked := Tracked(rows);
    forall i | 0 <= i < |rows| && rows[i].edge.direction != OtherDirection ensures rows[i] in tracked {
    }
    if k in OldEdges(edges, rows) {
      var row :| row in tracked && row.key.txid == k.txid;
      var i :| 0 <= i < |rows| && rows[i] == row;
      var row' :| row' in tracked && row'.edge.direction == edges[k].direction;
      var i' :| 0 <= i' < |rows| && rows[i'] == row';
    }
  }

  /**
   * One change of an amount moves the peak of its pair alone: amounts of zero or less do nothing, a
   * rise lifts the peak to the new amount at least, and the loss of an amount that reaches the peak
   * looks up the largest edge, of which a positive one becomes the peak and any other ends it.
   */
  lemma PeakEffect(edges: Edges, peaks: Peaks, pair: Pair, now: int, was: int, other: Pair)
    requires other != pair
    ensures var after := PeakMoved(edges, peaks, pair, now, was);
            && (other in after <==> other in peaks) && (other in peaks ==> after[other] == peaks[other])
            && (now <= 0 && was <= 0 ==> after == peaks)
            && (now > 0 && now >= was ==>
                  pair in after && after[pair] >= now && (pair in peaks ==> after[pair] >= peaks[pair])
                  && (after[pair] == now || (pair in peaks && after[pair] == peaks[pair])))
            && (was > 0 && now < was && (pair !in peaks || peaks[pair] > was) ==> after == peaks)
            && (was > 0 && now < was && pair in peaks && peaks[pair] <= was ==>
                  && (pair in after ==> after[pair] > 0 && IsMax(edges, pair, after[pair]))
                  && (pair !in after ==> forall k :: PairEdge(edges, pair, k) ==> edges[k].amount <= 0))
  {
    assert forall k :: PairEdge(edges, pair, k) ==> AnyEdge(edges, pair);
  }

  // ---- deletions --------------------------------------------------------------------------

  /** Only the inbound sums of the given addresses are new. */
  ghost predicate OnlyInbound(b: Book, b': Book, a: string, recounted: bool) {
    && b'.addresses.Keys == b.addresses.Keys
    && b'.hackerCount == b.hackerCount && b'.totalInByHack == b.totalInByHack && b'.hackerActive == b.hackerActive
    && b'.totalIn == b.totalIn && b'.peaks == b.peaks
    && (a in b.addresses ==>
          var was, now := b.addresses[a], b'.addresses[a];
          && now.hackId == was.hackId && now.flagged == was.flagged && now.total == was.total
          && now.inbound == if recounted then SumEdges(b'.edges, OutTo(a)) else was.inbound)
  }

  /** An outgoing edge to the address goes with the deleted one. */
  ghost predicate LosesEdge(edges: Edges, deleted: string, a: string) {
    exists k :: k in edges && edges[k].direction == OutFromHacker && k.to == a && (k.from == deleted || k.to == deleted)
  }

  /** The edges from or to the address go, and no other; the targets that lose one are recounted. */
  lemma DeleteTouchingExact(b: Book, address: string, k: EdgeKey, a: string)
    ensures var b' := EdgesDeleted(b, address);
            && (k in b'.edges <==> k in b.edges && k.from != address && k.to != address)
            && (k in b'.edges ==> b'.edges[k] == b.edges[k])
            && OnlyInbound(b, b', a, LosesEdge(b.edges, address, a))
  {
    hide SumEdges;
    assert a in Losers(b.edges, address) <==> LosesEdge(b.edges, address, a);
  }

  /** The tracked edges go, and no other; every inbound sum becomes that of no edges. */
  lemma DeleteTraceExact(b: Book, k: EdgeKey, a: string)
    ensures var b' := TraceDeleted(b);
            && (k in b'.edges <==> k in b.edges && b.edges[k].direction == OtherDirection)
            && (k in b'.edges ==> b'.edges[k] == b.edges[k])
            && OnlyInbound(b, b', a, true)
            && (a in b'.addresses ==> b'.addresses[a].inbound == 0)
  {
    hide SumEdges;
    SumZero(TraceDeleted(b).edges, OutTo(a));
  }
}
