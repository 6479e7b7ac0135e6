/**
 * The address and edge tables of the store (store.ts) and the recounts its cached figures
 * must agree with.
 */
module LedgerTable {
  import opened Wrappers
  import opened TableSums

  // ---- edges ------------------------------------------------------------------------------

  datatype Direction = InToHacker | OutFromHacker | OtherDirection

  /** The unique index of the edge table. */
  datatype EdgeKey = EdgeKey(from: string, to: string, txid: string)

  datatype Edge = Edge(amount: int, direction: Direction)

  type Edges = map<EdgeKey, Edge>

  datatype EdgeRow = EdgeRow(key: EdgeKey, edge: Edge)

  datatype EdgeSum = AllIn | InTo(address: string) | OutTo(address: string)

  predicate CountsFor(m: EdgeSum, k: EdgeKey, direction: Direction) {
    match m
    case AllIn => direction.InToHacker?
    case InTo(a) => direction.InToHacker? && k.to == a
    case OutTo(a) => direction.OutFromHacker? && k.to == a
  }

  function EdgeWeight(m: EdgeSum, k: EdgeKey, e: Edge): int {
    if CountsFor(m, k, e.direction) then e.amount else 0
  }

  function EdgeWeights(edges: Edges, m: EdgeSum): map<EdgeKey, int> {
    map k | k in edges :: EdgeWeight(m, k, edges[k])
  }

  /** SELECT coalesce(sum(amount_sats), 0). */
  ghost function SumEdges(edges: Edges, m: EdgeSum): int {
    Total(EdgeWeights(edges, m))
  }

  function OldWeight(edges: Edges, m: EdgeSum, k: EdgeKey): int {
    if k in edges then EdgeWeight(m, k, edges[k]) else 0
  }

  lemma SumPut(edges: Edges, k: EdgeKey, e: Edge, m: EdgeSum)
    ensures SumEdges(edges[k := e], m) == SumEdges(edges, m) + EdgeWeight(m, k, e) - OldWeight(edges, m, k)
  {
    hide EdgeWeight, Total;
    TotalPut(EdgeWeights(edges, m), k, EdgeWeight(m, k, e));
    assert EdgeWeights(edges[k := e], m) == EdgeWeights(edges, m)[k := EdgeWeight(m, k, e)];
  }

  predicate Positive(edges: Edges) {
    forall k :: k in edges && !edges[k].direction.OtherDirection? ==> edges[k].amount > 0
  }

  lemma SumNonnegative(edges: Edges, m: EdgeSum)
    requires Positive(edges)
    ensures SumEdges(edges, m) >= 0
  {
    TotalNonnegative(EdgeWeights(edges, m));
  }

  lemma SumZero(edges: Edges, m: EdgeSum)
    requires forall k :: k in edges ==> EdgeWeight(m, k, edges[k]) == 0
    ensures SumEdges(edges, m) == 0
  {
    TotalZero(EdgeWeights(edges, m));
  }

  lemma SumRemove(edges: Edges, k: EdgeKey, m: EdgeSum)
    requires k in edges
    ensures SumEdges(edges, m) == SumEdges(edges - {k}, m) + EdgeWeight(m, k, edges[k])
  {
    hide EdgeWeight, Total;
    TotalRemove(EdgeWeights(edges, m), k);
    assert EdgeWeights(edges - {k}, m) == EdgeWeights(edges, m) - {k};
  }

  /** Deleting edges that weigh nothing leaves a sum alone, and of positive amounts makes none larger. */
  lemma SumKept(edges: Edges, gone: set<EdgeKey>, m: EdgeSum)
    requires gone <= edges.Keys
    ensures Positive(edges) ==> SumEdges(edges - gone, m) <= SumEdges(edges, m)
    ensures (forall k :: k in gone ==> EdgeWeight(m, k, edges[k]) == 0) ==>
              SumEdges(edges - gone, m) == SumEdges(edges, m)
    decreases |gone|
  {
    hide SumEdges;
    if k :| k in gone {
      SumRemove(edges, k, m);
      SumKept(edges - {k}, gone - {k}, m);
      assert edges - {k} - (gone - {k}) == edges - gone;
    } else {
      assert edges - gone == edges;
    }
  }

  // ---- addresses --------------------------------------------------------------------------

  datatype Address = Address(hackId: string, flagged: bool, total: int, inbound: int)

  type Addresses = map<string, Address>

  predicate HackerActive(flagged: bool, total: int) {
    flagged && total > 0
  }

  predicate IsActive(row: Address) {
    HackerActive(row.flagged, row.total)
  }

  datatype AddressSum = Hackers(hackId: string) | Sats(hackId: string) | ActiveHackers

  function AddressWeight(m: AddressSum, row: Address): int {
    match m
    case Hackers(h) => if IsActive(row) && row.hackId == h then 1 else 0
    case Sats(h) => if row.flagged && row.hackId == h then row.total else 0
    case ActiveHackers => if IsActive(row) then 1 else 0
  }

  function AddressWeights(addresses: Addresses, m: AddressSum): map<string, int> {
    map a | a in addresses :: AddressWeight(m, addresses[a])
  }

  /** The recounts of reconcileHackStats and reconcileStatsCounters. */
  ghost function SumAddresses(addresses: Addresses, m: AddressSum): int {
    Total(AddressWeights(addresses, m))
  }

  function RowWeight(row: Option<Address>, m: AddressSum): int {
    if row.Some? then AddressWeight(m, row.value) else 0
  }

  function Row(addresses: Addresses, a: string): Option<Address> {
    if a in addresses then Some(addresses[a]) else None
  }

  lemma AddressPut(addresses: Addresses, a: string, row: Address, m: AddressSum)
    ensures SumAddresses(addresses[a := row], m)
            == SumAddresses(addresses, m) + AddressWeight(m, row) - RowWeight(Row(addresses, a), m)
  {
    hide AddressWeight, Total;
    TotalPut(AddressWeights(addresses, m), a, AddressWeight(m, row));
    assert AddressWeights(addresses[a := row], m) == AddressWeights(addresses, m)[a := AddressWeight(m, row)];
  }

  predicate NoDebt(addresses: Addresses) {
    forall a :: a in addresses ==> addresses[a].total >= 0
  }

  lemma AddressShare(addresses: Addresses, m: AddressSum)
    requires NoDebt(addresses) || !m.Sats?
    ensures SumAddresses(addresses, m) >= 0
    ensures forall a :: a in addresses ==> AddressWeight(m, addresses[a]) <= SumAddresses(addresses, m)
  {
    TotalNonnegative(AddressWeights(addresses, m));
    forall a | a in addresses ensures AddressWeight(m, addresses[a]) <= SumAddresses(addresses, m) {
      assert AddressWeights(addresses, m)[a] == AddressWeight(m, addresses[a]);
    }
  }

  // ---- address writes ---------------------------------------------------------------------

  datatype Upsert = Upsert(address: string, hackId: Option<string>, flagged: Option<bool>, total: Option<int>)

  function Or<T>(o: Option<T>, d: T): T {
    if o.Some? then o.value else d
  }

  /** The row an upsert writes: the given fields win over the old row, the defaults over nothing. */
  function Merged(existing: Option<Address>, data: Upsert): Address {
    if existing.None? then Address(Or(data.hackId, "coldcard"), Or(data.flagged, false), Or(data.total, 0), 0)
    else
      var row := existing.value;
      row.(hackId := Or(data.hackId, row.hackId), flagged := Or(data.flagged, row.flagged),
           total := Or(data.total, row.total))
  }

  function PutMerged(addresses: Addresses, data: Upsert): Addresses {
    addresses[data.address := Merged(Row(addresses, data.address), data)]
  }

  function PutAllMerged(addresses: Addresses, rows: seq<Upsert>): Addresses {
    if rows == [] then addresses
    else PutMerged(PutAllMerged(addresses, rows[..|rows| - 1]), rows[|rows| - 1])
  }

  // ---- hack statistics --------------------------------------------------------------------

  type Figures = map<string, int>

  function Figure(f: Figures, h: string): int {
    if h in f then f[h] else 0
  }

  /** adjustHackStatsCounter: MAX(0, figure + delta). */
  function Adjusted(f: Figures, h: string, delta: int): Figures {
    if delta == 0 then f else f[h := Max(0, Figure(f, h) + delta)]
  }

  ghost predicate StatsExact(addresses: Addresses, hackerCount: Figures, totalIn: Figures) {
    forall h :: Figure(hackerCount, h) == SumAddresses(addresses, Hackers(h))
                && Figure(totalIn, h) == SumAddresses(addresses, Sats(h))
  }

  /**
   * When the incremental update misses the change of a row: the row stays flagged, and its
   * total is overwritten under the same hack id, or it moves between hack ids while becoming
   * active, or while becoming inactive beside other active hackers of the old id.
   */
  ghost predicate Misses(addresses: Addresses, before: Option<Address>, after: Address) {
    && before.Some? && before.value.flagged && after.flagged
    && if before.value.hackId == after.hackId then before.value.total != after.total
       else
         || (!IsActive(before.value) && IsActive(after))
         || (IsActive(before.value) && !IsActive(after)
             && SumAddresses(addresses, Hackers(before.value.hackId)) > 1)
  }

  ghost predicate Nonnegative(f: Figures) {
    forall h :: Figure(f, h) >= 0
  }

  lemma NonnegativeAdjusted(f: Figures, h: string, delta: int)
    requires Nonnegative(f)
    ensures Nonnegative(Adjusted(f, h, delta))
  {
    forall g ensures Figure(Adjusted(f, h, delta), g) >= 0 {
      assert Figure(f, g) >= 0;
    }
  }
}
