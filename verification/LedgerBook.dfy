/**
 * What the store's address and edge methods (store.ts) do to the tables and to the figures kept
 * beside them, as functions of the state before. The class in Ledger performs these steps.
 */
module LedgerBook {
  import opened Wrappers
  import opened LedgerTable
  import opened HackStats
  import opened EdgeBatch

  datatype Book = Book(addresses: Addresses, edges: Edges, hackerCount: Figures, totalInByHack: Figures,
                       hackerActive: int, totalIn: int, peaks: Peaks)

  // ---- what the figures should be -----------------------------------------------------------

  ghost predicate HackStatsExact(b: Book) {
    StatsExact(b.addresses, b.hackerCount, b.totalInByHack)
  }

  ghost predicate ActiveExact(b: Book) {
    b.hackerActive == SumAddresses(b.addresses, ActiveHackers)
  }

  ghost predicate TotalsExact(b: Book) {
    forall a :: a in b.addresses ==> b.addresses[a].total == SumEdges(b.edges, InTo(a))
  }

  ghost predicate InboundExact(b: Book) {
    forall a :: a in b.addresses ==> b.addresses[a].inbound == SumEdges(b.edges, OutTo(a))
  }

  ghost predicate GrandTotalExact(b: Book) {
    b.totalIn == SumEdges(b.edges, AllIn)
  }

  /** No address has received less than its edges say. */
  ghost predicate Covered(b: Book) {
    Positive(b.edges) && forall a :: a in b.addresses ==> b.addresses[a].total >= SumEdges(b.edges, InTo(a))
  }

  // ---- upserts ------------------------------------------------------------------------------

  /** A column that is moved by a delta and held at zero. */
  function Clamped(f: int, delta: int): int {
    if delta == 0 then f else Max(0, f + delta)
  }

  function Ones(active: bool): int {
    if active then 1 else 0
  }

  /** applyAddressStatsDelta. */
  function AccountFor(b: Book, before: Option<Address>, after: Address): Book {
    b.(hackerCount := CountStep(b.hackerCount, before, after),
       totalInByHack := SatsStep(b.totalInByHack, before, after),
       hackerActive := Clamped(b.hackerActive, Ones(IsActive(after)) - Ones(WasActive(before))))
  }

  function Upserted(b: Book, data: Upsert): Book {
    var existing := Row(b.addresses, data.address);
    AccountFor(b.(addresses := PutMerged(b.addresses, data)), existing, Merged(existing, data))
  }

  function InsertedIfMissing(b: Book, data: Upsert): Book {
    if data.address in b.addresses then b else Upserted(b, data)
  }

  function Addressed(rows: seq<Upsert>): set<string> {
    set i | 0 <= i < |rows| :: rows[i].address
  }

  lemma {:induction false} AllMergedKeys(before: Addresses, rows: seq<Upsert>)
    ensures PutAllMerged(before, rows).Keys == before.Keys + Addressed(rows)
  {
    if rows != [] {
      var front, last := rows[..|rows| - 1], rows[|rows| - 1];
      AllMergedKeys(before, front);
      assert Addressed(rows) == Addressed(front) + {last.address};
    }
  }

  /** The rows of a batch from n - 1 down to 0: each address is accounted for once. */
  function AccountForRows(b: Book, before: Addresses, rows: seq<Upsert>, n: nat, seen: set<string>): Book
    requires n <= |rows| && forall i :: 0 <= i < n ==> rows[i].address in b.addresses
    decreases n
  {
    if n == 0 then b
    else
      var a := rows[n - 1].address;
      if a in seen then AccountForRows(b, before, rows, n - 1, seen)
      else AccountForRows(AccountFor(b, Row(before, a), b.addresses[a]), before, rows, n - 1, seen + {a})
  }

  function UpsertedMany(b: Book, rows: seq<Upsert>): Book {
    AllMergedKeys(b.addresses, rows);
    AccountForRows(b.(addresses := PutAllMerged(b.addresses, rows)), b.addresses, rows, |rows|, {})
  }

  // ---- totals and inbound sums --------------------------------------------------------------

  /** A new total of a present row, with the hack statistics that follow. */
  function Retotalled(b: Book, a: string, total: int): Book
    requires a in b.addresses
  {
    var before := b.addresses[a];
    b.(addresses := b.addresses[a := before.(total := total)],
       hackerCount := TotalCountStep(b.hackerCount, before, total),
       totalInByHack := TotalSatsStep(b.totalInByHack, before, total))
  }

  /** applyTotalReceivedDelta. */
  function TotalMoved(b: Book, a: string, delta: int): Book {
    if delta == 0 || a !in b.addresses then b
    else
      var before := b.addresses[a];
      var total := before.total + delta;
      Retotalled(b, a, total).(
        hackerActive := Clamped(b.hackerActive, Ones(HackerActive(before.flagged, total)) - Ones(IsActive(before))))
  }

  /** recalcTotalReceived: the count of active hackers is not touched. */
  ghost function Recalculated(b: Book, a: string): Book {
    if a in b.addresses then Retotalled(b, a, SumEdges(b.edges, InTo(a))) else b
  }

  function InboundMoved(addresses: Addresses, a: string, delta: int): Addresses {
    if delta == 0 || a !in addresses then addresses
    else addresses[a := addresses[a].(inbound := addresses[a].inbound + delta)]
  }

  ghost function InboundRecalculated(b: Book, a: string): Book {
    if a in b.addresses
    then b.(addresses := b.addresses[a := b.addresses[a].(inbound := SumEdges(b.edges, OutTo(a)))])
    else b
  }

  // ---- edge batches -------------------------------------------------------------------------

  /** A Map of deltas, in insertion order. */
  type Deltas = seq<(string, int)>

  function Bump(d: Deltas, a: string, x: int): Deltas {
    if d == [] then [(a, x)]
    else if d[0].0 == a then [(a, d[0].1 + x)] + d[1..]
    else [d[0]] + Bump(d[1..], a, x)
  }

  function DeltaOf(d: Deltas, a: string): int {
    if d == [] then 0 else if d[0].0 == a then d[0].1 else DeltaOf(d[1..], a)
  }

  /** The deltas of the rows of one direction, by target. */
  function Collected(rows: seq<EdgeRow>, seen: Edges, direction: Direction): Deltas {
    if rows == [] then []
    else
      var front, row := Collected(rows[..|rows| - 1], seen, direction), rows[|rows| - 1];
      var delta := row.edge.amount - OldAmount(seen, row.key);
      if row.edge.direction == direction && delta != 0 then Bump(front, row.key.to, delta) else front
  }

  /** What the rows add to the grand total. */
  function InTotal(rows: seq<EdgeRow>, seen: Edges): int {
    if rows == [] then 0
    else
      var row := rows[|rows| - 1];
      InTotal(rows[..|rows| - 1], seen) + if IsIn(row) then row.edge.amount - OldAmount(seen, row.key) else 0
  }

  function TotalsMoved(b: Book, d: Deltas): Book {
    if d == [] then b
    else
      var last := d[|d| - 1];
      TotalMoved(TotalsMoved(b, d[..|d| - 1]), last.0, last.1)
  }

  function InboundsMoved(addresses: Addresses, d: Deltas): Addresses {
    if d == [] then addresses
    else
      var last := d[|d| - 1];
      InboundMoved(InboundsMoved(addresses, d[..|d| - 1]), last.0, last.1)
  }

  ghost function PeaksMoved(edges: Edges, peaks: Peaks, rows: seq<EdgeRow>, seen: Edges): Peaks {
    if rows == [] then peaks
    else
      var front, row := PeaksMoved(edges, peaks, rows[..|rows| - 1], seen), rows[|rows| - 1];
      if IsIn(row) then PeakMoved(edges, front, PairOf(row), row.edge.amount, OldAmount(seen, row.key)) else front
  }

  /** One chunk: the rows are written, then the figures follow from the amounts read before. */
  ghost function ChunkUpserted(b: Book, rows: seq<EdgeRow>): Book {
    var seen := OldEdges(b.edges, rows);
    var moved := TotalsMoved(b.(edges := WriteAll(b.edges, rows)), Collected(rows, seen, InToHacker));
    moved.(addresses := InboundsMoved(moved.addresses, Collected(rows, seen, OutFromHacker)),
           peaks := PeaksMoved(moved.edges, moved.peaks, rows, seen))
  }

  ghost function ChunksUpserted(b: Book, rows: seq<EdgeRow>, size: nat): Book
    requires size > 0
    decreases |rows|
  {
    if rows == [] then b
    else
      var n := Chunk(rows, size);
      ChunksUpserted(ChunkUpserted(b, rows[..n]), rows[n..], size)
  }

  /** The changes of the grand total, chunk by chunk. */
  function InTotals(edges: Edges, rows: seq<EdgeRow>, size: nat): int
    requires size > 0
    decreases |rows|
  {
    if rows == [] then 0
    else
      var n := Chunk(rows, size);
      InTotal(rows[..n], OldEdges(edges, rows[..n])) + InTotals(WriteAll(edges, rows[..n]), rows[n..], size)
  }

  ghost function EdgesUpserted(b: Book, rows: seq<EdgeRow>, size: nat): Book
    requires size > 0
  {
    ChunksUpserted(b, rows, size).(totalIn := Max(0, b.totalIn + InTotals(b.edges, rows, size)))
  }

  // ---- deletions ----------------------------------------------------------------------------

  predicate Touches(k: EdgeKey, address: string) {
    k.from == address || k.to == address
  }

  function Untouched(edges: Edges, address: string): Edges {
    map k | k in edges && !Touches(k, address) :: edges[k]
  }

  /** The targets of the outgoing edges that go. */
  function Losers(edges: Edges, address: string): set<string> {
    set k | k in edges && Touches(k, address) && edges[k].direction.OutFromHacker? :: k.to
  }

  ghost function InboundsRecalculated(addresses: Addresses, edges: Edges, targets: set<string>): Addresses {
    map a | a in addresses :: if a in targets then addresses[a].(inbound := SumEdges(edges, OutTo(a))) else addresses[a]
  }

  /** deleteEdgesTouchingAddress. */
  ghost function EdgesDeleted(b: Book, address: string): Book {
    var edges := Untouched(b.edges, address);
    b.(edges := edges, addresses := InboundsRecalculated(b.addresses, edges, Losers(b.edges, address)))
  }

  function Untracked(edges: Edges): Edges {
    map k | k in edges && edges[k].direction.OtherDirection? :: edges[k]
  }

  /** deleteHackTraceEdges. */
  function TraceDeleted(b: Book): Book {
    b.(edges := Untracked(b.edges), addresses := map a | a in b.addresses :: b.addresses[a].(inbound := 0))
  }
}
