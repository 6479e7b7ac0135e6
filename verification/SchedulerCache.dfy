/**
 * The scheduler row and its write-through cache (store.ts). Columns are named; the database
 * side of each method is an UPDATE, the cache side is what the method does to its copy.
 */
module SchedulerCache {
  import opened Wrappers
  import Positional

  datatype Value = Null | Num(n: int) | Text(s: string)

  type Row = map<string, Value>

  datatype Cache = NotLoaded | Missing | Loaded(row: Row)

  /** JavaScript's and SQLite's remainder: it has the sign of the dividend. */
  function Rem(a: int, n: int): int
    requires n > 0
  {
    if a >= 0 then a % n else -((-a) % n)
  }

  /** NOT NULL integer columns that never go below zero. */
  const COUNTERS: set<string> := {
    "pendingJobCount", "activeExpandCount", "activeBackfillCount", "activeAuditCount", "activeProcessTxCount",
    "crawlPendingCount", "victimCount", "hackerActiveCount", "crawlExpandedCount", "downstreamTreeCount",
    "downstreamPollDueCount", "totalInSats", "totalOutSats", "hackerPollIndex", "maintenanceCronCounter",
    "d1RowsReadTotal", "d1RowsWrittenTotal", "workersRequestsTotal", "d1RowsReadCron", "d1RowsWrittenCron",
    "workersRequestsCron", "d1RowsReadOverhead", "d1RowsWrittenOverhead"}

  predicate Counting(row: Row) {
    forall c :: c in COUNTERS ==> c in row && row[c].Num? && row[c].n >= 0
  }

  function Get(row: Row, c: string): int {
    if c in row && row[c].Num? then row[c].n else 0
  }

  /** SET c = MAX(0, c + delta). */
  function Bumped(row: Row, c: string, delta: int): Row {
    row[c := Num(Max(0, Get(row, c) + delta))]
  }

  /** SET c = c + amount, for each named column. */
  function Added(row: Row, amounts: map<string, nat>): Row {
    map c | c in row :: if c in amounts then Num(Get(row, c) + amounts[c]) else row[c]
  }

  /** A bump moves one counter by its delta, but not below zero, and no other column. */
  lemma BumpExact(row: Row, c: string, delta: int, d: string)
    requires Counting(row) && c in COUNTERS
    ensures var after := Bumped(row, c, delta);
            && after.Keys == row.Keys && Counting(after)
            && (d in row && d != c ==> after[d] == row[d])
            && (row[c].n + delta >= 0 ==> after[c].n == row[c].n + delta)
            && (row[c].n + delta < 0 ==> after[c].n == 0)
  {
  }

  /** Amounts move exactly their own columns. */
  lemma AddExact(row: Row, amounts: map<string, nat>, d: string)
    requires Counting(row) && amounts.Keys <= COUNTERS
    ensures var after := Added(row, amounts);
            && after.Keys == row.Keys && Counting(after)
            && (d in row && d !in amounts ==> after[d] == row[d])
            && (d in amounts ==> after[d].n - row[d].n == amounts[d])
  {
  }

  class SchedulerStore {
    var row: Option<Row>
    var cache: Cache

    /** A loaded cache is the row; the row's counters are numbers. */
    ghost predicate Coherent()
      reads this
    {
      && (cache.Loaded? ==> row == Some(cache.row))
      && (cache.Missing? ==> row.None?)
      && (row.Some? ==> Counting(row.value))
    }

    /** The read every caller uses returns what a read of the table would. */
    method GetSchedulerState() returns (state: Option<Row>)
      requires Coherent()
      modifies this`cache
      ensures Coherent() && state == row && !cache.NotLoaded?
    {
      if !cache.NotLoaded? {
        return if cache.Loaded? then Some(cache.row) else None;
      }
      cache := if row.Some? then Loaded(row.value) else Missing;
      state := row;
    }

    method ClearSchedulerStateCache()
      requires row.Some? ==> Counting(row.value)
      modifies this`cache
      ensures Coherent() && cache.NotLoaded?
    {
      cache := NotLoaded;
    }

    method PatchSchedulerCache(data: Row)
      modifies this`cache
      ensures cache == if old(cache).Loaded? then Loaded(old(cache).row + data) else old(cache)
    {
      if cache.Loaded? {
        cache := Loaded(cache.row + data);
      }
    }

    method BumpSchedulerCache(c: string, delta: int)
      modifies this`cache
      ensures cache == if old(cache).Loaded? && delta != 0 then Loaded(Bumped(old(cache).row, c, delta)) else old(cache)
    {
      if cache.Loaded? && delta != 0 {
        cache := Loaded(cache.row[c := Num(Max(0, Get(cache.row, c) + delta))]);
      }
    }

    /** Fields the caller leaves undefined are neither written nor patched. */
    method UpdateSchedulerState(data: Row)
      requires Coherent()
      requires forall c :: c in data && c in COUNTERS ==> data[c].Num? && data[c].n >= 0
      modifies this
      ensures Coherent()
      ensures row == if old(row).Some? then Some(old(row).value + data) else None
    {
      if row.Some? {
        row := Some(row.value + data);
      }
      PatchSchedulerCache(data);
    }

    method AdjustCounter(c: string, delta: int)
      requires Coherent() && c in COUNTERS
      modifies this
      ensures Coherent()
      ensures row == if old(row).Some? then Some(Bumped(old(row).value, c, delta)) else None
    {
      if delta == 0 {
        assert row.Some? ==> row.value == Bumped(row.value, c, 0);
        return;
      }
      if row.Some? {
        row := Some(Bumped(row.value, c, delta));
      }
      BumpSchedulerCache(c, delta);
    }

    /** One UPDATE clamps both columns; the cache skips a column whose delta is zero. */
    method AdjustEdgeTotalsCounters(totalIn: int, totalOut: int)
      requires Coherent()
      modifies this
      ensures Coherent()
      ensures row == if old(row).Some?
              then Some(Bumped(Bumped(old(row).value, "totalInSats", totalIn), "totalOutSats", totalOut))
                     else None
    {
      if row.Some? {
        assert Bumped(row.value, "totalInSats", 0) == row.value && Bumped(row.value, "totalOutSats", 0) == row.value;
        assert totalOut == 0 ==> Bumped(Bumped(row.value, "totalInSats", totalIn), "totalOutSats", 0)
                                 == Bumped(row.value, "totalInSats", totalIn);
      }
      if totalIn == 0 && totalOut == 0 { return; }
      if row.Some? {
        row := Some(Bumped(Bumped(row.value, "totalInSats", totalIn), "totalOutSats", totalOut));
      }
      BumpSchedulerCache("totalInSats", totalIn);
      BumpSchedulerCache("totalOutSats", totalOut);
    }

    /** addSchedulerQuotaCache beside its UPDATE. */
    method AddQuota(amounts: map<string, nat>)
      requires Coherent() && amounts.Keys <= COUNTERS
      modifies this
      ensures Coherent()
      ensures row == if old(row).Some? then Some(Added(old(row).value, amounts)) else None
    {
      if row.Some? {
        row := Some(Added(row.value, amounts));
      }
      if cache.Loaded? {
        cache := Loaded(Added(cache.row, amounts));
      }
    }

    method TryAcquireTickLease(nowMs: int, laterMs: int, leaseMs: int) returns (acquired: bool)
      requires Coherent()
      modifies this
      ensures Coherent()
      ensures acquired <==>
              old(row).Some?
              && (if "tickLeaseUntil" in old(row).value && old(row).value["tickLeaseUntil"].Num?
                  then old(row).value["tickLeaseUntil"].n < nowMs else true)
      ensures row == if acquired then Some(old(row).value["tickLeaseUntil" := Num(laterMs + Max(1, leaseMs))])
              else old(row)
    {
      var untilMs := laterMs + Max(1, leaseMs);
      acquired := row.Some? && ("tickLeaseUntil" in row.value && row.value["tickLeaseUntil"].Num? ==>
                                  row.value["tickLeaseUntil"].n < nowMs);
      if acquired {
        row := Some(row.value["tickLeaseUntil" := Num(untilMs)]);
        PatchSchedulerCache(map["tickLeaseUntil" := Num(untilMs)]);
        assert row.value == old(row).value + map["tickLeaseUntil" := Num(untilMs)];
      }
    }

    method ClearTickLease()
      requires Coherent()
      modifies this
      ensures Coherent()
      ensures row == if old(row).Some? then Some(old(row).value["tickLeaseUntil" := Null]) else None
    {
      if row.Some? {
        assert row.value["tickLeaseUntil" := Null] == row.value + map["tickLeaseUntil" := Null];
        row := Some(row.value["tickLeaseUntil" := Null]);
      }
      PatchSchedulerCache(map["tickLeaseUntil" := Null]);
    }

    /** One caller a day gets the refresh. */
    method TryClaimHackStatsDay(today: string) returns (claimed: bool)
      requires Coherent()
      modifies this
      ensures Coherent()
      ensures claimed <==>
              old(row).Some?
              && !("hackStatsDayUtc" in old(row).value && old(row).value["hackStatsDayUtc"] == Text(today))
      ensures row == if claimed then Some(old(row).value["hackStatsDayUtc" := Text(today)]) else old(row)
    {
      claimed := row.Some? && ("hackStatsDayUtc" !in row.value || row.value["hackStatsDayUtc"] != Text(today));
      if claimed {
        row := Some(row.value["hackStatsDayUtc" := Text(today)]);
        PatchSchedulerCache(map["hackStatsDayUtc" := Text(today)]);
        assert row.value == old(row).value + map["hackStatsDayUtc" := Text(today)];
      }
    }

    method IncrementMaintenanceCronCounter() returns (count: int)
      requires Coherent()
      modifies this
      ensures Coherent()
      ensures row == if old(row).Some? then Some(Bumped(old(row).value, "maintenanceCronCounter", 1)) else None
      ensures count == if row.Some? then row.value["maintenanceCronCounter"].n else 0
    {
      if row.Some? {
        row := Some(row.value["maintenanceCronCounter" := Num(Get(row.value, "maintenanceCronCounter") + 1)]);
      }
      if cache.Loaded? {
        cache := Loaded(cache.row["maintenanceCronCounter" := Num(Get(cache.row, "maintenanceCronCounter") + 1)]);
      }
      var state := GetSchedulerState();
      count := if state.Some? then Get(state.value, "maintenanceCronCounter") else 0;
    }

    /** The index is advanced in the table; the cache gets it back out of the returned index. */
    method ClaimNextHackerPollIndex(hackerCount: int) returns (index: int)
      requires Coherent()
      modifies this
      ensures Coherent()
      ensures hackerCount <= 0 || old(row).None? ==> index == 0 && row == old(row)
      ensures hackerCount > 0 && old(row).Some? ==>
                && 0 <= index < hackerCount && index == old(row).value["hackerPollIndex"].n % hackerCount
                && row == Some(old(row).value["hackerPollIndex" := Num((index + 1) % hackerCount)])
    {
      if hackerCount <= 0 { return 0; }
      if row.Some? {
        var next := Rem(Get(row.value, "hackerPollIndex") + 1, hackerCount);
        NextIndex(Get(row.value, "hackerPollIndex"), hackerCount);
        row := Some(row.value["hackerPollIndex" := Num(next)]);
        var used := Rem(next - 1 + hackerCount, hackerCount);
        PatchSchedulerCache(map["hackerPollIndex" := Num(Rem(used + 1, hackerCount))]);
        assert row.value == old(row).value + map["hackerPollIndex" := Num(next)];
        return used;
      }
      ClearSchedulerStateCache();
      var state := GetSchedulerState();
      index := 0;
    }

    /** reconcileActiveJobCounts: columns change behind the cache, which is then dropped. */
    method ReconcileActiveJobCounts(counts: map<string, nat>)
      requires Coherent()
      modifies this
      ensures Coherent()
      ensures row == if old(row).Some? then Some(old(row).value + map c | c in counts :: Num(counts[c])) else None
    {
      if row.Some? {
        row := Some(row.value + map c | c in counts :: Num(counts[c]));
      }
      ClearSchedulerStateCache();
    }

    constructor (row: Option<Row>)
      requires row.Some? ==> Counting(row.value)
      ensures Coherent() && this.row == row
    {
      this.row := row;
      cache := NotLoaded;
    }
  }

  /** The round-robin arithmetic: the index used, and the index stored, from the index found. */
  lemma NextIndex(x: nat, n: nat)
    requires n > 0
    ensures var next := Rem(x + 1, n);
            var used := Rem(next - 1 + n, n);
            used == x % n && next == (used + 1) % n && Rem(used + 1, n) == next
  {
    var r := x % n;
    var q := x / n;
    assert x == q * n + r;
    if r == n - 1 {
      assert x + 1 == (q + 1) * n by {
        assert (q + 1) * n == q * n + n;
      }
      Multiple(q + 1, 0, n);
      Multiple(0, n - 1, n);
      Multiple(1, 0, n);
    } else {
      Multiple(q, r + 1, n);
      Multiple(1, r, n);
      Multiple(0, r + 1, n);
      assert r + 1 - 1 + n == 1 * n + r;
    }
  }

  lemma Multiple(q: nat, r: nat, n: nat)
    requires r < n
    ensures (q * n + r) % n == r
  {
    var k := q * n + r;
    assert k == n * (k / n) + k % n;
    Positional.SplitDigit(r, q, k % n, k / n, n);
  }
}
