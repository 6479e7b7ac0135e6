/**
 * The rate limiter (store.ts, consumeRateLimit): windows are compared in whole seconds, time is
 * given in milliseconds.
 */
module RateLimit {
  import opened Wrappers

  /** One row of rate_limits: when its window began, and how many requests it has let through. */
  datatype Row = Row(windowStart: nat, count: int)

  datatype Outcome = Outcome(row: Row, allowed: bool, retryAfterSec: int)

  function Sec(ts: nat): nat {
    ts / 1000
  }

  function WindowSec(windowSec: int): (w: int)
    ensures w >= 1
  {
    Max(1, windowSec)
  }

  function CeilSec(ms: int): int {
    if ms >= 0 then (ms + 999) / 1000 else -((-ms) / 1000)
  }

  /** One request at the given time against the stored row. */
  function Consume(row: Option<Row>, limit: int, windowSec: int, ts: nat): Outcome {
    var w := WindowSec(windowSec);
    if row.Some? && Sec(ts) - Sec(row.value.windowStart) >= w then Outcome(Row(ts, 1), true, 0)
    else if row.None? then Outcome(Row(ts, 1), true, 0)
    else if row.value.count < limit then Outcome(row.value.(count := row.value.count + 1), true, 0)
    else Outcome(row.value, false, Max(1, CeilSec(row.value.windowStart + w * 1000 - ts)))
  }

  /** A run of requests on one key: the row before request n. */
  ghost function RowAt(row: Option<Row>, limit: int, windowSec: int, times: seq<nat>, n: nat): Option<Row>
    requires n <= |times|
  {
    if n == 0 then row
    else Some(Consume(RowAt(row, limit, windowSec, times, n - 1), limit, windowSec, times[n - 1]).row)
  }

  ghost predicate AllowedAt(row: Option<Row>, limit: int, windowSec: int, times: seq<nat>, n: nat)
    requires n < |times|
  {
    Consume(RowAt(row, limit, windowSec, times, n), limit, windowSec, times[n]).allowed
  }

  /** How many of the requests from a up to b were allowed. */
  ghost function Allowed(row: Option<Row>, limit: int, windowSec: int, times: seq<nat>, a: nat, b: nat): nat
    requires a <= b <= |times|
  {
    if a == b then 0
    else Allowed(row, limit, windowSec, times, a, b - 1)
         + if AllowedAt(row, limit, windowSec, times, b - 1) then 1 else 0
  }

  predicate Monotone(times: seq<nat>) {
    forall i, j :: 0 <= i < j < |times| ==> times[i] <= times[j]
  }

  predicate Bounded(row: Option<Row>, limit: int) {
    row.Some? ==> row.value.count <= Max(1, limit)
  }

  /** A window never lets through more than the limit, or one request when the limit is below one. */
  lemma {:induction false} WindowBounded(row: Option<Row>, limit: int, windowSec: int, times: seq<nat>, n: nat)
    requires Bounded(row, limit) && n <= |times|
    ensures Bounded(RowAt(row, limit, windowSec, times, n), limit)
  {
    if n > 0 {
      WindowBounded(row, limit, windowSec, times, n - 1);
    }
  }

  /**
   * What requests a to b-1 have used: all of it in the current window, which covers request a,
   * or one full window and the current one, which began after request a.
   */
  ghost predicate Usage(now: Option<Row>, limit: int, w: int, first: nat, used: nat) {
    now.Some? &&
    (|| (used <= now.value.count && Sec(first) - Sec(now.value.windowStart) < w)
     || (used <= Max(1, limit) + now.value.count && Sec(now.value.windowStart) > Sec(first)))
  }

  lemma {:induction false} UsageHolds(row: Option<Row>, limit: int, windowSec: int, times: seq<nat>, a: nat, b: nat)
    requires Bounded(row, limit) && (row.Some? ==> row.value.count >= 0) && Monotone(times)
    requires a < b <= |times| && Sec(times[b - 1]) - Sec(times[a]) <= WindowSec(windowSec)
    ensures Usage(RowAt(row, limit, windowSec, times, b), limit, WindowSec(windowSec), times[a],
                  Allowed(row, limit, windowSec, times, a, b))
  {
    hide Usage, Consume, Sec, Bounded, WindowSec;
    CountsNonnegative(row, limit, windowSec, times, b - 1);
    WindowBounded(row, limit, windowSec, times, b - 1);
    if a < b - 1 {
      EarlierSecond(times[b - 2], times[b - 1]);
      UsageHolds(row, limit, windowSec, times, a, b - 1);
      UsageStep(RowAt(row, limit, windowSec, times, b - 1), limit, windowSec, times[a], times[b - 1],
                Allowed(row, limit, windowSec, times, a, b - 1));
    } else {
      UsageFirst(RowAt(row, limit, windowSec, times, a), limit, windowSec, times[a]);
      assert Allowed(row, limit, windowSec, times, a, a) == 0;
    }
  }

  lemma EarlierSecond(a: nat, b: nat)
    requires a <= b
    ensures Sec(a) <= Sec(b)
  {
  }

  /** One more request, within the interval, from the row as it stands. */
  lemma UsageStep(now: Option<Row>, limit: int, windowSec: int, first: nat, ts: nat, used: nat)
    requires Bounded(now, limit) && now.Some? && first <= ts && Sec(ts) - Sec(first) <= WindowSec(windowSec)
    requires Usage(now, limit, WindowSec(windowSec), first, used)
    ensures var o := Consume(now, limit, windowSec, ts);
            Usage(Some(o.row), limit, WindowSec(windowSec), first, used + if o.allowed then 1 else 0)
  {
    EarlierSecond(first, ts);
    hide Sec;
  }

  lemma UsageFirst(now: Option<Row>, limit: int, windowSec: int, first: nat)
    requires Bounded(now, limit) && (now.Some? ==> now.value.count >= 0)
    ensures var o := Consume(now, limit, windowSec, first);
            Usage(Some(o.row), limit, WindowSec(windowSec), first, if o.allowed then 1 else 0)
  {
    hide Sec;
  }

  lemma {:induction false} CountsNonnegative(row: Option<Row>, limit: int, windowSec: int, times: seq<nat>, n: nat)
    requires (row.Some? ==> row.value.count >= 0) && n <= |times|
    ensures var r := RowAt(row, limit, windowSec, times, n); r.Some? ==> r.value.count >= 0
  {
    if n > 0 {
      CountsNonnegative(row, limit, windowSec, times, n - 1);
    }
  }

  /** Any interval no longer than the window lets through at most twice the limit. */
  lemma IntervalBounded(row: Option<Row>, limit: int, windowSec: int, times: seq<nat>, a: nat, b: nat)
    requires Bounded(row, limit) && (row.Some? ==> row.value.count >= 0) && Monotone(times)
    requires a < b <= |times| && times[b - 1] - times[a] <= WindowSec(windowSec) * 1000
    ensures Allowed(row, limit, windowSec, times, a, b) <= 2 * Max(1, limit)
  {
    UsageHolds(row, limit, windowSec, times, a, b);
    WindowBounded(row, limit, windowSec, times, b);
  }

  /** A window stays within the limit over every run exactly when the limit is at least one. */
  lemma LimitExact(limit: int, windowSec: int)
    ensures (forall times: seq<nat>, n: nat :: 0 < n <= |times| ==>
               RowAt(None, limit, windowSec, times, n).value.count <= limit) <==> limit >= 1
  {
    forall times: seq<nat>, n: nat | 0 < n <= |times| && limit >= 1
      ensures RowAt(None, limit, windowSec, times, n).value.count <= limit
    {
      WindowBounded(None, limit, windowSec, times, n);
    }
    var once: seq<nat> := [0];
    assert RowAt(None, limit, windowSec, once, 1) == Some(Row(0, 1));
  }

  /** A denied client that waits as told, and meets no newer window, is let in. */
  lemma RetrySucceeds(row: Row, limit: int, windowSec: int, ts: nat, later: nat)
    requires !Consume(Some(row), limit, windowSec, ts).allowed
    requires later >= ts + Consume(Some(row), limit, windowSec, ts).retryAfterSec * 1000
    ensures Consume(Some(Consume(Some(row), limit, windowSec, ts).row), limit, windowSec, later).allowed
  {
    var w := WindowSec(windowSec);
    var left := row.windowStart + w * 1000 - ts;
    assert Sec(ts) - Sec(row.windowStart) < w;
    assert CeilSec(left) * 1000 >= left;
    assert later >= row.windowStart + w * 1000;
    assert Sec(later) >= Sec(row.windowStart) + w;
  }

  // ---- who is let through, counted over the requests ---------------------------------------

  /**
   * The request with which the window of request n began, on a key without a row: the windows
   * follow the times alone, each as long as the limiter says, in whole seconds.
   */
  function WindowBegin(times: seq<nat>, windowSec: int, n: nat): (s: nat)
    requires n < |times|
    ensures s <= n
  {
    if n == 0 then 0
    else
      var s := WindowBegin(times, windowSec, n - 1);
      if times[n] / 1000 - times[s] / 1000 >= Max(1, windowSec) then n else s
  }

  /** The stored row says when the window began, and how many of its requests were let through. */
  ghost predicate Stored(row: Option<Row>, limit: int, windowSec: int, times: seq<nat>, n: nat)
    requires 0 < n <= |times|
  {
    var s := WindowBegin(times, windowSec, n - 1);
    && row.Some? && row.value.windowStart == times[s]
    && row.value.count == Allowed(None, limit, windowSec, times, s, n)
    && 1 <= row.value.count <= Max(1, limit)
  }

  lemma {:induction false} RowIsStored(limit: int, windowSec: int, times: seq<nat>, n: nat)
    requires 0 < n <= |times|
    ensures Stored(RowAt(None, limit, windowSec, times, n), limit, windowSec, times, n)
  {
    var s := WindowBegin(times, windowSec, n - 1);
    if n > 1 {
      RowIsStored(limit, windowSec, times, n - 1);
      var before := RowAt(None, limit, windowSec, times, n - 1);
      assert RowAt(None, limit, windowSec, times, n) == Some(Consume(before, limit, windowSec, times[n - 1]).row);
      if s == n - 1 {
        assert Allowed(None, limit, windowSec, times, n - 1, n - 1) == 0;
      }
    } else {
      assert RowAt(None, limit, windowSec, times, 1) == Some(Row(times[0], 1));
      assert Allowed(None, limit, windowSec, times, 0, 0) == 0;
    }
  }

  /** A request is refused if and only if its window has already let through the limit, or one. */
  lemma AllowedExact(limit: int, windowSec: int, times: seq<nat>, n: nat)
    requires n < |times|
    ensures AllowedAt(None, limit, windowSec, times, n)
            <==> Allowed(None, limit, windowSec, times, WindowBegin(times, windowSec, n), n) < Max(1, limit)
  {
    hide Allowed;
    if n > 0 {
      RowIsStored(limit, windowSec, times, n);
    } else {
      assert RowAt(None, limit, windowSec, times, 0) == None;
    }
    NoneAllowed(limit, windowSec, times, n);
  }

  lemma NoneAllowed(limit: int, windowSec: int, times: seq<nat>, n: nat)
    requires n <= |times|
    ensures Allowed(None, limit, windowSec, times, n, n) == 0
  {
  }

  lemma SameWindow(times: seq<nat>, windowSec: int, n: nat)
    requires 0 < n < |times| && WindowBegin(times, windowSec, n) < n
    ensures WindowBegin(times, windowSec, n - 1) == WindowBegin(times, windowSec, n)
  {
  }

  /** So the first requests of a window get through, as many as the limit, and no later one does. */
  lemma {:induction false} FirstOnes(limit: int, windowSec: int, times: seq<nat>, n: nat)
    requires n < |times|
    ensures var s := WindowBegin(times, windowSec, n);
            && (AllowedAt(None, limit, windowSec, times, n) <==> n - s < Max(1, limit))
            && Allowed(None, limit, windowSec, times, s, n) == if n - s < Max(1, limit) then n - s else Max(1, limit)
  {
    hide AllowedAt, WindowBegin;
    var s := WindowBegin(times, windowSec, n);
    AllowedExact(limit, windowSec, times, n);
    if s < n {
      SameWindow(times, windowSec, n);
      FirstOnes(limit, windowSec, times, n - 1);
    } else {
      NoneAllowed(limit, windowSec, times, n);
    }
  }

  /** The wait: none when let through, else the least number of whole seconds, from one up, to the window's end. */
  lemma RetryExact(row: Option<Row>, limit: int, windowSec: int, ts: nat)
    ensures var o := Consume(row, limit, windowSec, ts);
            && (o.allowed ==> o.retryAfterSec == 0)
            && (!o.allowed ==>
                  && row.Some? && o.retryAfterSec >= 1
                  && var end := row.value.windowStart + Max(1, windowSec) * 1000;
                     && ts + o.retryAfterSec * 1000 >= end
                     && (o.retryAfterSec > 1 ==> ts + (o.retryAfterSec - 1) * 1000 < end))
  {
  }

  /** Waiting a second less than told is refused, when the window began on a whole second. */
  lemma RetryNotSooner(row: Row, limit: int, windowSec: int, ts: nat, later: nat)
    requires !Consume(Some(row), limit, windowSec, ts).allowed && row.windowStart % 1000 == 0
    requires later <= ts + (Consume(Some(row), limit, windowSec, ts).retryAfterSec - 1) * 1000
    ensures !Consume(Some(Consume(Some(row), limit, windowSec, ts).row), limit, windowSec, later).allowed
  {
    var w := WindowSec(windowSec);
    var left := row.windowStart + w * 1000 - ts;
    assert Sec(ts) - Sec(row.windowStart) < w;
    assert left > 0 && (CeilSec(left) - 1) * 1000 < left;
    assert later < row.windowStart + w * 1000;
  }

  class RateLimiter {
    var rows: map<string, Row>

    /** UPDATE when the window is over, INSERT when there is none, UPDATE when there is room. */
    method ConsumeRateLimit(key: string, limit: int, windowSec: int, ts: nat)
      returns (allowed: bool, retryAfterSec: int)
      modifies this
      ensures var row := if key in old(rows) then Some(old(rows)[key]) else None;
              var outcome := Consume(row, limit, windowSec, ts);
              rows == old(rows)[key := outcome.row] && allowed == outcome.allowed
              && retryAfterSec == outcome.retryAfterSec
    {
      var windowMs := Max(1, windowSec) * 1000;
      if key in rows && (Sec(ts) - Sec(rows[key].windowStart)) * 1000 >= windowMs {
        rows := rows[key := Row(ts, 1)];
        return true, 0;
      }
      if key !in rows {
        rows := rows[key := Row(ts, 1)];
        return true, 0;
      }
      if rows[key].count < limit && (Sec(ts) - Sec(rows[key].windowStart)) * 1000 < windowMs {
        rows := rows[key := rows[key].(count := rows[key].count + 1)];
        return true, 0;
      }
      assert rows == rows[key := rows[key]];
      return false, Max(1, CeilSec(rows[key].windowStart + windowMs - ts));
    }
  }
}
