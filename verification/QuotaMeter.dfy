/**
 * Row metering (d1RowMeter.ts) and the flush that files metered usage in the scheduler row
 * (flushQuotaUsage in store.ts). Days are integers; what a statement costs is a parameter.
 */
module QuotaMeter {
  import opened Wrappers

  datatype Rows = Rows(read: nat, written: nat)

  function Plus(a: Rows, b: Rows): Rows {
    Rows(a.read + b.read, a.written + b.written)
  }

  lemma PlusParts(a: Rows, b: Rows)
    ensures Plus(a, b).read == a.read + b.read && Plus(a, b).written == a.written + b.written
  {
  }

  lemma NothingPlus(a: Rows)
    ensures Plus(NO_ROWS, a) == a
  {
  }

  lemma NothingCarried(before: int, now: int)
    ensures Carried(NO_ROWS, before, now) == NO_ROWS
  {
  }

  const NO_ROWS: Rows := Rows(0, 0)

  /** A count of day `before` as it stands on day `now`. */
  function Carried(rows: Rows, before: int, now: int): Rows {
    if before == now then rows else NO_ROWS
  }

  /** One recorded statement, as it was routed. */
  datatype Entry = Entry(day: int, rows: Rows, overhead: bool)

  function Logged(log: seq<Entry>, day: int, overhead: bool): Rows {
    if log == [] then NO_ROWS
    else
      var last := log[|log| - 1];
      var rest := Logged(log[..|log| - 1], day, overhead);
      if last.day == day && last.overhead == overhead then Plus(rest, last.rows) else rest
  }

  ghost predicate LoggedBy(log: seq<Entry>, day: int) {
    forall i :: 0 <= i < |log| ==> log[i].day <= day
  }

  lemma LoggedAppend(log: seq<Entry>, entry: Entry, day: int, overhead: bool)
    ensures Logged(log + [entry], day, overhead)
            == if entry.day == day && entry.overhead == overhead then Plus(Logged(log, day, overhead), entry.rows)
               else Logged(log, day, overhead)
  {
    assert (log + [entry])[..|log|] == log;
  }

  lemma {:induction false} NothingLogged(log: seq<Entry>, day: int, overhead: bool)
    requires LoggedBy(log, day - 1)
    ensures Logged(log, day, overhead) == NO_ROWS
  {
    if log != [] {
      NothingLogged(log[..|log| - 1], day, overhead);
    }
  }

  class D1RowMeter {
    var utcDate: int
    var rowsRead: nat
    var rowsWritten: nat
    var overheadRowsRead: nat
    var overheadRowsWritten: nat
    var suppressDepth: nat
    ghost var log: seq<Entry>
    ghost var drained: Rows

    ghost function Overhead(): Rows
      reads this`overheadRowsRead, this`overheadRowsWritten
    {
      Rows(overheadRowsRead, overheadRowsWritten)
    }

    /** Each row of the day is an app row, a drained overhead row or an undrained one. */
    ghost predicate Valid()
      reads this
    {
      && LoggedBy(log, utcDate)
      && Rows(rowsRead, rowsWritten) == Logged(log, utcDate, false)
      && overheadRowsRead + drained.read == Logged(log, utcDate, true).read
      && overheadRowsWritten + drained.written == Logged(log, utcDate, true).written
    }

    constructor (initialUtcDate: int)
      ensures Valid() && utcDate == initialUtcDate && log == [] && suppressDepth == 0
    {
      hide Logged;
      utcDate := initialUtcDate;
      rowsRead, rowsWritten := 0, 0;
      overheadRowsRead, overheadRowsWritten := 0, 0;
      suppressDepth := 0;
      log := [];
      drained := NO_ROWS;
      new;
      NothingLogged(log, utcDate, false);
      NothingLogged(log, utcDate, true);
    }

    method RolloverIfNeeded(today: int) returns (rolled: bool)
      requires Valid() && utcDate <= today
      modifies this
      ensures Valid() && utcDate == today && rolled == (today != old(utcDate))
      ensures log == old(log) && suppressDepth == old(suppressDepth)
      ensures drained == Carried(old(drained), old(utcDate), today)
      ensures Overhead() == Carried(old(Overhead()), old(utcDate), today)
    {
      hide Logged;
      if utcDate == today { return false; }
      NothingLogged(log, today, false);
      NothingLogged(log, today, true);
      utcDate := today;
      rowsRead, rowsWritten := 0, 0;
      overheadRowsRead, overheadRowsWritten := 0, 0;
      drained := NO_ROWS;
      rolled := true;
    }

    method Suppress()
      requires Valid()
      modifies this`suppressDepth
      ensures Valid() && suppressDepth == old(suppressDepth) + 1
    {
      suppressDepth := suppressDepth + 1;
    }

    method Unsuppress()
      requires Valid()
      modifies this`suppressDepth
      ensures Valid() && suppressDepth == Max(0, old(suppressDepth) - 1)
    {
      suppressDepth := Max(0, suppressDepth - 1);
    }

    method DrainOverhead() returns (rows: Rows)
      requires Valid()
      modifies this`overheadRowsRead, this`overheadRowsWritten, this`drained
      ensures Valid() && rows == old(Overhead()) && Overhead() == NO_ROWS && drained == Plus(old(drained), rows)
    {
      rows := Rows(overheadRowsRead, overheadRowsWritten);
      overheadRowsRead, overheadRowsWritten := 0, 0;
      drained := Plus(drained, rows);
    }

    method Record(rowsIn: int, rowsOut: int, today: int) returns (rolled: bool)
      requires Valid() && utcDate <= today
      modifies this
      ensures Valid() && utcDate == today && rolled == (today != old(utcDate))
      ensures log == old(log) + [Entry(today, Rows(Max(0, rowsIn), Max(0, rowsOut)), suppressDepth > 0)]
      ensures suppressDepth == old(suppressDepth)
      ensures drained == Carried(old(drained), old(utcDate), today)
      ensures Overhead() == Plus(Carried(old(Overhead()), old(utcDate), today),
                                 if suppressDepth > 0 then Rows(Max(0, rowsIn), Max(0, rowsOut)) else NO_ROWS)
    {
      hide Logged, Carried, Plus;
      rolled := RolloverIfNeeded(today);
      ghost var was := Overhead();
      ghost var rows := Rows(Max(0, rowsIn), Max(0, rowsOut));
      ghost var entry := Entry(today, rows, suppressDepth > 0);
      LoggedAppend(log, entry, today, true);
      LoggedAppend(log, entry, today, false);
      PlusParts(was, rows);
      PlusParts(was, NO_ROWS);
      PlusParts(Logged(log, today, true), rows);
      PlusParts(Logged(log, today, false), rows);
      if suppressDepth > 0 {
        if rowsIn > 0 { overheadRowsRead := overheadRowsRead + rowsIn; }
        if rowsOut > 0 { overheadRowsWritten := overheadRowsWritten + rowsOut; }
      } else {
        if rowsIn > 0 { rowsRead := rowsRead + rowsIn; }
        if rowsOut > 0 { rowsWritten := rowsWritten + rowsOut; }
      }
      log := log + [entry];
    }
  }

  // ----- The quota columns -----

  datatype Source = Cron | Api

  /** One flush, as filed: the caller's usage and the overhead drained with it. */
  datatype Flush = Flush(day: int, source: Source, read: nat, written: nat, requests: nat, overhead: Rows)

  datatype QuotaRow = QuotaRow(
    day: Option<int>,
    readsTotal: nat, writesTotal: nat, requestsTotal: nat,
    readsCron: nat, writesCron: nat, requestsCron: nat,
    readsOverhead: nat, writesOverhead: nat)

  function Sum(flushes: seq<Flush>, day: int, amount: Flush -> nat): nat {
    if flushes == [] then 0
    else
      var last := flushes[|flushes| - 1];
      Sum(flushes[..|flushes| - 1], day, amount) + if last.day == day then amount(last) else 0
  }

  lemma SumAppend(flushes: seq<Flush>, flush: Flush, day: int, amount: Flush -> nat)
    ensures Sum(flushes + [flush], day, amount)
            == Sum(flushes, day, amount) + if flush.day == day then amount(flush) else 0
  {
    assert (flushes + [flush])[..|flushes|] == flushes;
  }

  lemma {:induction false} SumNone(flushes: seq<Flush>, day: int, amount: Flush -> nat)
    requires forall f :: f in flushes ==> f.day < day
    ensures Sum(flushes, day, amount) == 0
  {
    if flushes != [] {
      SumNone(flushes[..|flushes| - 1], day, amount);
    }
  }

  function ReadsBy(source: Source): Flush -> nat { (f: Flush) => if f.source == source then f.read else 0 }
  function WritesBy(source: Source): Flush -> nat { (f: Flush) => if f.source == source then f.written else 0 }
  function RequestsBy(source: Source): Flush -> nat { (f: Flush) => if f.source == source then f.requests else 0 }
  function OverheadReads(): Flush -> nat { (f: Flush) => f.overhead.read }
  function OverheadWrites(): Flush -> nat { (f: Flush) => f.overhead.written }

  /** The columns are the recounts over the flushes filed on the row's day. */
  ghost predicate Holds(row: QuotaRow, flushes: seq<Flush>) {
    && (row.day.None? ==> flushes == [])
    && (row.day.Some? ==>
          var day := row.day.value;
          && (forall f :: f in flushes ==> f.day <= day)
          && row.readsCron == Sum(flushes, day, ReadsBy(Cron))
          && row.writesCron == Sum(flushes, day, WritesBy(Cron))
          && row.requestsCron == Sum(flushes, day, RequestsBy(Cron))
          && row.readsOverhead == Sum(flushes, day, OverheadReads())
          && row.writesOverhead == Sum(flushes, day, OverheadWrites())
          && row.readsTotal == row.readsCron + Sum(flushes, day, ReadsBy(Api)) + row.readsOverhead
          && row.writesTotal == row.writesCron + Sum(flushes, day, WritesBy(Api)) + row.writesOverhead
          && row.requestsTotal == row.requestsCron + Sum(flushes, day, RequestsBy(Api)))
  }

  function FreshRow(today: int): QuotaRow {
    QuotaRow(Some(today), 0, 0, 0, 0, 0, 0, 0, 0)
  }

  lemma FreshHolds(today: int, flushes: seq<Flush>)
    requires forall f :: f in flushes ==> f.day < today
    ensures Holds(FreshRow(today), flushes)
  {
    forall source { SumNone(flushes, today, ReadsBy(source)); }
    forall source { SumNone(flushes, today, WritesBy(source)); }
    forall source { SumNone(flushes, today, RequestsBy(source)); }
    SumNone(flushes, today, OverheadReads());
    SumNone(flushes, today, OverheadWrites());
  }

  /** What one flush, with its overhead, does to the columns. */
  lemma FlushHolds(row: QuotaRow, flushes: seq<Flush>, flush: Flush, after: QuotaRow)
    requires Holds(row, flushes) && row.day == Some(flush.day) && after.day == row.day
    requires after.readsTotal == row.readsTotal + flush.read + flush.overhead.read
    requires after.writesTotal == row.writesTotal + flush.written + flush.overhead.written
    requires after.requestsTotal == row.requestsTotal + flush.requests
    requires after.readsCron == row.readsCron + if flush.source.Cron? then flush.read else 0
    requires after.writesCron == row.writesCron + if flush.source.Cron? then flush.written else 0
    requires after.requestsCron == row.requestsCron + if flush.source.Cron? then flush.requests else 0
    requires after.readsOverhead == row.readsOverhead + flush.overhead.read
    requires after.writesOverhead == row.writesOverhead + flush.overhead.written
    ensures Holds(after, flushes + [flush])
  {
    var day := flush.day;
    forall source
      ensures Sum(flushes + [flush], day, ReadsBy(source))
              == Sum(flushes, day, ReadsBy(source)) + ReadsBy(source)(flush)
    {
      SumAppend(flushes, flush, day, ReadsBy(source));
    }
    forall source
      ensures Sum(flushes + [flush], day, WritesBy(source))
              == Sum(flushes, day, WritesBy(source)) + WritesBy(source)(flush)
    {
      SumAppend(flushes, flush, day, WritesBy(source));
    }
    forall source
      ensures Sum(flushes + [flush], day, RequestsBy(source))
              == Sum(flushes, day, RequestsBy(source)) + RequestsBy(source)(flush)
    {
      SumAppend(flushes, flush, day, RequestsBy(source));
    }
    SumAppend(flushes, flush, day, OverheadReads());
    SumAppend(flushes, flush, day, OverheadWrites());
  }

  /** What a statement costs, and the day on which the meter hears of it. */
  datatype Charge = Charge(day: int, rows: Rows)

  /** What readers of the quota see of the row. */
  datatype Snapshot = Snapshot(day: int, readsTotal: nat, writesTotal: nat, requestsTotal: nat,
                               readsCron: nat, writesCron: nat, requestsCron: nat)

  function Shown(row: QuotaRow): Snapshot
    requires row.day.Some?
  {
    Snapshot(row.day.value, row.readsTotal, row.writesTotal, row.requestsTotal, row.readsCron, row.writesCron,
             row.requestsCron)
  }

  /** The snapshot of a day: totals over all its flushes, and the cron's share. */
  ghost predicate Reports(snapshot: Snapshot, flushes: seq<Flush>, day: int) {
    && snapshot.day == day
    && snapshot.readsTotal == Sum(flushes, day, AllReads()) && snapshot.writesTotal == Sum(flushes, day, AllWrites())
    && snapshot.requestsTotal == Sum(flushes, day, RequestsBy(Cron)) + Sum(flushes, day, RequestsBy(Api))
    && snapshot.readsCron == Sum(flushes, day, ReadsBy(Cron))
    && snapshot.writesCron == Sum(flushes, day, WritesBy(Cron))
    && snapshot.requestsCron == Sum(flushes, day, RequestsBy(Cron))
  }

  lemma ShownReports(row: QuotaRow, flushes: seq<Flush>)
    requires Holds(row, flushes) && row.day.Some?
    ensures Reports(Shown(row), flushes, row.day.value)
  {
    hide Sum;
    TotalSplits(flushes, row.day.value);
  }

  /** The clock does not run behind the row. */
  predicate NotAfter(row: Option<QuotaRow>, today: int) {
    row.Some? && row.value.day.Some? ==> row.value.day.value <= today
  }

  predicate Outdated(row: Option<QuotaRow>, today: int) {
    row.Some? && row.value.day != Some(today)
  }

  function Current(row: Option<QuotaRow>, today: int): Option<QuotaRow> {
    if Outdated(row, today) then Some(FreshRow(today)) else row
  }

  function SnapshotLog(outdated: bool, select: Charge, reset: Charge, overhead: bool): seq<Entry> {
    [Entry(select.day, select.rows, overhead)] + if outdated then [Entry(reset.day, reset.rows, overhead)] else []
  }

  /** Overhead waiting after the snapshot's statements: a new day drops what was waiting. */
  function AfterSnapshot(waiting: Rows, day: int, outdated: bool, select: Charge, reset: Charge): Rows {
    var afterSelect := Plus(Carried(waiting, day, select.day), select.rows);
    if outdated then Plus(Carried(afterSelect, select.day, reset.day), reset.rows) else afterSelect
  }

  function WithOverhead(row: QuotaRow, overhead: Rows): QuotaRow {
    row.(readsTotal := row.readsTotal + overhead.read, writesTotal := row.writesTotal + overhead.written,
         readsOverhead := row.readsOverhead + overhead.read, writesOverhead := row.writesOverhead + overhead.written)
  }

  /** The UPDATE of a flush: an API flush leaves the cron columns. */
  function AfterFlush(row: QuotaRow, source: Source, read: nat, written: nat, requests: nat, overhead: Rows): QuotaRow {
    var counted := WithOverhead(row, overhead).(
      readsTotal := row.readsTotal + (read + overhead.read),
      writesTotal := row.writesTotal + (written + overhead.written),
      requestsTotal := row.requestsTotal + requests);
    if source.Cron? then
      counted.(readsCron := row.readsCron + read, writesCron := row.writesCron + written,
               requestsCron := row.requestsCron + requests)
    else
      counted
  }

  class QuotaStore {
    var row: Option<QuotaRow>
    const meter: D1RowMeter?
    ghost var flushes: seq<Flush>

    ghost predicate Valid()
      reads this, meter
    {
      && (row.Some? ==> Holds(row.value, flushes))
      && (meter != null ==> meter.Valid())
    }

    constructor (row: Option<QuotaRow>, meter: D1RowMeter?, ghost flushes: seq<Flush>)
      requires row.Some? ==> Holds(row.value, flushes)
      requires meter != null ==> meter.Valid()
      ensures Valid() && this.row == row && this.meter == meter && this.flushes == flushes
    {
      this.row, this.meter, this.flushes := row, meter, flushes;
    }

    ghost predicate Metered()
      reads meter
    {
      meter != null ==> meter.Valid()
    }

    /** The meter hears of a statement. */
    method Charged(charge: Charge)
      requires Metered() && (meter != null ==> meter.utcDate <= charge.day)
      modifies meter
      ensures Metered()
      ensures meter != null ==>
                && meter.utcDate == charge.day && meter.suppressDepth == old(meter.suppressDepth)
                && meter.log == old(meter.log) + [Entry(charge.day, charge.rows, meter.suppressDepth > 0)]
                && meter.drained == Carried(old(meter.drained), old(meter.utcDate), charge.day)
                && meter.Overhead() == Plus(Carried(old(meter.Overhead()), old(meter.utcDate), charge.day),
                                            if meter.suppressDepth > 0 then charge.rows else NO_ROWS)
    {
      hide Logged, Plus, Carried;
      if meter != null {
        var _ := meter.Record(charge.rows.read, charge.rows.written, charge.day);
      }
    }

    /** Overhead waiting in the meter; none without a meter. */
    ghost function Waiting(): Rows
      reads meter
    {
      if meter == null then NO_ROWS else meter.Overhead()
    }

    /** A day's first look clears the columns. */
    method GetQuotaSnapshot(today: int, select: Charge, reset: Charge) returns (snapshot: Snapshot)
      requires Valid() && NotAfter(row, today)
      requires meter != null ==> meter.utcDate <= select.day <= reset.day
      modifies this`row, meter
      ensures Valid()
      ensures row == old(Current(row, today))
      ensures snapshot == if row.Some? then Shown(row.value) else Shown(FreshRow(today))
      ensures snapshot.day == today && (row.Some? ==> Reports(snapshot, flushes, today))
      ensures meter != null ==>
                && meter.utcDate == (if old(Outdated(row, today)) then reset.day else select.day)
                && meter.suppressDepth == old(meter.suppressDepth)
                && meter.log
                     == old(meter.log) + SnapshotLog(old(Outdated(row, today)), select, reset, meter.suppressDepth > 0)
                && (meter.suppressDepth > 0 ==>
                      meter.Overhead() == AfterSnapshot(old(meter.Overhead()), old(meter.utcDate),
                                                        old(Outdated(row, today)), select, reset))
                && meter.drained
                     == Carried(Carried(old(meter.drained), old(meter.utcDate), select.day), select.day, meter.utcDate)
    {
      hide Reports;
      Charged(select);
      if row.None? { return Shown(FreshRow(today)); }
      if row.value.day != Some(today) {
        FreshHolds(today, flushes);
        ShownReports(FreshRow(today), flushes);
        row := Some(FreshRow(today));
        Charged(reset);
        return Shown(FreshRow(today));
      }
      ShownReports(row.value, flushes);
      return Shown(row.value);
    }

    method ApplyOverheadToSchedulerState(overhead: Rows, charge: Charge)
      requires Metered() && (meter != null ==> meter.utcDate <= charge.day)
      modifies this`row, meter
      ensures Metered()
      ensures row == if old(row).Some? then Some(WithOverhead(old(row).value, overhead)) else None
      ensures meter != null && overhead == NO_ROWS ==>
              meter.log == old(meter.log) && meter.Overhead() == old(meter.Overhead())
      ensures meter != null ==> meter.suppressDepth == old(meter.suppressDepth)
      ensures meter != null && overhead != NO_ROWS ==>
                && meter.log == old(meter.log) + [Entry(charge.day, charge.rows, meter.suppressDepth > 0)]
                && meter.Overhead() == Plus(Carried(old(meter.Overhead()), old(meter.utcDate), charge.day),
                                            if meter.suppressDepth > 0 then charge.rows else NO_ROWS)
    {
      hide Logged, Plus, Carried;
      if overhead.read == 0 && overhead.written == 0 { return; }
      if row.Some? {
        row := Some(WithOverhead(row.value, overhead));
      }
      Charged(charge);
    }

    /** The overhead of the flush's own UPDATE is filed in turn; what that costs waits for the next flush. */
    method FlushTail(last: Rows, tail: Charge)
      requires Metered() && Waiting() == NO_ROWS && (last != NO_ROWS ==> meter != null)
      requires meter != null ==> meter.utcDate <= tail.day
      modifies this`row, meter
      ensures Metered()
      ensures row == if old(row).Some? then Some(WithOverhead(old(row).value, last)) else None
      ensures meter != null ==>
                && meter.suppressDepth == old(meter.suppressDepth)
                && Waiting() == (if last != NO_ROWS then tail.rows else NO_ROWS)
                && meter.log == old(meter.log) + if last != NO_ROWS then [Entry(tail.day, tail.rows, true)] else []
    {
      hide Logged, Plus, Carried;
      if last.read > 0 || last.written > 0 {
        meter.Suppress();
        NothingCarried(meter.utcDate, tail.day);
        NothingPlus(tail.rows);
        ApplyOverheadToSchedulerState(last, tail);
        meter.Unsuppress();
      }
    }

    /** The suppressed part of a flush: what it drained before its UPDATE, and after. */
    method FlushUpdate(source: Source, read: nat, written: nat, requests: nat, today: int,
                       select: Charge, reset: Charge, update: Charge) returns (first: Rows, last: Rows)
      requires Valid() && NotAfter(row, today)
      requires meter != null ==> meter.utcDate <= select.day <= reset.day <= update.day
      modifies this`row, meter
      ensures Metered() && Waiting() == NO_ROWS
      ensures old(row).Some? ==> Holds(Current(old(row), today).value, flushes)
      ensures row == if old(row).Some?
              then Some(AfterFlush(Current(old(row), today).value, source, read, written, requests, first))
                     else None
      ensures meter == null ==> first == NO_ROWS && last == NO_ROWS
      ensures meter != null ==>
                && first == AfterSnapshot(old(Waiting()), old(meter.utcDate), old(Outdated(row, today)), select, reset)
                && last == update.rows
                && meter.utcDate == update.day && meter.suppressDepth == old(meter.suppressDepth)
                && meter.log == old(meter.log) + SnapshotLog(old(Outdated(row, today)), select, reset, true)
                                + [Entry(update.day, update.rows, true)]
    {
      hide Logged, Plus, AfterSnapshot, AfterFlush, Carried, Holds;
      if meter != null { meter.Suppress(); }
      var _ := GetQuotaSnapshot(today, select, reset);
      first := NO_ROWS;
      if meter != null { first := meter.DrainOverhead(); }
      if row.Some? {
        row := Some(AfterFlush(row.value, source, read, written, requests, first));
      }
      if meter != null { NothingCarried(meter.utcDate, update.day); }
      NothingPlus(update.rows);
      Charged(update);
      last := NO_ROWS;
      if meter != null {
        last := meter.DrainOverhead();
        meter.Unsuppress();
      }
    }

    /**
     * One flush files the caller's usage, with all the overhead waiting, on one day; the flush's own
     * statements are overhead too, and only the last one's rows are left for the next flush.
     */
    method FlushQuotaUsage(source: Source, rowsIn: int, rowsOut: int, calls: int, today: int,
                           select: Charge, reset: Charge, update: Charge, tail: Charge)
      requires Valid() && NotAfter(row, today)
      requires meter != null ==> meter.utcDate <= select.day <= reset.day <= update.day <= tail.day
      modifies this`row, this`flushes, meter
      ensures Valid()
      ensures rowsIn <= 0 && rowsOut <= 0 && calls <= 0 ==>
                row == old(row) && flushes == old(flushes)
                  && (meter != null ==> meter.log == old(meter.log) && Waiting() == old(Waiting()))
      ensures row.Some? == old(row).Some? && (row.None? ==> flushes == old(flushes))
      ensures meter != null ==> meter.suppressDepth == old(meter.suppressDepth)
      ensures (rowsIn > 0 || rowsOut > 0 || calls > 0) && row.Some? ==>
                && row.value.day == Some(today)
                && var overhead := if meter == null then NO_ROWS
                                   else Plus(AfterSnapshot(old(Waiting()), old(meter.utcDate),
                                                           old(Outdated(row, today)), select, reset),
                                             update.rows);
                   flushes == old(flushes)
                     + [Flush(today, source, Max(0, rowsIn), Max(0, rowsOut), Max(0, calls), overhead)]
      ensures (rowsIn > 0 || rowsOut > 0 || calls > 0) && meter != null ==>
                && Waiting() == (if update.rows != NO_ROWS then tail.rows else NO_ROWS)
                && meter.log == old(meter.log) + SnapshotLog(old(Outdated(row, today)), select, reset, true)
                                + [Entry(update.day, update.rows, true)]
                                + if update.rows != NO_ROWS then [Entry(tail.day, tail.rows, true)] else []
    {
      hide Logged, Plus, AfterSnapshot, Carried, Holds;
      var read, written, requests := Max(0, rowsIn), Max(0, rowsOut), Max(0, calls);
      if read == 0 && written == 0 && requests == 0 { return; }
      ghost var clean := Current(row, today);
      var first, last := FlushUpdate(source, read, written, requests, today, select, reset, update);
      FlushTail(last, tail);
      if row.Some? {
        ghost var flush := Flush(today, source, read, written, requests, Plus(first, last));
        PlusParts(first, last);
        FlushHolds(clean.value, flushes, flush, row.value);
        flushes := flushes + [flush];
      }
    }
  }

  function AllReads(): Flush -> nat { (f: Flush) => f.read + f.overhead.read }
  function AllWrites(): Flush -> nat { (f: Flush) => f.written + f.overhead.written }

  /** The day's rows are the cron's, the API's and the flushes' own, for any flushes. */
  lemma {:induction false} TotalSplits(flushes: seq<Flush>, day: int)
    ensures Sum(flushes, day, AllReads())
            == Sum(flushes, day, ReadsBy(Cron)) + Sum(flushes, day, ReadsBy(Api))
               + Sum(flushes, day, OverheadReads())
    ensures Sum(flushes, day, AllWrites())
            == Sum(flushes, day, WritesBy(Cron)) + Sum(flushes, day, WritesBy(Api))
               + Sum(flushes, day, OverheadWrites())
  {
    if flushes != [] {
      TotalSplits(flushes[..|flushes| - 1], day);
    }
  }
}
