/** What each address or edge method keeps exact, and when it does not. */
module LedgerSteps {
  import opened Wrappers
  import opened LedgerTable
  import opened HackStats
  import opened LedgerBook

  // ---- upserts ------------------------------------------------------------------------------

  /** Accounting for one row change keeps the count of active hackers, whatever changes. */
  lemma ActiveStep(addresses: Addresses, a: string, after: Address, count: int)
    requires count == SumAddresses(addresses, ActiveHackers)
    ensures SumAddresses(addresses[a := after], ActiveHackers)
            == Clamped(count, Ones(IsActive(after)) - Ones(WasActive(Row(addresses, a))))
  {
    hide SumAddresses;
    AddressPut(addresses, a, after, ActiveHackers);
    AddressShare(addresses, ActiveHackers);
  }

  /** No figure of sats is negative: all writes are clamped. */
  ghost predicate AboveZero(b: Book) {
    Nonnegative(b.totalInByHack)
  }

  /** The change of a row after which the statistics are no longer exact. */
  ghost predicate Upsets(addresses: Addresses, before: Option<Address>, after: Address) {
    Misses(addresses, before, after) || HeldAtZero(addresses, before, after)
  }

  /** One upsert: each figure by itself. */
  lemma UpsertKeeps(b: Book, data: Upsert)
    ensures var b' := Upserted(b, data);
            var a := data.address;
            && (AboveZero(b) ==> AboveZero(b'))
            && (HackStatsExact(b) && AboveZero(b) ==>
                  (HackStatsExact(b') <==> !Upsets(b.addresses, Row(b.addresses, a), b'.addresses[a])))
            && (ActiveExact(b) ==> ActiveExact(b'))
            && (TotalsExact(b) ==> (TotalsExact(b') <==> b'.addresses[a].total == SumEdges(b.edges, InTo(a))))
            && (InboundExact(b) ==> (InboundExact(b') <==> a in b.addresses || SumEdges(b.edges, OutTo(a)) == 0))
  {
    hide SumAddresses, SumEdges, CountStep, SatsStep, Misses, HeldAtZero, StatsExact, Nonnegative;
    var a, b' := data.address, Upserted(b, data);
    var existing := Row(b.addresses, a);
    var after := Merged(existing, data);
    assert b'.addresses == b.addresses[a := after] && b'.addresses[a] == after;
    if AboveZero(b) {
      SatsStepNonnegative(b.totalInByHack, existing, after);
    }
    if HackStatsExact(b) && AboveZero(b) {
      StepExact(b.addresses, a, after, b.hackerCount, b.totalInByHack);
    }
    if ActiveExact(b) {
      ActiveStep(b.addresses, a, after, b.hackerActive);
    }
    UpsertSums(b, data);
  }

  lemma UpsertSums(b: Book, data: Upsert)
    ensures var b' := Upserted(b, data);
            var a := data.address;
            && (TotalsExact(b) ==> (TotalsExact(b') <==> b'.addresses[a].total == SumEdges(b.edges, InTo(a))))
            && (InboundExact(b) ==> (InboundExact(b') <==> a in b.addresses || SumEdges(b.edges, OutTo(a)) == 0))
  {
    hide SumAddresses, SumEdges, CountStep, SatsStep, IsActive;
    var a, b' := data.address, Upserted(b, data);
    assert a in b'.addresses;
    assert forall x :: x in b'.addresses && x != a ==> b'.addresses[x] == b.addresses[x];
  }

  /** A flagged row that keeps its total keeps its activity, so its change is never missed. */
  lemma TotalKept(addresses: Addresses, a: string, after: Address)
    requires NoDebt(addresses) && after.total >= 0
    requires a in addresses ==> after.total == addresses[a].total
    ensures !Upsets(addresses, Row(addresses, a), after)
  {
    hide SumAddresses, HeldAtZero;
    NeverHeld(addresses, a, after);
  }

  // ---- batches of upserts -------------------------------------------------------------------

  /** The table in which only the given addresses have been updated. */
  function Partly(before: Addresses, final: Addresses, done: set<string>): Addresses
    requires before.Keys <= final.Keys
  {
    map a | a in final && (a in before || a in done) :: if a in done then final[a] else before[a]
  }

  /** No address of the rows below n, when its turn comes, upsets the statistics. */
  ghost predicate NoneUpsets(before: Addresses, final: Addresses, rows: seq<Upsert>, n: nat, done: set<string>)
    requires n <= |rows| && before.Keys <= final.Keys && forall i :: 0 <= i < n ==> rows[i].address in final
    decreases n
  {
    n == 0 ||
    var a := rows[n - 1].address;
    if a in done then NoneUpsets(before, final, rows, n - 1, done)
    else !Upsets(Partly(before, final, done), Row(before, a), final[a])
         && NoneUpsets(before, final, rows, n - 1, done + {a})
  }

  lemma PartStep(before: Addresses, final: Addresses, done: set<string>, a: string, c: Figures, t: Figures)
    requires before.Keys <= final.Keys && a in final && a !in done
    requires StatsExact(Partly(before, final, done), c, t) && Nonnegative(t)
    ensures var row := Row(before, a);
            && Nonnegative(SatsStep(t, row, final[a]))
            && (StatsExact(Partly(before, final, done + {a}), CountStep(c, row, final[a]), SatsStep(t, row, final[a]))
                <==> !Upsets(Partly(before, final, done), row, final[a]))
  {
    hide StatsExact, CountStep, SatsStep, Misses, HeldAtZero, Nonnegative;
    var table := Partly(before, final, done);
    assert Partly(before, final, done + {a}) == table[a := final[a]];
    assert Row(table, a) == Row(before, a);
    StepExact(table, a, final[a], c, t);
    SatsStepNonnegative(t, Row(before, a), final[a]);
  }

  lemma PartActive(before: Addresses, final: Addresses, done: set<string>, a: string, count: int)
    requires before.Keys <= final.Keys && a in final && a !in done
    requires count == SumAddresses(Partly(before, final, done), ActiveHackers)
    ensures SumAddresses(Partly(before, final, done + {a}), ActiveHackers)
            == Clamped(count, Ones(IsActive(final[a])) - Ones(WasActive(Row(before, a))))
  {
    hide SumAddresses, IsActive, WasActive;
    var table := Partly(before, final, done);
    assert Partly(before, final, done + {a}) == table[a := final[a]];
    assert Row(table, a) == Row(before, a);
    ActiveStep(table, a, final[a], count);
  }

  lemma AddressedNext(rows: seq<Upsert>, n: nat, done: set<string>)
    requires 0 < n <= |rows|
    ensures var a := rows[n - 1].address;
            && (a in done ==> done + Addressed(rows[..n]) == done + Addressed(rows[..n - 1]))
            && done + Addressed(rows[..n]) == (done + {a}) + Addressed(rows[..n - 1])
  {
    assert rows[..n] == rows[..n - 1] + [rows[n - 1]];
    assert Addressed(rows[..n]) == Addressed(rows[..n - 1]) + {rows[n - 1].address};
  }

  /** Each address accounted for brings the figures one row further. */
  lemma {:induction false} RowsKeep(b: Book, before: Addresses, rows: seq<Upsert>, n: nat, done: set<string>)
    requires n <= |rows| && before.Keys <= b.addresses.Keys && forall i :: 0 <= i < n ==> rows[i].address in b.addresses
    ensures var b' := AccountForRows(b, before, rows, n, done);
            var after := Partly(before, b.addresses, done + Addressed(rows[..n]));
            && b'.addresses == b.addresses && b'.edges == b.edges && b'.totalIn == b.totalIn && b'.peaks == b.peaks
            && (b.hackerActive == SumAddresses(Partly(before, b.addresses, done), ActiveHackers) ==>
                  b'.hackerActive == SumAddresses(after, ActiveHackers))
            && (AboveZero(b) ==> AboveZero(b'))
            && (AboveZero(b) && NoneUpsets(before, b.addresses, rows, n, done)
                && StatsExact(Partly(before, b.addresses, done), b.hackerCount, b.totalInByHack) ==>
                  StatsExact(after, b'.hackerCount, b'.totalInByHack))
    decreases n
  {
    hide SumAddresses, StatsExact, CountStep, SatsStep, Upsets, Partly, Addressed, IsActive, WasActive, Nonnegative;
    if n == 0 {
      NobodyAddressed(rows, done);
    } else {
      var a := rows[n - 1].address;
      AddressedNext(rows, n, done);
      if a in done {
        RowsKeep(b, before, rows, n - 1, done);
      } else {
        var b1 := AccountFor(b, Row(before, a), b.addresses[a]);
        if b.hackerActive == SumAddresses(Partly(before, b.addresses, done), ActiveHackers) {
          PartActive(before, b.addresses, done, a, b.hackerActive);
        }
        if AboveZero(b) {
          SatsStepNonnegative(b.totalInByHack, Row(before, a), b.addresses[a]);
          if StatsExact(Partly(before, b.addresses, done), b.hackerCount, b.totalInByHack) {
            PartStep(before, b.addresses, done, a, b.hackerCount, b.totalInByHack);
          }
        }
        RowsKeep(b1, before, rows, n - 1, done + {a});
      }
    }
  }

  lemma NobodyAddressed(rows: seq<Upsert>, done: set<string>)
    ensures done + Addressed(rows[..0]) == done
  {
  }

  lemma {:induction false} NotAddressed(before: Addresses, rows: seq<Upsert>, a: string)
    requires a in before && a !in Addressed(rows)
    ensures a in PutAllMerged(before, rows) && PutAllMerged(before, rows)[a] == before[a]
  {
    if rows != [] {
      var front, last := rows[..|rows| - 1], rows[|rows| - 1];
      assert last.address in Addressed(rows);
      assert Addressed(front) <= Addressed(rows);
      NotAddressed(before, front, a);
    }
  }

  lemma PartEnds(before: Addresses, rows: seq<Upsert>)
    ensures var final := PutAllMerged(before, rows);
            && before.Keys <= final.Keys && (forall i :: 0 <= i < |rows| ==> rows[i].address in final)
            && Partly(before, final, {}) == before && Partly(before, final, {} + Addressed(rows[..|rows|])) == final
  {
    hide PutAllMerged;
    var final := PutAllMerged(before, rows);
    AllMergedKeys(before, rows);
    assert rows[..|rows|] == rows && {} + Addressed(rows) == Addressed(rows);
    forall a | a in before && a !in Addressed(rows) ensures final[a] == before[a] {
      NotAddressed(before, rows, a);
    }
    assert forall i :: 0 <= i < |rows| ==> rows[i].address in Addressed(rows);
  }

  ghost predicate BatchHarmless(before: Addresses, rows: seq<Upsert>) {
    PartEnds(before, rows);
    NoneUpsets(before, PutAllMerged(before, rows), rows, |rows|, {})
  }

  /** A batch of upserts: written at once, accounted for address by address. */
  lemma UpsertManyKeeps(b: Book, rows: seq<Upsert>)
    ensures var b' := UpsertedMany(b, rows);
            && b'.addresses == PutAllMerged(b.addresses, rows)
            && b'.edges == b.edges && b'.totalIn == b.totalIn && b'.peaks == b.peaks
            && (AboveZero(b) ==> AboveZero(b'))
            && (HackStatsExact(b) && AboveZero(b) && BatchHarmless(b.addresses, rows) ==> HackStatsExact(b'))
            && (ActiveExact(b) ==> ActiveExact(b'))
  {
    hide SumAddresses, StatsExact, Partly, Addressed, PutAllMerged, AccountForRows, NoneUpsets, Nonnegative;
    PartEnds(b.addresses, rows);
    RowsKeep(b.(addresses := PutAllMerged(b.addresses, rows)), b.addresses, rows, |rows|, {});
  }

  predicate Plain(addresses: Addresses, rows: seq<Upsert>) {
    forall i :: 0 <= i < |rows| && rows[i].total.Some? ==> rows[i].total.value >= 0 && rows[i].address !in addresses
  }

  /** A batch that overwrites no existing total keeps the totals of the rows it finds. */
  lemma {:induction false} PlainTotals(before: Addresses, rows: seq<Upsert>)
    requires NoDebt(before) && Plain(before, rows)
    ensures var final := PutAllMerged(before, rows);
            NoDebt(final) && forall a :: a in before ==> a in final && final[a].total == before[a].total
  {
    if rows != [] {
      PlainTotals(before, rows[..|rows| - 1]);
    }
  }

  lemma {:induction false} TotalsKept(before: Addresses, final: Addresses, rows: seq<Upsert>, n: nat, done: set<string>)
    requires n <= |rows| && before.Keys <= final.Keys && forall i :: 0 <= i < n ==> rows[i].address in final
    requires NoDebt(before) && NoDebt(final) && forall a :: a in before ==> final[a].total == before[a].total
    ensures NoneUpsets(before, final, rows, n, done)
    decreases n
  {
    hide Upsets;
    if n > 0 {
      var a := rows[n - 1].address;
      if a in done {
        TotalsKept(before, final, rows, n - 1, done);
      } else {
        assert Row(Partly(before, final, done), a) == Row(before, a);
        TotalKept(Partly(before, final, done), a, final[a]);
        TotalsKept(before, final, rows, n - 1, done + {a});
      }
    }
  }

  /** Such a batch upsets nothing, although flags and hack ids may change. */
  lemma PlainHarmless(before: Addresses, rows: seq<Upsert>)
    requires NoDebt(before) && Plain(before, rows)
    ensures BatchHarmless(before, rows) && NoDebt(PutAllMerged(before, rows))
  {
    hide PutAllMerged, NoneUpsets, NoDebt;
    PartEnds(before, rows);
    PlainTotals(before, rows);
    TotalsKept(before, PutAllMerged(before, rows), rows, |rows|, {});
  }
}
