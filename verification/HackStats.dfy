/**
 * Per-hack statistics (store.ts): what one change of an address row does to them, and exactly
 * when they then still agree with a recount.
 */
module HackStats {
  import opened Wrappers
  import opened LedgerTable

  function WasFlagged(before: Option<Address>): bool {
    before.Some? && before.value.flagged
  }

  function WasActive(before: Option<Address>): bool {
    before.Some? && IsActive(before.value)
  }

  function OldHack(before: Option<Address>): string {
    if before.Some? then before.value.hackId else "coldcard"
  }

  function OldTotal(before: Option<Address>): int {
    if before.Some? then before.value.total else 0
  }

  predicate FlagChanged(before: Option<Address>, after: Address) {
    WasFlagged(before) != after.flagged
  }

  predicate HackChanged(before: Option<Address>, after: Address) {
    OldHack(before) != after.hackId
  }

  /** hacker_count after applyAddressStatsDelta and reconcileHackStatsForAddress. */
  function CountStep(f: Figures, before: Option<Address>, after: Address): Figures {
    var was, now := WasActive(before), IsActive(after);
    var f1 :=
      if was != now then Adjusted(f, if now then after.hackId else OldHack(before), if now then 1 else -1) else f;
    if !HackChanged(before, after) || FlagChanged(before, after) then f1
    else
      var f2 := if was then Adjusted(f1, OldHack(before), -1) else f1;
      if now then Adjusted(f2, after.hackId, 1) else f2
  }

  /** total_in_sats after reconcileHackStatsForAddress. */
  function SatsStep(f: Figures, before: Option<Address>, after: Address): Figures {
    if !HackChanged(before, after) && !FlagChanged(before, after) then f
    else
      var f1 := if WasFlagged(before) then Adjusted(f, OldHack(before), -OldTotal(before)) else f;
      if after.flagged then Adjusted(f1, after.hackId, after.total) else f1
  }

  ghost predicate CountExact(addresses: Addresses, f: Figures) {
    forall h :: Figure(f, h) == SumAddresses(addresses, Hackers(h))
  }

  ghost predicate SatsExact(addresses: Addresses, f: Figures) {
    forall h :: Figure(f, h) == SumAddresses(addresses, Sats(h))
  }

  /** The old total is more than its hack's figure. */
  ghost predicate TakenBelow(addresses: Addresses, before: Option<Address>) {
    WasFlagged(before) && SumAddresses(addresses, Sats(before.value.hackId)) < before.value.total
  }

  /** A change of flag or hack that would take a hack's sats below zero: the clamp holds them there. */
  ghost predicate HeldAtZero(addresses: Addresses, before: Option<Address>, after: Address) {
    && (HackChanged(before, after) || FlagChanged(before, after))
    && (TakenBelow(addresses, before)
        || (after.flagged && SumAddresses(addresses, Sats(after.hackId)) + after.total < 0))
  }

  /** Without negative totals that never happens. */
  lemma NeverHeld(addresses: Addresses, a: string, after: Address)
    requires NoDebt(addresses) && after.total >= 0
    ensures !HeldAtZero(addresses, Row(addresses, a), after)
  {
    hide SumAddresses;
    forall h ensures SumAddresses(addresses, Sats(h)) >= RowWeight(Row(addresses, a), Sats(h)) {
      AddressShare(addresses, Sats(h));
    }
    AddressShare(addresses, Sats(after.hackId));
  }

  lemma SatsStepNonnegative(f: Figures, before: Option<Address>, after: Address)
    requires Nonnegative(f)
    ensures Nonnegative(SatsStep(f, before, after))
  {
    hide Adjusted, Nonnegative;
    NonnegativeAdjusted(f, OldHack(before), -OldTotal(before));
    var f1 := if WasFlagged(before) then Adjusted(f, OldHack(before), -OldTotal(before)) else f;
    NonnegativeAdjusted(f1, after.hackId, after.total);
  }

  lemma CountStepExact(addresses: Addresses, a: string, after: Address, f: Figures)
    requires CountExact(addresses, f)
    ensures var before := Row(addresses, a);
            CountExact(addresses[a := after], CountStep(f, before, after))
            <==> !(Misses(addresses, before, after) && before.value.hackId != after.hackId)
  {
    hide SumAddresses;
    var before := Row(addresses, a);
    var f' := CountStep(f, before, after);
    forall h
      ensures SumAddresses(addresses[a := after], Hackers(h))
              == Figure(f, h) + AddressWeight(Hackers(h), after) - RowWeight(before, Hackers(h))
      ensures Figure(f, h) >= RowWeight(before, Hackers(h)) && Figure(f, h) >= 0
    {
      AddressPut(addresses, a, after, Hackers(h));
      AddressShare(addresses, Hackers(h));
    }
    if Misses(addresses, before, after) && before.value.hackId != after.hackId {
      var h := if IsActive(after) then after.hackId else before.value.hackId;
      assert Figure(f', h) != SumAddresses(addresses[a := after], Hackers(h));
    }
  }

  lemma SatsStepExact(addresses: Addresses, a: string, after: Address, f: Figures)
    requires SatsExact(addresses, f) && Nonnegative(f)
    ensures var before := Row(addresses, a);
            SatsExact(addresses[a := after], SatsStep(f, before, after))
            <==> !(Misses(addresses, before, after) && before.value.hackId == after.hackId)
                 && !HeldAtZero(addresses, before, after)
  {
    hide SumAddresses;
    var before := Row(addresses, a);
    var f' := SatsStep(f, before, after);
    forall h
      ensures SumAddresses(addresses[a := after], Sats(h))
              == Figure(f, h) + AddressWeight(Sats(h), after) - RowWeight(before, Sats(h))
    {
      AddressPut(addresses, a, after, Sats(h));
    }
    if Misses(addresses, before, after) && before.value.hackId == after.hackId {
      var h := after.hackId;
      assert Figure(f', h) != SumAddresses(addresses[a := after], Sats(h));
    } else if HeldAtZero(addresses, before, after) {
      var h := if TakenBelow(addresses, before) then before.value.hackId else after.hackId;
      assert Figure(f', h) != SumAddresses(addresses[a := after], Sats(h));
    }
  }

  /** One row change keeps the statistics exact unless the update misses it or holds a figure at zero. */
  lemma StepExact(addresses: Addresses, a: string, after: Address, hackerCount: Figures, totalIn: Figures)
    requires StatsExact(addresses, hackerCount, totalIn) && Nonnegative(totalIn)
    ensures var before := Row(addresses, a);
            StatsExact(addresses[a := after], CountStep(hackerCount, before, after), SatsStep(totalIn, before, after))
            <==> !Misses(addresses, before, after) && !HeldAtZero(addresses, before, after)
  {
    hide SumAddresses, CountStep, SatsStep, Misses, HeldAtZero;
    assert CountExact(addresses, hackerCount) && SatsExact(addresses, totalIn);
    CountStepExact(addresses, a, after, hackerCount);
    SatsStepExact(addresses, a, after, totalIn);
    var before := Row(addresses, a);
    var c, t := CountStep(hackerCount, before, after), SatsStep(totalIn, before, after);
    assert StatsExact(addresses[a := after], c, t)
      <==> CountExact(addresses[a := after], c) && SatsExact(addresses[a := after], t);
  }

  // ---- changes of a total by edges ----------------------------------------------------------

  /** hacker_count and total_in_sats after applyTotalReceivedDelta or recalcTotalReceived. */
  function TotalCountStep(f: Figures, before: Address, total: int): Figures {
    var was, now := IsActive(before), HackerActive(before.flagged, total);
    if was != now && before.flagged then Adjusted(f, before.hackId, if now then 1 else -1) else f
  }

  function TotalSatsStep(f: Figures, before: Address, total: int): Figures {
    if before.flagged then Adjusted(f, before.hackId, total - before.total) else f
  }

  /** A figure that would go below zero is held at zero. */
  predicate Overdraws(before: Address, total: int, totalIn: Figures) {
    before.flagged && Figure(totalIn, before.hackId) + (total - before.total) < 0
  }

  /** The counts are exact, and no hack's sats are below the recount or below zero. */
  ghost predicate NoLess(addresses: Addresses, hackerCount: Figures, totalIn: Figures) {
    && CountExact(addresses, hackerCount) && Nonnegative(totalIn)
    && forall h :: Figure(totalIn, h) >= SumAddresses(addresses, Sats(h))
  }

  lemma ExactIsNoLess(addresses: Addresses, hackerCount: Figures, totalIn: Figures)
    requires StatsExact(addresses, hackerCount, totalIn) && Nonnegative(totalIn)
    ensures NoLess(addresses, hackerCount, totalIn)
  {
    hide SumAddresses;
  }

  /** The sums after a new total, in the terms of the figures before. */
  lemma TotalSums(addresses: Addresses, a: string, total: int, h: string)
    requires a in addresses
    ensures var before, after := addresses[a], addresses[a].(total := total);
            && SumAddresses(addresses[a := after], Hackers(h))
               == SumAddresses(addresses, Hackers(h))
                 + AddressWeight(Hackers(h), after) - AddressWeight(Hackers(h), before)
            && SumAddresses(addresses[a := after], Sats(h))
               == SumAddresses(addresses, Sats(h)) + AddressWeight(Sats(h), after) - AddressWeight(Sats(h), before)
            && SumAddresses(addresses, Hackers(h)) >= AddressWeight(Hackers(h), before)
  {
    hide SumAddresses, AddressWeight;
    AddressPut(addresses, a, addresses[a].(total := total), Hackers(h));
    AddressPut(addresses, a, addresses[a].(total := total), Sats(h));
    AddressShare(addresses, Hackers(h));
  }

  lemma TotalStepNoLess(addresses: Addresses, a: string, total: int, hackerCount: Figures, totalIn: Figures)
    requires NoLess(addresses, hackerCount, totalIn) && a in addresses
    ensures NoLess(addresses[a := addresses[a].(total := total)],
                   TotalCountStep(hackerCount, addresses[a], total), TotalSatsStep(totalIn, addresses[a], total))
  {
    hide SumAddresses;
    forall h { TotalSums(addresses, a, total, h); }
    if addresses[a].flagged {
      NonnegativeAdjusted(totalIn, addresses[a].hackId, total - addresses[a].total);
    }
  }

  /**
   * A new total leaves the statistics exact unless it takes its hack's figure below zero; sats
   * that are too high then stay too high, whatever totals follow.
   */
  lemma TotalStepExact(addresses: Addresses, a: string, total: int, hackerCount: Figures, totalIn: Figures)
    requires NoLess(addresses, hackerCount, totalIn) && a in addresses
    ensures StatsExact(addresses[a := addresses[a].(total := total)],
                       TotalCountStep(hackerCount, addresses[a], total), TotalSatsStep(totalIn, addresses[a], total))
            <==> StatsExact(addresses, hackerCount, totalIn) && !Overdraws(addresses[a], total, totalIn)
  {
    hide SumAddresses;
    var before := addresses[a];
    var after := addresses[a := before.(total := total)];
    var totalIn' := TotalSatsStep(totalIn, before, total);
    TotalStepNoLess(addresses, a, total, hackerCount, totalIn);
    forall h { TotalSums(addresses, a, total, h); }
    if h :| Figure(totalIn, h) != SumAddresses(addresses, Sats(h)) {
      assert Figure(totalIn, h) > SumAddresses(addresses, Sats(h));
      assert Figure(totalIn', h) > SumAddresses(after, Sats(h));
    } else if Overdraws(before, total, totalIn) {
      assert Figure(totalIn', before.hackId) > SumAddresses(after, Sats(before.hackId));
    }
  }

  /** While no total is negative, no figure is taken below zero. */
  lemma NoOverdraft(addresses: Addresses, a: string, total: int, totalIn: Figures)
    requires SatsExact(addresses, totalIn) && NoDebt(addresses) && a in addresses && total >= 0
    ensures !Overdraws(addresses[a], total, totalIn) && Figure(totalIn, addresses[a].hackId) >= 0
  {
    hide SumAddresses;
    AddressShare(addresses, Sats(addresses[a].hackId));
  }
}
