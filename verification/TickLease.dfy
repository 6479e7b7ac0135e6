/**
 * The tick lease (store.ts, workerCron.ts) under every interleaving of ticks with one shared
 * clock that never goes back. A tick reads the clock before its UPDATE runs.
 */
module TickLease {
  import opened Wrappers

  /** The clock, the lease column, and the ticks between acquire and clear with their lease ends. */
  datatype State = State(now: int, leaseUntil: Option<int>, inside: map<nat, int>)

  datatype Step =
    | Advance(to: int)
    | Acquire(tick: nat, seen: int, seenLater: int, leaseMs: int)
    | Clear(tick: nat)
    | Crash(tick: nat)

  predicate Free(s: State, seen: int) {
    s.leaseUntil.None? || s.leaseUntil.value < seen
  }

  /** The clock only advances; a tick reads it twice, no later than its UPDATE; only a tick inside clears. */
  predicate Enabled(s: State, step: Step) {
    match step
    case Advance(to) => to >= s.now
    case Acquire(tick, seen, seenLater, _) => tick !in s.inside && seen <= seenLater <= s.now
    case Clear(tick) => tick in s.inside
    case Crash(tick) => tick in s.inside
  }

  function Next(s: State, step: Step): State {
    match step
    case Advance(to) => s.(now := to)
    case Acquire(tick, seen, seenLater, leaseMs) =>
      if Free(s, seen) then
        var until := seenLater + Max(1, leaseMs);
        s.(leaseUntil := Some(until), inside := s.inside[tick := until])
      else s
    case Clear(tick) => s.(leaseUntil := None, inside := s.inside - {tick})
    case Crash(tick) => s.(inside := s.inside - {tick})
  }

  /**
   * A tick gets in if and only if there is no lease or it ended before the tick looked; its own
   * then lasts as long as asked, at least one millisecond. The others are not concerned.
   */
  lemma AcquireExact(s: State, tick: nat, seen: int, seenLater: int, leaseMs: int, other: nat)
    requires Enabled(s, Acquire(tick, seen, seenLater, leaseMs)) && other != tick
    ensures var after := Next(s, Acquire(tick, seen, seenLater, leaseMs));
            && (tick in after.inside <==> s.leaseUntil.None? || s.leaseUntil.value < seen)
            && after.now == s.now && (other in after.inside <==> other in s.inside)
            && (other in s.inside ==> after.inside[other] == s.inside[other])
            && (tick !in after.inside ==> after.leaseUntil == s.leaseUntil)
            && (tick in after.inside ==>
                  && after.leaseUntil == Some(after.inside[tick])
                  && after.inside[tick] - seenLater == if leaseMs >= 1 then leaseMs else 1)
  {
  }

  /** No tick inside has outlived its lease. */
  predicate Punctual(s: State) {
    forall t :: t in s.inside ==> s.now <= s.inside[t]
  }

  ghost function After(s: State, steps: seq<Step>, n: nat): State
    requires n <= |steps|
  {
    if n == 0 then s else Next(After(s, steps, n - 1), steps[n - 1])
  }

  ghost predicate PunctualRun(s: State, steps: seq<Step>) {
    && (forall i :: 0 <= i < |steps| ==> Enabled(After(s, steps, i), steps[i]))
    && forall i :: 0 <= i <= |steps| ==> Punctual(After(s, steps, i))
  }

  /** At most one tick is inside, and the lease column is its lease. */
  predicate Exclusive(s: State) {
    && (forall t, u :: t in s.inside && u in s.inside ==> t == u)
    && forall t :: t in s.inside ==> s.leaseUntil == Some(s.inside[t])
  }

  lemma ExclusiveStep(s: State, step: Step)
    requires Exclusive(s) && Punctual(s) && Enabled(s, step)
    ensures Exclusive(Next(s, step))
  {
  }

  /** If every tick clears before its lease expires, at most one is ever inside. */
  lemma {:induction false} MutualExclusion(s: State, steps: seq<Step>, n: nat)
    requires Exclusive(s) && PunctualRun(s, steps) && n <= |steps|
    ensures Exclusive(After(s, steps, n))
  {
    if n > 0 {
      MutualExclusion(s, steps, n - 1);
      assert Punctual(After(s, steps, n - 1)) && Enabled(After(s, steps, n - 1), steps[n - 1]);
      ExclusiveStep(After(s, steps, n - 1), steps[n - 1]);
    }
  }

  /** A fresh tick can join a tick that is inside exactly when that tick has outlived its lease. */
  lemma IntrusionExact(s: State, holder: nat, tick: nat, leaseMs: int)
    requires Exclusive(s) && holder in s.inside && tick !in s.inside
    ensures !Punctual(s) <==>
            exists seen, later :: Enabled(s, Acquire(tick, seen, later, leaseMs))
                                  && holder in Next(s, Acquire(tick, seen, later, leaseMs)).inside
                                  && tick in Next(s, Acquire(tick, seen, later, leaseMs)).inside
  {
    if !Punctual(s) {
      var step := Acquire(tick, s.now, s.now, leaseMs);
      assert Enabled(s, step) && holder in Next(s, step).inside && tick in Next(s, step).inside;
    }
  }

  /** A tick that outlives its lease also ends a lease that is not its own when it clears. */
  lemma LateClearFreesOthers(s: State, late: nat, tick: nat, third: nat, leaseMs: int)
    requires Exclusive(s) && late in s.inside && !Punctual(s) && tick != late && third !in {late, tick}
    ensures var run := [Acquire(tick, s.now, s.now, leaseMs), Clear(late), Acquire(third, s.now, s.now, leaseMs)];
            && (forall i :: 0 <= i < 3 ==> Enabled(After(s, run, i), run[i]))
            && tick in After(s, run, 3).inside && third in After(s, run, 3).inside
  {
    var run := [Acquire(tick, s.now, s.now, leaseMs), Clear(late), Acquire(third, s.now, s.now, leaseMs)];
    assert After(s, run, 1) == Next(After(s, run, 0), run[0]);
    assert After(s, run, 2) == Next(After(s, run, 1), run[1]);
    assert After(s, run, 3) == Next(After(s, run, 2), run[2]);
  }

  /** A lease left by a crash blocks until its end, and no longer. */
  lemma AbandonedLeaseExpires(s: State, crashed: nat, tick: nat, leaseMs: int)
    requires Exclusive(s) && crashed in s.inside && tick !in s.inside
    ensures var end, left := s.inside[crashed], Next(s, Crash(crashed));
            && Enabled(s, Crash(crashed))
            && forall t :: t >= s.now ==>
                 var later := Next(left, Advance(t));
                 && Enabled(left, Advance(t)) && Enabled(later, Acquire(tick, t, t, leaseMs))
                 && (tick in Next(later, Acquire(tick, t, t, leaseMs)).inside <==> end < t)
  {
  }
}
