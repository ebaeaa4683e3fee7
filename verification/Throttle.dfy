/**
 The windowed throttle: every call is charged to a tick, and executes at once or when its tick comes.

 Time is in whole milliseconds; a timer set for a delay is taken to fire exactly when it is due.
 */
module Throttle {

  datatype State = State(currentTick: int, activeCount: int)

  /** A call made at `now`, charged to `tick` as the `slot`-th call of that tick. */
  datatype Charge = Charge(now: int, tick: int, slot: int) {
    /** When the call executes: at once if its tick has come, otherwise when it comes. */
    function ExecutedAt(): int {
      if tick > now then tick else now
    }
  }

  const INITIAL := State(0, 0)

  function Step(limit: int, interval: int, s: State, now: int): State {
    if now - s.currentTick > interval then State(now, 1)
    else if s.activeCount < limit then State(s.currentTick, s.activeCount + 1)
    else State(s.currentTick + interval, 1)
  }

  /** State after calls at the given times. */
  function After(limit: int, interval: int, times: seq<int>): State {
    if times == [] then INITIAL
    else Step(limit, interval, After(limit, interval, times[..|times|-1]), times[|times|-1])
  }

  /** What each call was charged to. */
  function Charges(limit: int, interval: int, times: seq<int>): (cs: seq<Charge>)
    ensures |cs| == |times|
  {
    if times == [] then []
    else
      var s := After(limit, interval, times);
      Charges(limit, interval, times[..|times|-1]) + [Charge(times[|times|-1], s.currentTick, s.activeCount)]
  }

  class WindowedThrottle {
    const limit: int
    const interval: int
    var currentTick: int
    var activeCount: int
    ghost var times: seq<int>

    ghost predicate Valid()
      reads this
    {
      State(currentTick, activeCount) == After(limit, interval, times)
    }

    constructor (limit: int, interval: int)
      ensures Valid() && times == [] && this.limit == limit && this.interval == interval
    {
      this.limit, this.interval := limit, interval;
      currentTick, activeCount, times := 0, 0, [];
    }

    method WindowedDelay(now: int) returns (delay: int)
      requires Valid()
      modifies this
      ensures Valid() && times == old(times) + [now]
      ensures delay == After(limit, interval, times).currentTick - now
    {
      times := times + [now];
      assert times[..|times|-1] == old(times);
      if now - currentTick > interval {
        activeCount := 1;
        currentTick := now;
        return 0;
      }
      if activeCount < limit {
        activeCount := activeCount + 1;
      } else {
        currentTick := currentTick + interval;
        activeCount := 1;
      }
      return currentTick - now;
    }

    /** A throttled call: when the wrapped function runs. Switched off, it runs at once and is not charged. */
    method Throttled(now: int, isEnabled: bool) returns (executedAt: int)
      requires Valid()
      modifies this
      ensures Valid() && times == if isEnabled then old(times) + [now] else old(times)
      ensures !isEnabled ==> executedAt == now && currentTick == old(currentTick) && activeCount == old(activeCount)
      ensures isEnabled ==> executedAt == Charges(limit, interval, times)[|times|-1].ExecutedAt()
    {
      if !isEnabled {
        return now;
      }
      var delay := WindowedDelay(now);
      executedAt := if delay > 0 then now + delay else now;
    }
  }

  // ---------- What the charges look like ----------

  ghost predicate Nondecreasing(times: seq<int>) {
    (times != [] ==> times[0] >= 0) && forall i, j :: 0 <= i < j < |times| ==> times[i] <= times[j]
  }

  function Quota(limit: int): int {
    if limit < 1 then 1 else limit
  }

  /** Slots within the quota, execution within one interval of the tick, and the only two ways to go on. */
  ghost predicate WellCharged(limit: int, interval: int, cs: seq<Charge>) {
    && (forall i :: 0 <= i < |cs| ==> 1 <= cs[i].slot <= Quota(limit) && cs[i].now - cs[i].tick <= interval)
    && (forall i :: 0 < i < |cs| ==> Follows(interval, cs[i-1], cs[i]))
  }

  predicate Follows(interval: int, c: Charge, d: Charge) {
    (d.tick == c.tick && d.slot == c.slot + 1) || (d.tick >= c.tick + interval && d.slot == 1)
  }

  lemma {:induction false} ChargesAreWell(limit: int, interval: int, times: seq<int>)
    requires interval > 0 && Nondecreasing(times)
    ensures WellCharged(limit, interval, Charges(limit, interval, times))
    ensures times == [] || var c, s := Charges(limit, interval, times)[|times|-1], After(limit, interval, times);
      c == Charge(times[|times|-1], s.currentTick, s.activeCount)
  {
    if times != [] {
      var front := times[..|times|-1];
      ChargesAreWell(limit, interval, front);
      if front != [] {
        assert front[|front|-1] <= times[|times|-1];
      } else {
        assert After(limit, interval, front) == INITIAL;
      }
    }
  }

  /**
   Each call executes between its tick and one interval later; two calls on one tick hold different slots out of at
   most `limit`, and different ticks are at least one interval apart.
   */
  lemma TickGuarantees(limit: int, interval: int, times: seq<int>, i: nat, j: nat)
    requires interval > 0 && Nondecreasing(times) && i < j < |times|
    ensures var c, d := Charges(limit, interval, times)[i], Charges(limit, interval, times)[j];
      && c.tick <= c.ExecutedAt() <= c.tick + interval
      && 1 <= c.slot <= Quota(limit) && 1 <= d.slot <= Quota(limit)
      && ((c.tick == d.tick && c.slot < d.slot) || d.tick >= c.tick + interval)
  {
    ChargesAreWell(limit, interval, times);
    LaterCharge(limit, interval, Charges(limit, interval, times), i, j);
  }

  lemma {:induction false} LaterCharge(limit: int, interval: int, cs: seq<Charge>, i: nat, j: nat)
    requires interval > 0 && WellCharged(limit, interval, cs) && i < j < |cs|
    ensures (cs[i].tick == cs[j].tick && cs[i].slot < cs[j].slot) || cs[j].tick >= cs[i].tick + interval
    decreases j
  {
    assert Follows(interval, cs[j-1], cs[j]);
    if i < j - 1 {
      LaterCharge(limit, interval, cs, i, j - 1);
    }
  }

  // ---------- How many calls execute in one interval ----------

  predicate InWindow(interval: int, c: Charge, start: int) {
    start <= c.ExecutedAt() < start + interval
  }

  /** Number of calls that execute in the half-open window of one interval from `start`. */
  function Executed(interval: int, cs: seq<Charge>, start: int): int {
    if cs == [] then 0
    else Executed(interval, cs[..|cs|-1], start) + if InWindow(interval, cs[|cs|-1], start) then 1 else 0
  }

  /** The first call of every tick executes on the tick itself. */
  ghost predicate TicksStartOnTime(cs: seq<Charge>) {
    forall i :: 0 <= i < |cs| && cs[i].slot == 1 ==> cs[i].ExecutedAt() == cs[i].tick
  }

  /** What the window can hold so far, given where the last tick lies; `late` is 1 if first calls may be late. */
  function Capacity(limit: int, interval: int, last: Charge, start: int, late: int): int {
    if last.tick < start - interval then 0
    else if last.tick < start then last.slot - 1 + late
    else if last.tick < start + interval then Quota(limit) - 1 + late + last.slot
    else 2 * Quota(limit) - 1 + late
  }

  lemma {:induction false} WindowCapacity(limit: int, interval: int, cs: seq<Charge>, start: int, late: int)
    requires interval > 0 && WellCharged(limit, interval, cs) && cs != []
    requires late == 1 || (late == 0 && TicksStartOnTime(cs))
    ensures Executed(interval, cs, start) <= Capacity(limit, interval, cs[|cs|-1], start, late)
  {
    var n := |cs| - 1;
    var front, last := cs[..n], cs[n];
    if n > 0 {
      assert Follows(interval, cs[n-1], cs[n]);
      WindowCapacity(limit, interval, front, start, late);
    } else {
      assert Executed(interval, front, start) == 0;
    }
  }

  /**
   Any window of one interval holds at most 2 * limit executions, and at most 2 * limit - 1 unless the clock starts
   within one interval of zero.
   */
  lemma WindowBound(limit: int, interval: int, times: seq<int>, start: int)
    requires interval > 0 && Nondecreasing(times)
    ensures Executed(interval, Charges(limit, interval, times), start) <= 2 * Quota(limit)
    ensures times != [] && times[0] > interval ==>
      Executed(interval, Charges(limit, interval, times), start) <= 2 * Quota(limit) - 1
  {
    ChargesAreWell(limit, interval, times);
    if times != [] {
      WindowCapacity(limit, interval, Charges(limit, interval, times), start, 1);
      if times[0] > interval {
        StartOnTime(limit, interval, times);
        WindowCapacity(limit, interval, Charges(limit, interval, times), start, 0);
      }
    }
  }

  lemma {:induction false} StartOnTime(limit: int, interval: int, times: seq<int>)
    requires interval > 0 && Nondecreasing(times) && times != [] && times[0] > interval
    ensures TicksStartOnTime(Charges(limit, interval, times))
    ensures After(limit, interval, times).activeCount >= 1
  {
    var n := |times| - 1;
    var front := times[..n];
    if n > 0 {
      StartOnTime(limit, interval, front);
    } else {
      assert After(limit, interval, front) == INITIAL;
    }
  }

  /**
   The bound is reached: one call, then 2 * limit - 1 calls exactly one interval later, all of which execute in the
   same window. So the limit holds per tick and not, as the option is documented, for every interval.
   */
  lemma WindowBoundReached(limit: int, interval: int, start: int)
    requires interval > 0 && limit >= 1 && start > interval
    ensures var times := Burst(limit, interval, start, 2 * limit - 1);
      Nondecreasing(times) && times[0] > interval
      && Executed(interval, Charges(limit, interval, times), start + interval) == 2 * limit - 1
  {
    BurstExecutes(limit, interval, start, 2 * limit - 1);
  }

  /** Within one interval of zero 2 * limit is reached: all calls come exactly one interval after zero. */
  lemma EarlyBoundReached(limit: int, interval: int)
    requires interval > 0 && limit >= 1
    ensures var times := Repeated(interval, 2 * limit);
      Nondecreasing(times) && Executed(interval, Charges(limit, interval, times), interval) == 2 * limit
  {
    EarlyBurstExecutes(limit, interval, 2 * limit);
  }

  function Repeated(time: int, n: nat): (times: seq<int>)
    ensures |times| == n && forall i :: 0 <= i < n ==> times[i] == time
  {
    if n == 0 then [] else Repeated(time, n - 1) + [time]
  }

  lemma {:induction false} EarlyBurstExecutes(limit: int, interval: int, n: nat)
    requires interval > 0 && limit >= 1 && n <= 2 * limit
    ensures var times := Repeated(interval, n);
      && After(limit, interval, times) == (if n <= limit then State(0, n) else State(interval, n - limit))
      && Executed(interval, Charges(limit, interval, times), interval) == n
  {
    hide After, Charges, Executed;
    if n == 0 {
      NoCalls(limit, interval, interval);
    } else {
      EarlyBurstExecutes(limit, interval, n - 1);
      OneMoreCall(limit, interval, Repeated(interval, n - 1), interval, interval);
    }
  }

  ghost predicate LimitHolds(limit: int, interval: int, times: seq<int>, start: int) {
    Nondecreasing(times) && times != [] && times[0] > interval ==>
      Executed(interval, Charges(limit, interval, times), start) <= limit
  }

  /** The documented limit per interval holds for every series of calls exactly when the limit is a single call. */
  lemma LimitHoldsExactly(limit: int, interval: int)
    requires interval > 0 && limit >= 1
    ensures (forall times, start :: LimitHolds(limit, interval, times, start)) <==> limit == 1
  {
    hide Executed, Charges, Nondecreasing;
    if limit == 1 {
      forall times, start ensures LimitHolds(limit, interval, times, start) {
        if Nondecreasing(times) && times != [] && times[0] > interval {
          WindowBound(limit, interval, times, start);
        }
      }
    } else {
      var start := interval + 1;
      WindowBoundReached(limit, interval, start);
      assert !LimitHolds(limit, interval, Burst(limit, interval, start, 2 * limit - 1), start + interval);
    }
  }

  function Burst(limit: int, interval: int, start: int, n: nat): (times: seq<int>)
    ensures |times| == n + 1 && times[0] == start
    ensures forall i :: 0 < i <= n ==> times[i] == start + interval
  {
    if n == 0 then [start] else Burst(limit, interval, start, n - 1) + [start + interval]
  }

  lemma {:induction false} BurstExecutes(limit: int, interval: int, start: int, n: nat)
    requires interval > 0 && limit >= 1 && start > interval && n <= 2 * limit - 1
    ensures var times := Burst(limit, interval, start, n);
      && After(limit, interval, times)
        == (if n < limit then State(start, n + 1) else State(start + interval, n - limit + 1))
      && Executed(interval, Charges(limit, interval, times), start + interval) == n
  {
    hide After, Charges, Executed;
    if n == 0 {
      OneMoreCall(limit, interval, [], start, start + interval);
      NoCalls(limit, interval, start + interval);
      assert [] + [start] == Burst(limit, interval, start, 0);
    } else {
      BurstExecutes(limit, interval, start, n - 1);
      OneMoreCall(limit, interval, Burst(limit, interval, start, n - 1), start + interval, start + interval);
    }
  }

  lemma NoCalls(limit: int, interval: int, start: int)
    ensures After(limit, interval, []) == INITIAL && Executed(interval, Charges(limit, interval, []), start) == 0
  {
  }

  lemma OneMoreCall(limit: int, interval: int, times: seq<int>, now: int, start: int)
    ensures var s := Step(limit, interval, After(limit, interval, times), now);
      && After(limit, interval, times + [now]) == s
      && Executed(interval, Charges(limit, interval, times + [now]), start)
        == Executed(interval, Charges(limit, interval, times), start)
          + if InWindow(interval, Charge(now, s.currentTick, s.activeCount), start) then 1 else 0
  {
  }

  // ---------- When exactly the calls of one moment execute ----------

  /** Where the first call at `now` finds the clock: the tick it joins if there is room, and the calls already on it. */
  function Found(interval: int, s: State, now: int): State {
    if now - s.currentTick > interval then State(now, 0) else s
  }

  /** The k-th of the calls at `now` is charged to the tick found as long as that has room. */
  lemma {:induction false} RoomOnTick(limit: int, interval: int, times: seq<int>, now: int, k: nat)
    requires interval >= 0 && limit >= 1
    requires var found := Found(interval, After(limit, interval, times), now); k < limit - found.activeCount
    ensures var found := Found(interval, After(limit, interval, times), now);
      After(limit, interval, times + Repeated(now, k + 1)) == State(found.currentTick, found.activeCount + k + 1)
    decreases k
  {
    if k > 0 {
      RoomOnTick(limit, interval, times, now, k - 1);
    } else {
      assert times + Repeated(now, 0) == times;
    }
    RepeatOnce(limit, interval, times, now, k);
  }

  lemma RepeatOnce(limit: int, interval: int, times: seq<int>, now: int, k: nat)
    ensures After(limit, interval, times + Repeated(now, k + 1))
      == Step(limit, interval, After(limit, interval, times + Repeated(now, k)), now)
  {
    var all := times + Repeated(now, k + 1);
    assert all[..|all|-1] == times + Repeated(now, k);
  }

  /** One more call behind a tick that is full, or behind one of the ticks after it. */
  lemma StepBehind(limit: int, interval: int, now: int, tick: int, ahead: int, r: nat)
    requires interval >= 0 && limit >= 1 && r < limit && ahead >= 0 && now - tick <= interval
    ensures var before := if r > 0 then State(tick + ahead + interval, r) else State(tick + ahead, limit);
      Step(limit, interval, before, now) == State(tick + ahead + interval, r + 1)
  {
  }

  /** Behind the calls that find room, each further `limit` calls get the next tick, one interval later. */
  lemma {:induction false} BehindTick(
    limit: int, interval: int, times: seq<int>, now: int, found: State, free: nat, q: nat, r: nat, k: nat)
    requires interval >= 0 && limit >= 1 && r < limit
    requires found == Found(interval, After(limit, interval, times), now)
    requires free == limit - found.activeCount && k == free + q * limit + r
    ensures After(limit, interval, times + Repeated(now, k + 1))
      == State(found.currentTick + (q + 1) * interval, r + 1)
    decreases q, r
  {
    hide After, Step;
    NotBefore(q, interval);
    NotBefore(q, limit);
    assert now - found.currentTick <= interval;
    StepBehind(limit, interval, now, found.currentTick, q * interval, r);
    RepeatOnce(limit, interval, times, now, k);
    if r > 0 {
      BehindTick(limit, interval, times, now, found, free, q, r - 1, k - 1);
    } else if q > 0 {
      NotBefore(q - 1, limit);
      BehindTick(limit, interval, times, now, found, free, q - 1, limit - 1, k - 1);
    } else {
      FullTick(limit, interval, times, now, found, free);
    }
  }

  /** The tick found is full once as many calls have come as had room on it. */
  lemma FullTick(limit: int, interval: int, times: seq<int>, now: int, found: State, free: nat)
    requires interval >= 0 && limit >= 1
    requires found == Found(interval, After(limit, interval, times), now) && free == limit - found.activeCount
    ensures After(limit, interval, times + Repeated(now, free)) == State(found.currentTick, limit)
  {
    if free > 0 {
      RoomOnTick(limit, interval, times, now, free - 1);
    } else {
      assert times + Repeated(now, 0) == times;
    }
  }

  lemma NotBefore(q: nat, d: int)
    requires d >= 0
    ensures q * d >= 0 && (q + 1) * d == q * d + d
  {
  }

  /**
   When the k-th of any number of calls at one moment executes, whatever was called before: the calls that find room on
   the current tick, or on a new one at the moment itself when that is more than an interval old, execute when it comes;
   behind them every `limit` calls execute on the next tick, one interval later each.
   */
  lemma ExecutesExactly(limit: int, interval: int, times: seq<int>, now: int, n: nat, k: nat, q: nat, r: nat)
    requires interval > 0 && limit >= 1 && k < n && r < limit && Nondecreasing(times)
    ensures var all := times + Repeated(now, n);
      var s := After(limit, interval, times);
      var late := now - s.currentTick > interval;
      var tick := if late then now else s.currentTick;
      var free := if late then limit else limit - s.activeCount;
      var executedAt := Charges(limit, interval, all)[|times| + k].ExecutedAt();
      && 0 <= free <= limit
      && (k < free ==> executedAt == if tick > now then tick else now)
      && (k == free + q * limit + r ==>
        executedAt == if tick + (q + 1) * interval > now then tick + (q + 1) * interval else now)
  {
    hide After, Charges;
    var all := times + Repeated(now, n);
    ChargeAt(limit, interval, all, |times| + k);
    assert all[..|times| + k + 1] == times + Repeated(now, k + 1);
    SlotsWithin(limit, interval, times);
    var found := Found(interval, After(limit, interval, times), now);
    var free := limit - found.activeCount;
    if k < free {
      RoomOnTick(limit, interval, times, now, k);
    }
    if k == free + q * limit + r {
      BehindTick(limit, interval, times, now, found, free, q, r, k);
    }
  }

  lemma SlotsWithin(limit: int, interval: int, times: seq<int>)
    requires interval > 0 && limit >= 1 && Nondecreasing(times)
    ensures 0 <= After(limit, interval, times).activeCount <= limit
  {
    ChargesAreWell(limit, interval, times);
  }

  lemma {:induction false} ChargeAt(limit: int, interval: int, times: seq<int>, i: nat)
    requires i < |times|
    ensures var s := After(limit, interval, times[..i+1]);
      Charges(limit, interval, times)[i] == Charge(times[i], s.currentTick, s.activeCount)
  {
    if i < |times| - 1 {
      ChargeAt(limit, interval, times[..|times|-1], i);
      assert times[..|times|-1][..i+1] == times[..i+1];
    } else {
      assert times[..i+1] == times;
    }
  }
}
