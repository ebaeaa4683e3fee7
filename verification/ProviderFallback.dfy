/**
 Failover between RPC providers: after a recoverable error the next provider is the one whose last error is the
 longest ago. Calls do not overlap.
 */
module ProviderFallback {
  import Sorting

  /** What one attempt ends with, and the clock reading when a failure is handled. */
  datatype Reply = Success | Unrecoverable | Recoverable(at: real)

  datatype Result = Returned | ThrewUnrecoverable | ThrewRecoverable

  /** Current provider, and per provider the time of its last error. */
  datatype State = State(providerIndex: nat, lastErrorTimestamp: seq<real>)

  ghost predicate Valid(s: State) {
    |s.lastErrorTimestamp| >= 2 && s.providerIndex < |s.lastErrorTimestamp|
  }

  /** First index of a least element, as `minBy` finds it over the entries in index order. */
  function MinIndex(s: seq<real>): (i: nat)
    requires s != []
    ensures i < |s| && forall k :: 0 <= k < |s| ==> s[i] <= s[k]
    ensures forall k :: 0 <= k < i ==> s[i] < s[k]
  {
    if |s| == 1 then 0
    else
      var i := MinIndex(s[..|s|-1]);
      if s[|s|-1] < s[i] then |s| - 1 else i
  }

  function ElectNewProvider(s: State, failed: nat, now: real): State
    requires Valid(s) && failed < |s.lastErrorTimestamp|
  {
    var timestamps := s.lastErrorTimestamp[failed := now];
    State(MinIndex(timestamps), timestamps)
  }

  datatype Trace = Trace(final: State, attempts: seq<nat>, result: Result)

  /** The rest of a call after `retried` failures; `replies[k]` is what the k-th attempt of the call meets. */
  function Execute(s: State, replies: seq<Reply>, retried: nat): Trace
    requires Valid(s) && retried < |s.lastErrorTimestamp| <= |replies|
    decreases |s.lastErrorTimestamp| - retried
  {
    var used := s.providerIndex;
    match replies[retried]
    case Success => Trace(s, [used], Returned)
    case Unrecoverable => Trace(s, [used], ThrewUnrecoverable)
    case Recoverable(at) =>
      if retried == |s.lastErrorTimestamp| - 1 then Trace(s, [used], ThrewRecoverable)
      else
        var rest := Execute(ElectNewProvider(s, used, at), replies, retried + 1);
        rest.(attempts := [used] + rest.attempts)
  }

  // ---------- What a call does, reply by reply ----------

  /** Times of the last errors after the given attempts failed at the readings of their replies. */
  function ErrorsAfter(before: seq<real>, attempts: seq<nat>, replies: seq<Reply>): (after: seq<real>)
    requires |attempts| <= |replies| && forall i :: 0 <= i < |attempts| ==> replies[i].Recoverable?
    ensures |after| == |before|
    decreases |attempts|
  {
    if attempts == [] then before
    else
      var used := attempts[0];
      var failed := if used < |before| then before[used := replies[0].at] else before;
      ErrorsAfter(failed, attempts[1..], replies[1..])
  }

  /** `i` is the first of the providers whose last error is the longest ago. */
  ghost predicate LongestAgo(errors: seq<real>, i: nat) {
    && i < |errors|
    && (forall k :: 0 <= k < |errors| ==> errors[i] <= errors[k])
    && forall k :: 0 <= k < i ==> errors[i] < errors[k]
  }

  /**
   A call that may fail over `left - 1` times ends with the first reply that is no recoverable error, or with the last
   one allowed; it starts on the current provider and goes on with the one whose last error is the longest ago.
   */
  ghost predicate Follows(s: State, replies: seq<Reply>, left: nat, t: Trace) {
    var n := |t.attempts|;
    && 1 <= n <= left && n <= |replies|
    && (forall i :: 0 <= i < n - 1 ==> replies[i].Recoverable?)
    && (t.result.Returned? <==> replies[n-1].Success?)
    && (t.result.ThrewUnrecoverable? <==> replies[n-1].Unrecoverable?)
    && (t.result.ThrewRecoverable? ==> n == left)
    && t.attempts[0] == s.providerIndex
    && (forall i :: 0 < i < n ==>
      LongestAgo(ErrorsAfter(s.lastErrorTimestamp, t.attempts[..i], replies), t.attempts[i]))
    && t.final == State(t.attempts[n-1], ErrorsAfter(s.lastErrorTimestamp, t.attempts[..n-1], replies))
  }

  lemma {:induction false} ExecuteFollows(s: State, replies: seq<Reply>, retried: nat)
    requires Valid(s) && retried < |s.lastErrorTimestamp| <= |replies|
    ensures Follows(s, replies[retried..], |s.lastErrorTimestamp| - retried, Execute(s, replies, retried))
    decreases |s.lastErrorTimestamp| - retried
  {
    hide LongestAgo, MinIndex;
    var n, reply := |s.lastErrorTimestamp|, replies[retried];
    assert replies[retried..][0] == reply;
    if reply.Recoverable? && retried < n - 1 {
      var s' := ElectNewProvider(s, s.providerIndex, reply.at);
      ExecuteFollows(s', replies, retried + 1);
      assert replies[retried..][1..] == replies[retried+1..];
      ElectsLongestAgo(s, s.providerIndex, reply.at);
      FollowsOneMore(s, s', replies[retried..], n - retried, Execute(s', replies, retried + 1));
    } else {
      assert Execute(s, replies, retried).attempts[..0] == [];
    }
  }

  lemma ElectsLongestAgo(s: State, failed: nat, now: real)
    requires Valid(s) && failed < |s.lastErrorTimestamp|
    ensures LongestAgo(s.lastErrorTimestamp[failed := now], ElectNewProvider(s, failed, now).providerIndex)
  {
  }

  lemma FollowsOneMore(s: State, s': State, replies: seq<Reply>, left: nat, rest: Trace)
    requires Valid(s) && left >= 1 && replies != [] && replies[0].Recoverable?
    requires s'.lastErrorTimestamp == s.lastErrorTimestamp[s.providerIndex := replies[0].at]
    requires LongestAgo(s'.lastErrorTimestamp, s'.providerIndex) && Follows(s', replies[1..], left - 1, rest)
    ensures Follows(s, replies, left, rest.(attempts := [s.providerIndex] + rest.attempts))
  {
    hide LongestAgo;
    var t := rest.(attempts := [s.providerIndex] + rest.attempts);
    var n := |t.attempts|;
    forall i | 0 <= i < n - 1 ensures replies[i].Recoverable? {
      if i > 0 {
        assert replies[1..][i-1] == replies[i];
      }
    }
    forall i | 0 < i < n
      ensures ErrorsAfter(s.lastErrorTimestamp, t.attempts[..i], replies)
        == ErrorsAfter(s'.lastErrorTimestamp, rest.attempts[..i-1], replies[1..])
    {
      assert t.attempts[..i][1..] == rest.attempts[..i-1];
    }
    assert replies[n-1] == replies[1..][n-2];
    assert rest.attempts[..0] == [];
  }

  /** A whole call: how it ends, which providers it uses, and what it remembers of them. */
  lemma CallFollowsReplies(s: State, replies: seq<Reply>)
    requires Valid(s) && |s.lastErrorTimestamp| <= |replies|
    ensures Follows(s, replies, |s.lastErrorTimestamp|, Execute(s, replies, 0))
  {
    ExecuteFollows(s, replies, 0);
    assert replies[0..] == replies;
  }

  // ---------- No provider twice in one call ----------

  /** Every recorded error is no later than `clock`. */
  ghost predicate UpTo(s: State, clock: real) {
    forall i :: 0 <= i < |s.lastErrorTimestamp| ==> s.lastErrorTimestamp[i] <= clock
  }

  /** Failures are handled at `clock` or later, in any order and possibly at equal readings. */
  ghost predicate NotBefore(replies: seq<Reply>, clock: real) {
    forall i :: 0 <= i < |replies| && replies[i].Recoverable? ==> replies[i].at >= clock
  }

  /** Provider `i` with its last error at `a` is elected before any provider with an error at `b`. */
  ghost predicate ElectedBefore(i: nat, a: real, b: real) {
    a < b || (i == 0 && a == b)
  }

  /** No failure of the call comes at the reading of an old error, except of the first provider or the current one. */
  ghost predicate NoTies(s: State, replies: seq<Reply>) {
    forall i: nat, k ::
      i < |s.lastErrorTimestamp| && i != s.providerIndex && 0 <= k < |replies| && replies[k].Recoverable? ==>
        ElectedBefore(i, s.lastErrorTimestamp[i], replies[k].at)
  }

  /** Providers that have not failed in this call are elected before those that have, and stay so. */
  ghost predicate UntriedFirst(s: State, replies: seq<Reply>, failed: set<nat>, spared: set<nat>) {
    && (forall i :: i in failed ==> i < |s.lastErrorTimestamp|)
    && (forall i: nat, k ::
      i < |s.lastErrorTimestamp| && i !in failed + spared && 0 <= k < |replies| && replies[k].Recoverable? ==>
        ElectedBefore(i, s.lastErrorTimestamp[i], replies[k].at))
    && (forall i: nat, f :: i < |s.lastErrorTimestamp| && i !in failed + spared && f in failed ==>
      ElectedBefore(i, s.lastErrorTimestamp[i], s.lastErrorTimestamp[f]))
  }

  /** As long as some provider has not failed in this call, one of those is chosen. */
  lemma NextIsUntried(s: State, replies: seq<Reply>, failed: set<nat>)
    requires Valid(s) && UntriedFirst(s, replies, failed, {}) && |failed| < |s.lastErrorTimestamp|
    ensures MinIndex(s.lastErrorTimestamp) !in failed
  {
    var i := Untried(failed, |s.lastErrorTimestamp|);
    var least := MinIndex(s.lastErrorTimestamp);
    assert s.lastErrorTimestamp[least] <= s.lastErrorTimestamp[i];
    assert least in failed ==> ElectedBefore(i, s.lastErrorTimestamp[i], s.lastErrorTimestamp[least]);
  }

  lemma Untried(failed: set<nat>, n: nat) returns (i: nat)
    requires |failed| < n
    ensures i < n && i !in failed
  {
    if n - 1 !in failed {
      return n - 1;
    }
    i := Untried(failed - {n - 1}, n - 1);
  }

  /** The attempts of the rest of a call: pairwise different, none of them failed before, all of them if it throws. */
  ghost predicate FairRest(n: nat, failed: set<nat>, t: Trace) {
    && Sorting.Distinct(t.attempts) && 1 <= |t.attempts| <= n - |failed|
    && (forall a :: a in t.attempts ==> a < n && a !in failed)
    && (t.result.ThrewRecoverable? ==> |t.attempts| == n - |failed|)
  }

  lemma {:induction false} CallIsFair(s: State, replies: seq<Reply>, failed: set<nat>)
    requires Valid(s) && |failed| < |s.lastErrorTimestamp| <= |replies|
    requires UntriedFirst(s, replies, failed, {s.providerIndex}) && s.providerIndex !in failed
    ensures FairRest(|s.lastErrorTimestamp|, failed, Execute(s, replies, |failed|))
    decreases |s.lastErrorTimestamp| - |failed|
  {
    hide MinIndex, FairRest, UntriedFirst;
    var used, retried, n := s.providerIndex, |failed|, |s.lastErrorTimestamp|;
    if replies[retried].Recoverable? && retried < n - 1 {
      var s' := ElectNewProvider(s, used, replies[retried].at);
      var failed' := failed + {used};
      OneMoreFailed(s, replies, failed, retried);
      NextIsUntried(s', replies, failed');
      CallIsFair(s', replies, failed');
      PrependAttempt(n, failed, used, Execute(s', replies, retried + 1));
    } else {
      SingleAttempt(n, failed, used, Execute(s, replies, retried));
    }
  }

  lemma OneMoreFailed(s: State, replies: seq<Reply>, failed: set<nat>, k: nat)
    requires Valid(s) && k < |replies| && replies[k].Recoverable? && s.providerIndex !in failed
    requires UntriedFirst(s, replies, failed, {s.providerIndex})
    ensures var s' := ElectNewProvider(s, s.providerIndex, replies[k].at);
      && UntriedFirst(s', replies, failed + {s.providerIndex}, {})
      && UntriedFirst(s', replies, failed + {s.providerIndex}, {s'.providerIndex})
  {
    hide MinIndex;
  }

  lemma SingleAttempt(n: nat, failed: set<nat>, used: nat, t: Trace)
    requires used < n && used !in failed && |failed| < n && t.attempts == [used]
    requires t.result.ThrewRecoverable? ==> |failed| == n - 1
    ensures FairRest(n, failed, t)
  {
  }

  lemma PrependAttempt(n: nat, failed: set<nat>, used: nat, rest: Trace)
    requires used < n && used !in failed && FairRest(n, failed + {used}, rest)
    ensures FairRest(n, failed, rest.(attempts := [used] + rest.attempts))
  {
  }

  /**
   One call without ties: it tries pairwise different providers, at most each one once, and lets a recoverable error
   out only after every provider failed exactly once.
   */
  lemma CallTriesEachOnce(s: State, replies: seq<Reply>)
    requires Valid(s) && |replies| >= |s.lastErrorTimestamp| && NoTies(s, replies)
    ensures var t := Execute(s, replies, 0);
      && Sorting.Distinct(t.attempts) && 1 <= |t.attempts| <= |s.lastErrorTimestamp|
      && (t.result.ThrewRecoverable? ==>
        |t.attempts| == |s.lastErrorTimestamp| && forall p: nat :: p < |s.lastErrorTimestamp| ==> p in t.attempts)
  {
    hide Execute;
    CallIsFair(s, replies, {});
    var t := Execute(s, replies, 0);
    if t.result.ThrewRecoverable? {
      AllTried(t.attempts, |s.lastErrorTimestamp|);
    }
  }

  /** n different numbers below n are all of them. */
  lemma AllTried(attempts: seq<nat>, n: nat)
    requires Sorting.Distinct(attempts) && |attempts| == n && forall a :: a in attempts ==> a < n
    ensures forall p: nat :: p < n ==> p in attempts
  {
    var seen := Elements(attempts);
    DistinctCount(attempts);
    if p: nat :| p < n && p !in attempts {
      assert p !in seen && |seen + {p}| == |seen| + 1;
      BoundedCount(seen + {p}, n);
    }
  }

  function Elements(s: seq<nat>): set<nat> {
    set a | a in s
  }

  lemma {:induction false} DistinctCount(s: seq<nat>)
    requires Sorting.Distinct(s)
    ensures |Elements(s)| == |s|
  {
    if s != [] {
      var front, last := s[..|s|-1], s[|s|-1];
      DistinctCount(front);
      assert last !in front;
      assert forall a :: a in s <==> a in front || a == last;
      assert Elements(s) == Elements(front) + {last};
    }
  }

  lemma {:induction false} BoundedCount(s: set<nat>, n: nat)
    requires forall a :: a in s ==> a < n
    ensures |s| <= n
  {
    if n > 0 {
      BoundedCount(s - {n - 1}, n - 1);
    } else {
      assert s == {};
    }
  }

  // ---------- Exactly when a call may repeat a provider ----------

  /** Only the current provider and the first one may have their last error at `clock`. */
  ghost predicate NoOldTie(s: State, clock: real) {
    forall i: nat :: i < |s.lastErrorTimestamp| && i != s.providerIndex && s.lastErrorTimestamp[i] == clock ==> i == 0
  }

  ghost predicate NeverRepeats(s: State, clock: real)
    requires Valid(s)
  {
    forall replies :: |replies| >= |s.lastErrorTimestamp| && NotBefore(replies, clock) ==>
      Sorting.Distinct(Execute(s, replies, 0).attempts)
  }

  /**
   From a state with no error after `clock`, whatever a call meets from then on it uses pairwise different providers,
   exactly when no provider but the current and the first one had its last error at `clock` itself.
   */
  lemma NeverRepeatsExactly(s: State, clock: real)
    requires Valid(s) && UpTo(s, clock)
    ensures NeverRepeats(s, clock) <==> NoOldTie(s, clock)
  {
    hide Execute;
    if NoOldTie(s, clock) {
      forall replies | |replies| >= |s.lastErrorTimestamp| && NotBefore(replies, clock)
        ensures Sorting.Distinct(Execute(s, replies, 0).attempts)
      {
        CallTriesEachOnce(s, replies);
      }
    } else {
      var i: nat :| i < |s.lastErrorTimestamp| && i != s.providerIndex && s.lastErrorTimestamp[i] == clock && i != 0;
      var replies := AllFailAt(clock, |s.lastErrorTimestamp|);
      TieRepeats(s, replies, {}, i, clock);
      assert NotBefore(replies, clock);
    }
  }

  function AllFailAt(clock: real, n: nat): (replies: seq<Reply>)
    ensures |replies| == n && forall k :: 0 <= k < n ==> replies[k] == Recoverable(clock)
  {
    seq(n, k => Recoverable(clock))
  }

  /** When all attempts fail at the reading of a waiting provider, some provider is tried again before that one. */
  lemma {:induction false} TieRepeats(s: State, replies: seq<Reply>, failed: set<nat>, i: nat, clock: real)
    requires Valid(s) && UpTo(s, clock) && |failed| < |s.lastErrorTimestamp| <= |replies|
    requires forall k :: 0 <= k < |replies| ==> replies[k] == Recoverable(clock)
    requires (forall f :: f in failed ==> f < |s.lastErrorTimestamp|) && s.providerIndex !in failed
    requires 0 < i < |s.lastErrorTimestamp| && i !in failed && i != s.providerIndex && s.lastErrorTimestamp[i] == clock
    ensures var attempts := Execute(s, replies, |failed|).attempts;
      !(Sorting.Distinct(attempts) && forall a :: a in attempts ==> a !in failed)
    decreases |s.lastErrorTimestamp| - |failed|
  {
    hide MinIndex, Sorting.Distinct;
    var n, used, failed' := |s.lastErrorTimestamp|, s.providerIndex, failed + {s.providerIndex};
    BoundedCount(failed' + {i}, n);
    assert |failed' + {i}| == |failed| + 2;
    var s' := ElectNewProvider(s, used, clock);
    var rest := Execute(s', replies, |failed'|).attempts;
    assert Execute(s, replies, |failed|).attempts == [used] + rest;
    TiedIsNotNext(s'.lastErrorTimestamp, i, clock);
    if s'.providerIndex in failed' {
      FirstAttempt(s', replies, |failed'|);
    } else {
      TieRepeats(s', replies, failed', i, clock);
    }
    NotFairAfter(used, rest, failed);
  }

  lemma TiedIsNotNext(timestamps: seq<real>, i: nat, clock: real)
    requires 0 < i < |timestamps| && timestamps[i] == clock
    requires forall k :: 0 <= k < |timestamps| ==> timestamps[k] <= clock
    ensures MinIndex(timestamps) != i
  {
    var least := MinIndex(timestamps);
    assert least > 0 ==> timestamps[least] < timestamps[0];
  }

  lemma FirstAttempt(s: State, replies: seq<Reply>, retried: nat)
    requires Valid(s) && retried < |s.lastErrorTimestamp| <= |replies|
    ensures s.providerIndex in Execute(s, replies, retried).attempts
  {
    assert Execute(s, replies, retried).attempts[0] == s.providerIndex;
  }

  lemma NotFairAfter(used: nat, rest: seq<nat>, failed: set<nat>)
    requires !(Sorting.Distinct(rest) && forall a :: a in rest ==> a !in failed + {used})
    ensures !(Sorting.Distinct([used] + rest) && forall a :: a in [used] + rest ==> a !in failed)
  {
    var attempts := [used] + rest;
    if Sorting.Distinct(attempts) && forall a :: a in attempts ==> a !in failed {
      forall x, y | 0 <= x < y < |rest| ensures rest[x] != rest[y] {
        assert attempts[x+1] == rest[x] && attempts[y+1] == rest[y];
      }
      forall a | a in rest ensures a !in failed + {used} {
        var x :| 0 <= x < |rest| && rest[x] == a;
        assert attempts[0] != attempts[x+1];
      }
    }
  }

  // ---------- Any history of calls ----------

  /** Replies met by each call of a history, with the clock reading by which the call is over. */
  datatype Call = Call(replies: seq<Reply>, end: real)

  /** Clock reading after which the c-th call runs. */
  ghost function Begin(calls: seq<Call>, start: real, c: nat): real
    requires c <= |calls|
  {
    if c == 0 then start else calls[c-1].end
  }

  ghost predicate HistoryTimes(n: nat, calls: seq<Call>, start: real) {
    forall c :: 0 <= c < |calls| ==>
      && |calls[c].replies| >= n
      && NotBefore(calls[c].replies, Begin(calls, start, c))
      && Begin(calls, start, c) <= calls[c].end
      && forall k :: 0 <= k < |calls[c].replies| && calls[c].replies[k].Recoverable? ==>
        calls[c].replies[k].at <= calls[c].end
  }

  /** State before the c-th call. */
  ghost function Before(s: State, calls: seq<Call>, c: nat): State
    requires Valid(s) && c <= |calls| && forall i :: 0 <= i < |calls| ==> |calls[i].replies| >= |s.lastErrorTimestamp|
    ensures Valid(Before(s, calls, c)) && |Before(s, calls, c).lastErrorTimestamp| == |s.lastErrorTimestamp|
  {
    if c == 0 then s
    else
      var previous := Before(s, calls, c - 1);
      ExecuteKeepsValid(previous, calls[c-1].replies, 0);
      Execute(previous, calls[c-1].replies, 0).final
  }

  lemma {:induction false} ExecuteKeepsValid(s: State, replies: seq<Reply>, retried: nat)
    requires Valid(s) && retried < |s.lastErrorTimestamp| <= |replies|
    ensures var f := Execute(s, replies, retried).final;
      Valid(f) && |f.lastErrorTimestamp| == |s.lastErrorTimestamp|
    decreases |s.lastErrorTimestamp| - retried
  {
    if replies[retried].Recoverable? && retried < |s.lastErrorTimestamp| - 1 {
      ExecuteKeepsValid(ElectNewProvider(s, s.providerIndex, replies[retried].at), replies, retried + 1);
    }
  }

  lemma {:induction false} ErrorsUpTo(s: State, replies: seq<Reply>, retried: nat, end: real)
    requires Valid(s) && retried < |s.lastErrorTimestamp| <= |replies| && UpTo(s, end)
    requires forall k :: 0 <= k < |replies| && replies[k].Recoverable? ==> replies[k].at <= end
    ensures UpTo(Execute(s, replies, retried).final, end)
    decreases |s.lastErrorTimestamp| - retried
  {
    if replies[retried].Recoverable? && retried < |s.lastErrorTimestamp| - 1 {
      ErrorsUpTo(ElectNewProvider(s, s.providerIndex, replies[retried].at), replies, retried + 1, end);
    }
  }

  lemma {:induction false} ErrorsStayInPast(s: State, calls: seq<Call>, start: real, c: nat)
    requires Valid(s) && UpTo(s, start) && HistoryTimes(|s.lastErrorTimestamp|, calls, start) && c <= |calls|
    ensures UpTo(Before(s, calls, c), Begin(calls, start, c))
  {
    if c > 0 {
      hide UpTo, Execute;
      ErrorsStayInPast(s, calls, start, c - 1);
      UpToLater(Before(s, calls, c - 1), Begin(calls, start, c - 1), calls[c-1].end);
      ErrorsUpTo(Before(s, calls, c - 1), calls[c-1].replies, 0, calls[c-1].end);
    }
  }

  lemma UpToLater(s: State, clock: real, later: real)
    requires UpTo(s, clock) && clock <= later
    ensures UpTo(s, later)
  {
  }

  /**
   In any history of calls that do not overlap, under a clock that does not go back: a call that meets no tie, in
   particular one that only fails later than all calls before it, is fair.
   */
  lemma EveryCallTriesEachOnce(s: State, calls: seq<Call>, start: real, c: nat)
    requires Valid(s) && UpTo(s, start) && HistoryTimes(|s.lastErrorTimestamp|, calls, start) && c < |calls|
    requires var replies, begin := calls[c].replies, Begin(calls, start, c);
      || NoOldTie(Before(s, calls, c), begin)
      || forall k :: 0 <= k < |replies| && replies[k].Recoverable? ==> replies[k].at > begin
    ensures var t := Execute(Before(s, calls, c), calls[c].replies, 0);
      && Sorting.Distinct(t.attempts) && 1 <= |t.attempts| <= |s.lastErrorTimestamp|
      && (t.result.ThrewRecoverable? ==> forall p: nat :: p < |s.lastErrorTimestamp| ==> p in t.attempts)
  {
    hide Execute, Before;
    ErrorsStayInPast(s, calls, start, c);
    CallTriesEachOnce(Before(s, calls, c), calls[c].replies);
  }

  /** In any such history, the next call can repeat a provider exactly when an old error is tied with its start. */
  lemma NextCallExactly(s: State, calls: seq<Call>, start: real, c: nat)
    requires Valid(s) && UpTo(s, start) && HistoryTimes(|s.lastErrorTimestamp|, calls, start) && c <= |calls|
    ensures NeverRepeats(Before(s, calls, c), Begin(calls, start, c))
      <==> NoOldTie(Before(s, calls, c), Begin(calls, start, c))
  {
    hide Before, NeverRepeats, NoOldTie, UpTo;
    ErrorsStayInPast(s, calls, start, c);
    NeverRepeatsExactly(Before(s, calls, c), Begin(calls, start, c));
  }

  /**
   Such ties are reachable: with two providers as they start, one failure in each of two calls leaves the second one
   with an error at the last reading, and a third call at that reading may fail twice on the first provider.
   */
  lemma TiesRetryTheSameProvider(s: State, calls: seq<Call>)
    requires s == State(0, [10.0, 9.0])
    requires calls == [Call([Recoverable(11.0), Success], 11.0), Call([Recoverable(12.0), Success], 12.0)]
    ensures Valid(s) && UpTo(s, 10.0) && HistoryTimes(2, calls, 10.0)
    ensures !NeverRepeats(Before(s, calls, 2), Begin(calls, 10.0, 2))
  {
    hide NeverRepeats;
    FailOverFrom(s, 11.0, 1);
    assert Before(s, calls, 1) == State(1, [11.0, 9.0]);
    FailOverFrom(State(1, [11.0, 9.0]), 12.0, 0);
    assert Before(s, calls, 2) == State(0, [11.0, 12.0]);
    assert State(0, [11.0, 12.0]).lastErrorTimestamp[1] == 12.0;
    NextCallExactly(s, calls, 10.0, 2);
  }

  lemma LeastOfTwo(a: real, b: real)
    ensures MinIndex([a, b]) == if b < a then 1 else 0
  {
    assert [a, b][..1] == [a];
  }

  /** One failure of the current of two providers, after which the elected one succeeds. */
  lemma FailOverFrom(s: State, at: real, next: nat)
    requires Valid(s) && |s.lastErrorTimestamp| == 2
    requires var ts := s.lastErrorTimestamp[s.providerIndex := at]; next == if ts[1] < ts[0] then 1 else 0
    ensures Execute(s, [Recoverable(at), Success], 0).final
      == State(next, s.lastErrorTimestamp[s.providerIndex := at])
  {
    var ts := s.lastErrorTimestamp[s.providerIndex := at];
    LeastOfTwo(ts[0], ts[1]);
    assert ts == [ts[0], ts[1]];
    assert ElectNewProvider(s, s.providerIndex, at) == State(next, ts);
  }

  // ---------- The provider object ----------

  class ProviderWithFallback {
    var providerIndex: nat
    var lastErrorTimestamp: seq<real>

    ghost function Abs(): State
      reads this
    {
      State(providerIndex, lastErrorTimestamp)
    }

    /** Begin values: `now[i]` is the clock reading when the i-th provider is set up. */
    constructor (now: seq<real>)
      requires |now| >= 2 && forall i, j :: 0 <= i < j < |now| ==> now[i] <= now[j]
      ensures Valid(Abs()) && providerIndex == 0 && |lastErrorTimestamp| == |now|
      ensures UpTo(Abs(), now[|now|-1])
      ensures forall i :: 0 <= i < |now| ==> lastErrorTimestamp[i] == now[i] - i as real
    {
      providerIndex := 0;
      lastErrorTimestamp := seq(|now|, i requires 0 <= i < |now| => now[i] - i as real);
    }

    method ElectNewProviderOrFail(error: Reply, retryNumber: nat, lastUsedProviderIndex: nat)
      returns (thrown: bool)
      requires Valid(Abs()) && !error.Success? && lastUsedProviderIndex < |lastErrorTimestamp|
      modifies this
      ensures thrown <==> error.Unrecoverable? || retryNumber == |lastErrorTimestamp| - 1
      ensures Abs() == if thrown then old(Abs()) else ElectNewProvider(old(Abs()), lastUsedProviderIndex, error.at)
    {
      if error.Unrecoverable? {
        return true;
      }
      if retryNumber == |lastErrorTimestamp| - 1 {
        return true;
      }
      lastErrorTimestamp := lastErrorTimestamp[lastUsedProviderIndex := error.at];
      providerIndex := MinIndex(lastErrorTimestamp);
      return false;
    }

    method DoExecuteWithFallback(alreadyRetriedCount: nat, replies: seq<Reply>)
      returns (result: Result, attempts: seq<nat>)
      requires Valid(Abs()) && alreadyRetriedCount < |lastErrorTimestamp| <= |replies|
      modifies this
      ensures Trace(Abs(), attempts, result) == Execute(old(Abs()), replies, alreadyRetriedCount)
      decreases |lastErrorTimestamp| - alreadyRetriedCount
    {
      var providerIndexForThisAttempt := providerIndex;
      var reply := replies[alreadyRetriedCount];
      if reply.Success? {
        return Returned, [providerIndexForThisAttempt];
      }
      var thrown := ElectNewProviderOrFail(reply, alreadyRetriedCount, providerIndexForThisAttempt);
      if thrown {
        return if reply.Unrecoverable? then ThrewUnrecoverable else ThrewRecoverable, [providerIndexForThisAttempt];
      }
      result, attempts := DoExecuteWithFallback(alreadyRetriedCount + 1, replies);
      attempts := [providerIndexForThisAttempt] + attempts;
    }
  }
}
