/** Scoring of RPC providers, quarantine of bad ones and their weighted release. */
module CuratedRpcLists {
  import opened Outcomes
  import Sorting

  type RpcIdentifier = string

  datatype Score = Score(callsCount: nat, errorsCount: nat, inQuarantine: bool, quarantineCounter: nat)

  // ---------- Weighted choice ----------

  function Sum(weights: seq<real>): real {
    if weights == [] then 0.0 else Sum(weights[..|weights|-1]) + weights[|weights|-1]
  }

  ghost predicate AllPositive(weights: seq<real>) {
    forall i :: 0 <= i < |weights| ==> weights[i] > 0.0
  }

  function Scaled(random: real, total: real): real {
    random * total
  }

  /** `x` lies in the share of the index: at or after the weights before it, and before their sum with its own. */
  ghost predicate InShare(weights: seq<real>, index: int, x: real) {
    0 <= index < |weights| && Sum(weights[..index]) <= x < Sum(weights[..index+1])
  }

  /**
   The index whose share of the total weight contains `random`: with positive weights the unit interval is cut into
   consecutive shares proportional to the weights. -1 for no weights at all.
   */
  method WeightedRandom(weights: seq<real>, random: real) returns (index: int)
    ensures -1 <= index < |weights| && (index == -1 <==> weights == [])
    ensures weights != [] && AllPositive(weights) && 0.0 <= random < 1.0 ==>
      InShare(weights, index, Scaled(random, Sum(weights)))
  {
    var totalWeight := 0.0;
    for i := 0 to |weights|
      invariant totalWeight == Sum(weights[..i])
    {
      assert weights[..i+1][..i] == weights[..i];
      totalWeight := totalWeight + weights[i];
    }
    assert weights[..|weights|] == weights;
    SumPositive(weights);
    ScaledBounds(random, totalWeight);
    index := FindShare(weights, Scaled(random, totalWeight));
  }

  method FindShare(weights: seq<real>, x: real) returns (index: int)
    ensures -1 <= index < |weights| && (index == -1 <==> weights == [])
    ensures AllPositive(weights) && 0.0 <= x < Sum(weights) ==> InShare(weights, index, x)
  {
    var random := x;
    for i := 0 to |weights|
      invariant random == x - Sum(weights[..i])
      invariant 0.0 <= x ==> random >= 0.0
    {
      assert weights[..i+1][..i] == weights[..i];
      random := random - weights[i];
      if random < 0.0 {
        return i;
      }
    }
    assert weights[..|weights|] == weights;
    return |weights| - 1;
  }

  lemma {:induction false} SumPositive(weights: seq<real>)
    ensures AllPositive(weights) ==> Sum(weights) >= 0.0 && (weights != [] ==> Sum(weights) > 0.0)
  {
    if weights != [] {
      SumPositive(weights[..|weights|-1]);
    }
  }

  lemma ScaledBounds(random: real, total: real)
    ensures total >= 0.0 && 0.0 <= random ==> Scaled(random, total) >= 0.0
    ensures total > 0.0 && random < 1.0 ==> Scaled(random, total) < total
  {
  }

  // ---------- Who is healthy ----------

  type Scores = map<RpcIdentifier, Score>

  ghost predicate Tracked(ids: seq<RpcIdentifier>, state: Scores) {
    forall id :: id in ids <==> id in state
  }

  /** Identifiers with the given quarantine flag, in their order. */
  function WithFlag(ids: seq<RpcIdentifier>, state: Scores, inQuarantine: bool): (r: seq<RpcIdentifier>)
    requires forall id :: id in ids ==> id in state
    ensures forall id :: id in r <==> id in ids && state[id].inQuarantine == inQuarantine
  {
    if ids == [] then []
    else
      var front, last := ids[..|ids|-1], ids[|ids|-1];
      WithFlag(front, state, inQuarantine) + if state[last].inQuarantine == inQuarantine then [last] else []
  }

  lemma {:induction false} FlagsPartition(ids: seq<RpcIdentifier>, state: Scores)
    requires forall id :: id in ids ==> id in state
    ensures |WithFlag(ids, state, false)| + |WithFlag(ids, state, true)| == |ids|
  {
    if ids != [] {
      FlagsPartition(ids[..|ids|-1], state);
    }
  }

  lemma {:induction false} FlagDistinct(ids: seq<RpcIdentifier>, state: Scores, inQuarantine: bool)
    requires (forall id :: id in ids ==> id in state) && Sorting.Distinct(ids)
    ensures Sorting.Distinct(WithFlag(ids, state, inQuarantine))
  {
    if ids != [] {
      FlagDistinct(ids[..|ids|-1], state, inQuarantine);
    }
  }

  /** Providers with one flag come in the order of the list. */
  lemma {:induction false} FlagKeepsOrder(
    a: seq<RpcIdentifier>, b: seq<RpcIdentifier>, state: Scores, inQuarantine: bool)
    requires (forall id :: id in a ==> id in state) && (forall id :: id in b ==> id in state)
    ensures forall id :: id in a + b ==> id in state
    ensures WithFlag(a + b, state, inQuarantine) == WithFlag(a, state, inQuarantine) + WithFlag(b, state, inQuarantine)
  {
    hide WithFlag;
    if b == [] {
      FlagOfNone(state, inQuarantine);
      assert a + b == a;
    } else {
      var n := |b| - 1;
      var front, last := b[..n], b[n];
      FlagKeepsOrder(a, front, state, inQuarantine);
      FlagOfLast(a + front, last, state, inQuarantine);
      FlagOfLast(front, last, state, inQuarantine);
      assert b == front + [last] && a + b == a + front + [last];
    }
  }

  lemma FlagOfNone(state: Scores, inQuarantine: bool)
    ensures WithFlag([], state, inQuarantine) == []
  {
  }

  lemma FlagOfLast(front: seq<RpcIdentifier>, last: RpcIdentifier, state: Scores, inQuarantine: bool)
    requires (forall id :: id in front ==> id in state) && last in state
    ensures forall id :: id in front + [last] ==> id in state
    ensures WithFlag(front + [last], state, inQuarantine)
      == WithFlag(front, state, inQuarantine) + if state[last].inQuarantine == inQuarantine then [last] else []
  {
    assert (front + [last])[..|front|] == front;
  }

  /** Releasing one provider makes exactly one more healthy. */
  lemma {:induction false} ReleaseCounts(ids: seq<RpcIdentifier>, state: Scores, id: RpcIdentifier)
    requires (forall i :: i in ids ==> i in state) && Sorting.Distinct(ids) && id in state && state[id].inQuarantine
    ensures var released := state[id := state[id].(inQuarantine := false)];
      |WithFlag(ids, released, false)| == |WithFlag(ids, state, false)| + if id in ids then 1 else 0
  {
    if ids != [] {
      var front, last := ids[..|ids|-1], ids[|ids|-1];
      ReleaseCounts(front, state, id);
      assert last !in front;
    }
  }

  // ---------- Transitions of one score ----------

  function Scored(s: Score, error: bool): Score {
    s.(callsCount := s.callsCount + 1, errorsCount := s.errorsCount + if error then 1 else 0)
  }

  /** No calls give the rate 0 / 0, which exceeds nothing. */
  predicate TooManyErrors(s: Score, maxErrorRate: real) {
    s.callsCount > 0 && s.errorsCount as real / s.callsCount as real > maxErrorRate
  }

  function Evaluated(s: Score, maxErrorRate: real): Score {
    if TooManyErrors(s, maxErrorRate) then Score(0, 0, true, s.quarantineCounter + 1)
    else Score(0, 0, s.inQuarantine, s.quarantineCounter)
  }

  /** Errors never outnumber calls, and whoever is in quarantine was sent there at least once. */
  predicate GoodScore(s: Score) {
    s.errorsCount <= s.callsCount && (s.inQuarantine ==> s.quarantineCounter >= 1)
  }

  // ---------- The whole history of one provider ----------

  /** What can happen to a provider: a call is reported, its score is evaluated, it is let out of quarantine. */
  datatype Event = Report(error: bool) | Evaluate | Release

  /** Calls reported since the last evaluation. */
  function Calls(events: seq<Event>): nat {
    if events == [] then 0
    else match events[|events|-1]
      case Report(_) => Calls(events[..|events|-1]) + 1
      case Evaluate => 0
      case Release => Calls(events[..|events|-1])
  }

  /** Failed calls reported since the last evaluation. */
  function Failures(events: seq<Event>): (n: nat)
    ensures n <= Calls(events)
  {
    if events == [] then 0
    else match events[|events|-1]
      case Report(error) => Failures(events[..|events|-1]) + if error then 1 else 0
      case Evaluate => 0
      case Release => Failures(events[..|events|-1])
  }

  /** There were calls, and more of them failed than the rate allows. */
  predicate Exceeds(failures: nat, calls: nat, maxErrorRate: real) {
    calls > 0 && failures as real > maxErrorRate * calls as real
  }

  /** Whether an evaluation right after these events condemns the provider. */
  predicate Condemns(events: seq<Event>, maxErrorRate: real) {
    Exceeds(Failures(events), Calls(events), maxErrorRate)
  }

  /** How often the evaluations among these events condemned the provider. */
  function Sentences(events: seq<Event>, maxErrorRate: real): nat {
    if events == [] then 0
    else
      var front := events[..|events|-1];
      Sentences(front, maxErrorRate)
        + if events[|events|-1] == Evaluate && Condemns(front, maxErrorRate) then 1 else 0
  }

  /** Whether some evaluation condemned the provider and nothing released it since. */
  predicate Serving(events: seq<Event>, maxErrorRate: real) {
    events != [] &&
    var front := events[..|events|-1];
    match events[|events|-1]
    case Report(_) => Serving(front, maxErrorRate)
    case Evaluate => Condemns(front, maxErrorRate) || Serving(front, maxErrorRate)
    case Release => false
  }

  function AfterEvent(s: Score, e: Event, maxErrorRate: real): Score {
    match e
    case Report(error) => Scored(s, error)
    case Evaluate => Evaluated(s, maxErrorRate)
    case Release => s.(inQuarantine := false)
  }

  function AfterEvents(events: seq<Event>, maxErrorRate: real): Score {
    if events == [] then Score(0, 0, false, 0)
    else AfterEvent(AfterEvents(events[..|events|-1], maxErrorRate), events[|events|-1], maxErrorRate)
  }

  /**
   Over any history, the counts are the reports and the failed reports since the last evaluation, the quarantine flag
   says that an evaluation condemned the provider with no release since, and its counter how many did.
   */
  lemma {:induction false} HistoryExactly(events: seq<Event>, maxErrorRate: real)
    ensures AfterEvents(events, maxErrorRate)
      == Score(Calls(events), Failures(events), Serving(events, maxErrorRate), Sentences(events, maxErrorRate))
  {
    if events != [] {
      var front := events[..|events|-1];
      HistoryExactly(front, maxErrorRate);
      hide AfterEvent, Exceeds;
      EventExactly(AfterEvents(front, maxErrorRate), events[|events|-1], maxErrorRate);
    }
  }

  lemma EventExactly(s: Score, e: Event, maxErrorRate: real)
    ensures AfterEvent(s, e, maxErrorRate) ==
      match e
      case Report(error) =>
        Score(s.callsCount + 1, s.errorsCount + if error then 1 else 0, s.inQuarantine, s.quarantineCounter)
      case Evaluate =>
        var bad := Exceeds(s.errorsCount, s.callsCount, maxErrorRate);
        Score(0, 0, bad || s.inQuarantine, s.quarantineCounter + if bad then 1 else 0)
      case Release => Score(s.callsCount, s.errorsCount, false, s.quarantineCounter)
  {
    if s.callsCount > 0 {
      RateExceeded(s.errorsCount, s.callsCount, maxErrorRate);
    }
  }

  lemma RateExceeded(failures: nat, calls: nat, maxErrorRate: real)
    requires calls > 0
    ensures failures as real / calls as real > maxErrorRate <==> failures as real > maxErrorRate * calls as real
  {
    var c, q := calls as real, failures as real / calls as real;
    assert q * c == failures as real;
    if q > maxErrorRate {
      RateScales(q - maxErrorRate, c);
    } else {
      RateScales(maxErrorRate - q, c);
    }
  }

  lemma RateScales(d: real, c: real)
    requires c > 0.0 && d >= 0.0
    ensures d * c >= 0.0 && (d > 0.0 ==> d * c > 0.0)
  {
  }

  lemma OneMoreEvent(events: seq<Event>, e: Event, maxErrorRate: real)
    ensures AfterEvents(events + [e], maxErrorRate) == AfterEvent(AfterEvents(events, maxErrorRate), e, maxErrorRate)
  {
    assert (events + [e])[..|events|] == events;
  }

  type Histories = map<RpcIdentifier, seq<Event>>

  /** Every score is what its provider's history makes it. */
  ghost predicate Explained(state: Scores, histories: Histories, maxErrorRate: real) {
    && histories.Keys == state.Keys
    && forall id :: id in state ==>
      var events := histories[id];
      state[id]
        == Score(Calls(events), Failures(events), Serving(events, maxErrorRate), Sentences(events, maxErrorRate))
  }

  /** The history of one provider with one more event. */
  function Recorded(histories: Histories, id: RpcIdentifier, e: Event): Histories
    requires id in histories
  {
    histories[id := histories[id] + [e]]
  }

  lemma RecordedExplains(state: Scores, histories: Histories, id: RpcIdentifier, e: Event, maxErrorRate: real)
    requires Explained(state, histories, maxErrorRate) && id in state
    ensures Explained(
      state[id := AfterEvent(state[id], e, maxErrorRate)], Recorded(histories, id, e), maxErrorRate)
  {
    hide AfterEvent, AfterEvents, Calls, Failures, Serving, Sentences;
    HistoryExactly(histories[id], maxErrorRate);
    HistoryExactly(histories[id] + [e], maxErrorRate);
    OneMoreEvent(histories[id], e, maxErrorRate);
  }

  class CuratedRpcList {
    const rpcIdentifiers: seq<RpcIdentifier>
    const minimalProvidersCount: int
    const maxErrorRate: real
    var state: Scores
    ghost var histories: Histories

    ghost predicate Valid()
      reads this
    {
      && Sorting.Distinct(rpcIdentifiers) && Tracked(rpcIdentifiers, state)
      && minimalProvidersCount <= |rpcIdentifiers|
      && (forall id :: id in state ==> GoodScore(state[id]))
      && histories.Keys == state.Keys && Explained(state, histories, maxErrorRate)
    }

    constructor (rpcIdentifiers: seq<RpcIdentifier>, minimalProvidersCount: int, maxErrorRate: real)
      requires Sorting.Distinct(rpcIdentifiers) && minimalProvidersCount <= |rpcIdentifiers|
      ensures Valid() && this.rpcIdentifiers == rpcIdentifiers && this.minimalProvidersCount == minimalProvidersCount
      ensures this.maxErrorRate == maxErrorRate
      ensures forall id :: id in state ==> state[id] == Score(0, 0, false, 0) && histories[id] == []
    {
      this.rpcIdentifiers, this.minimalProvidersCount := rpcIdentifiers, minimalProvidersCount;
      this.maxErrorRate := maxErrorRate;
      state := map id | id in rpcIdentifiers :: Score(0, 0, false, 0);
      histories := map id | id in rpcIdentifiers :: [];
    }

    /** Construction as callers meet it: too large a minimum and a repeated identifier are refused. */
    static method Create(ids: seq<RpcIdentifier>, minimal: int, maxErrorRate: real) returns (r: Result<CuratedRpcList>)
      ensures r.Ok? <==> minimal <= |ids| && Sorting.Distinct(ids)
      ensures r.Ok? ==> fresh(r.value) && r.value.Valid() && r.value.rpcIdentifiers == ids
    {
      if minimal > |ids| {
        return Err("A minimalProvidersCount can't be bigger than supplied rpcs list length");
      }
      for i := 0 to |ids|
        invariant Sorting.Distinct(ids[..i])
      {
        if ids[i] in ids[..i] {
          return Err("You have passed duplicated rpc identifier");
        }
      }
      assert ids[..|ids|] == ids;
      var list := new CuratedRpcList(ids, minimal, maxErrorRate);
      return Ok(list);
    }

    method ScoreRpc(rpc: RpcIdentifier, error: bool)
      requires Valid() && rpc in rpcIdentifiers
      modifies this
      ensures Valid() && state == old(state)[rpc := Scored(old(state)[rpc], error)]
      ensures histories == Recorded(old(histories), rpc, Report(error))
    {
      hide Explained;
      RecordedExplains(state, histories, rpc, Report(error), maxErrorRate);
      var score := state[rpc];
      score := score.(callsCount := score.callsCount + 1);
      if error {
        score := score.(errorsCount := score.errorsCount + 1);
      }
      state := state[rpc := score];
      histories := Recorded(histories, rpc, Report(error));
    }

    method EvaluateRpcScore(rpc: RpcIdentifier)
      requires Valid() && rpc in rpcIdentifiers
      modifies this
      ensures Valid() && state == old(state)[rpc := Evaluated(old(state)[rpc], maxErrorRate)]
      ensures histories == Recorded(old(histories), rpc, Evaluate)
    {
      hide Explained;
      RecordedExplains(state, histories, rpc, Evaluate, maxErrorRate);
      var stats := state[rpc];
      if stats.callsCount > 0 && stats.errorsCount as real / stats.callsCount as real > maxErrorRate {
        stats := stats.(inQuarantine := true, quarantineCounter := stats.quarantineCounter + 1);
      }
      state := state[rpc := stats.(callsCount := 0, errorsCount := 0)];
      histories := Recorded(histories, rpc, Evaluate);
    }

    /**
     Releases one provider when any is in quarantine. The choice is weighted by the inverse of how often a provider
     was sent to quarantine.
     */
    method FreeOneRpcFromQuarantine(random: real)
      requires Valid()
      modifies this
      ensures Valid()
      ensures var quarantined := WithFlag(rpcIdentifiers, old(state), true);
        if quarantined == [] then state == old(state) && histories == old(histories)
        else exists i ::
          && 0 <= i < |quarantined| && Releases(quarantined, i, old(state), random)
          && quarantined[i] in old(state) && state == Released(old(state), quarantined[i])
          && quarantined[i] in old(histories) && histories == Recorded(old(histories), quarantined[i], Release)
    {
      hide Releases, Explained;
      var providersInQuarantine := WithFlag(rpcIdentifiers, state, true);
      var index := ChooseReleased(providersInQuarantine, state, random);
      if index >= 0 {
        assert providersInQuarantine[index] in providersInQuarantine;
        var id := providersInQuarantine[index];
        RecordedExplains(state, histories, id, Release, maxErrorRate);
        state, histories := Released(state, id), Recorded(histories, id, Release);
      }
    }

    /** Releases exactly one provider, when some is in quarantine. */
    method ReleaseOne(random: real) returns (ghost id: RpcIdentifier)
      requires Valid() && WithFlag(rpcIdentifiers, state, true) != []
      modifies this
      ensures Valid() && id in old(state) && old(state)[id].inQuarantine
      ensures id in old(histories) && histories == Recorded(old(histories), id, Release)
      ensures state == Released(old(state), id)
      ensures |WithFlag(rpcIdentifiers, state, false)| == |WithFlag(rpcIdentifiers, old(state), false)| + 1
      ensures |WithFlag(rpcIdentifiers, state, true)| == |WithFlag(rpcIdentifiers, old(state), true)| - 1
    {
      hide Releases, WithFlag, GoodScore, Explained;
      ghost var quarantined := WithFlag(rpcIdentifiers, state, true);
      FlagsPartition(rpcIdentifiers, state);
      FreeOneRpcFromQuarantine(random);
      ghost var i :| 0 <= i < |quarantined| && Releases(quarantined, i, old(state), random)
        && quarantined[i] in old(state) && state == Released(old(state), quarantined[i])
        && quarantined[i] in old(histories) && histories == Recorded(old(histories), quarantined[i], Release);
      id := quarantined[i];
      assert id in quarantined;
      ReleaseCounts(rpcIdentifiers, old(state), id);
      FlagsPartition(rpcIdentifiers, state);
    }

    method GetBestProviders(randoms: seq<real>) returns (r: seq<RpcIdentifier>)
      requires Valid() && |randoms| >= |WithFlag(rpcIdentifiers, state, true)|
      modifies this
      ensures Valid() && Sorting.Distinct(r) && r == WithFlag(rpcIdentifiers, state, false)
      ensures |r| == if |WithFlag(rpcIdentifiers, old(state), false)| < minimalProvidersCount
        then minimalProvidersCount else |WithFlag(rpcIdentifiers, old(state), false)|
      ensures forall id :: id in state ==>
        || (state[id] == old(state)[id] && histories[id] == old(histories)[id])
        || (old(state)[id].inQuarantine && state[id] == old(state)[id].(inQuarantine := false)
            && histories[id] == old(histories)[id] + [Release])
      decreases |WithFlag(rpcIdentifiers, state, true)|
    {
      hide Releases, WithFlag, GoodScore, Explained;
      var healthyProviders := WithFlag(rpcIdentifiers, state, false);
      FlagsPartition(rpcIdentifiers, state);
      if |healthyProviders| < minimalProvidersCount {
        ghost var released := ReleaseOne(randoms[0]);
        r := GetBestProviders(randoms[1..]);
        return;
      }
      FlagDistinct(rpcIdentifiers, state, false);
      return healthyProviders;
    }
  }

  method ChooseReleased(quarantined: seq<RpcIdentifier>, state: Scores, random: real) returns (index: int)
    requires forall id :: id in quarantined ==> id in state && state[id].quarantineCounter >= 1
    ensures -1 <= index < |quarantined| && (index == -1 <==> quarantined == [])
    ensures quarantined != [] ==> Releases(quarantined, index, state, random)
  {
    hide InShare, Sum, Scaled;
    var weights := ReleaseWeights(quarantined, state);
    index := WeightedRandom(weights, random);
  }

  function Released(state: Scores, id: RpcIdentifier): Scores
    requires id in state
  {
    state[id := state[id].(inQuarantine := false)]
  }

  function ReleaseWeights(quarantined: seq<RpcIdentifier>, state: Scores): (weights: seq<real>)
    requires forall id :: id in quarantined ==> id in state && state[id].quarantineCounter >= 1
    ensures |weights| == |quarantined| && AllPositive(weights)
    ensures forall i :: 0 <= i < |weights| ==> weights[i] == 1.0 / state[quarantined[i]].quarantineCounter as real
  {
    seq(|quarantined|, i requires 0 <= i < |quarantined| =>
      assert quarantined[i] in quarantined; 1.0 / state[quarantined[i]].quarantineCounter as real)
  }

  /** The i-th provider in quarantine is the one whose share of the total release weight contains `random`. */
  ghost predicate Releases(quarantined: seq<RpcIdentifier>, i: int, state: Scores, random: real) {
    && 0 <= i < |quarantined|
    && (forall id :: id in quarantined ==> id in state && state[id].quarantineCounter >= 1)
    && var weights := ReleaseWeights(quarantined, state);
      (0.0 <= random < 1.0 ==> InShare(weights, i, Scaled(random, Sum(weights))))
  }

  /** Sum of the inverses of how often the first `n` of the providers were sent to quarantine. */
  function InverseSum(quarantined: seq<RpcIdentifier>, state: Scores, n: nat): real
    requires n <= |quarantined|
    requires forall id :: id in quarantined ==> id in state && state[id].quarantineCounter >= 1
  {
    if n == 0 then 0.0
    else
      var id := quarantined[n-1];
      assert id in quarantined;
      InverseSum(quarantined, state, n - 1) + 1.0 / state[id].quarantineCounter as real
  }

  lemma {:induction false} WeightsAreInverses(quarantined: seq<RpcIdentifier>, state: Scores, n: nat)
    requires n <= |quarantined|
    requires forall id :: id in quarantined ==> id in state && state[id].quarantineCounter >= 1
    ensures Sum(ReleaseWeights(quarantined, state)[..n]) == InverseSum(quarantined, state, n)
  {
    var weights := ReleaseWeights(quarantined, state);
    if n > 0 {
      WeightsAreInverses(quarantined, state, n - 1);
      assert weights[..n][..n-1] == weights[..n-1];
    }
  }

  /**
   The unit interval is cut into consecutive shares, in the order of the list, each proportional to the inverse of how
   often a provider was sent to quarantine; the one whose share holds the random number is released.
   */
  lemma ReleasesExactly(quarantined: seq<RpcIdentifier>, i: nat, state: Scores, random: real, total: real)
    requires i < |quarantined| && 0.0 <= random < 1.0
    requires forall id :: id in quarantined ==> id in state && state[id].quarantineCounter >= 1
    requires total == InverseSum(quarantined, state, |quarantined|)
    ensures Releases(quarantined, i, state, random) <==>
      InverseSum(quarantined, state, i) <= random * total < InverseSum(quarantined, state, i + 1)
  {
    hide Releases, InShare, Scaled, ReleaseWeights;
    var weights, n := ReleaseWeights(quarantined, state), |quarantined|;
    assert weights[..n] == weights;
    WeightsAreInverses(quarantined, state, i);
    WeightsAreInverses(quarantined, state, i + 1);
    WeightsAreInverses(quarantined, state, n);
    ReleasesBy(quarantined, i, state, random, Sum(weights[..i]), total, Sum(weights[..i+1]));
  }

  lemma ReleasesBy(
    quarantined: seq<RpcIdentifier>, i: nat, state: Scores, random: real, low: real, total: real, high: real)
    requires i < |quarantined| && 0.0 <= random < 1.0
    requires forall id :: id in quarantined ==> id in state && state[id].quarantineCounter >= 1
    requires var weights := ReleaseWeights(quarantined, state);
      low == Sum(weights[..i]) && total == Sum(weights) && high == Sum(weights[..i+1])
    ensures Releases(quarantined, i, state, random) <==> low <= random * total < high
  {
    var weights := ReleaseWeights(quarantined, state);
    assert Scaled(random, Sum(weights)) == Scaled(random, total) == random * total;
  }
}
