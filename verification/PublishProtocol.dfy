/**
 The subscriber's publishing rules as a transition system over two things: the last published timestamp of every
 feed, and the log of everything handed to the callback.
 */
module PublishProtocol {
  import opened Outcomes
  import opened ClosestToMedian
  import Sorting

  datatype Params = Params(
    dataPackageIds: seq<FeedId>, uniqueSignersCount: nat, minimalOffChainSignersCount: nat,
    ignoreMissingFeeds: bool, authorizedSigners: seq<Signer>)

  /** What the constructor of the subscriber checks. */
  predicate Configured(params: Params) {
    && params.authorizedSigners != []
    && params.uniqueSignersCount <= |params.authorizedSigners|
    && params.uniqueSignersCount <= params.minimalOffChainSignersCount
  }

  type Batch = map<FeedId, seq<SignedData>>
  type Marks = map<FeedId, int>

  datatype Delivery =
    | Published(packages: Batch, timestamp: int, received: Batch)
    | FellBack(packages: Batch)

  datatype State = State(marks: Marks, log: seq<Delivery>)

  // ---------- High-water marks ----------

  predicate IsNewer(marks: Marks, feed: FeedId, timestamp: int) {
    feed in marks && timestamp > marks[feed]
  }

  predicate NoEmptyFeed(packages: Batch) {
    forall f :: f in packages ==> packages[f] != []
  }

  function FilterOutNotNewer(marks: Marks, packages: Batch): Batch
    requires NoEmptyFeed(packages)
  {
    map f | f in packages && IsNewer(marks, f, packages[f][0].timestamp) :: packages[f]
  }

  function Updated(marks: Marks, feeds: set<FeedId>, timestamp: int): Marks {
    marks + map f | f in feeds :: timestamp
  }

  // ---------- Actions ----------

  datatype Action =
    | Publish(timestamp: int, received: Batch)
    | Fallback(response: Batch, first: FeedId)
    | Idle

  /** Packages of one feed as the subscriber stores them. */
  ghost predicate GoodList(params: Params, feed: FeedId, timestamp: int, packages: seq<SignedData>) {
    && packages != []
    && DistinctSigners(packages)
    && forall p :: p in packages ==>
      p.feed == feed && p.timestamp == timestamp && p.signer in params.authorizedSigners
  }

  ghost predicate WellReceived(params: Params, timestamp: int, received: Batch) {
    forall f :: f in received ==> f in params.dataPackageIds && GoodList(params, f, timestamp, received[f])
  }

  predicate Enough(params: Params, packages: seq<SignedData>) {
    |packages| >= params.minimalOffChainSignersCount
  }

  /** The choice for every feed with enough packages; measuring against a zero median aborts the whole publish. */
  function Picked(params: Params, received: Batch): Result<Batch> {
    if forall f :: f in received && Enough(params, received[f]) ==> AllMeasurable(received[f]) then
      Ok(map f | f in received && Enough(params, received[f]) ::
        PickClosest(received[f], params.uniqueSignersCount).Extract())
    else Err("Invalid number format: number is not finite")
  }

  ghost predicate Enabled(params: Params, a: Action) {
    match a
    case Publish(timestamp, received) => WellReceived(params, timestamp, received)
    case Fallback(response, first) => first in response
    case Idle => true
  }

  ghost function Apply(params: Params, s: State, a: Action): State
    requires Configured(params) && Enabled(params, a)
  {
    match a
    case Publish(timestamp, received) =>
      var picked := Picked(params, received);
      // with a count of zero signers an empty choice makes the filter throw
      if picked.Err? || !NoEmptyFeed(picked.value) then s
      else
        var toPublish := FilterOutNotNewer(s.marks, picked.value);
        if toPublish == map[] then s
        else State(Updated(s.marks, toPublish.Keys, timestamp), s.log + [Published(toPublish, timestamp, received)])
    case Fallback(response, first) =>
      // an empty list makes the handler throw before anything is delivered
      if !NoEmptyFeed(response) then s
      else
        var newer := FilterOutNotNewer(s.marks, response);
        if newer == map[] then s
        else State(Updated(s.marks, newer.Keys, response[first][0].timestamp), s.log + [FellBack(response)])
    case Idle => s
  }

  /** A failing or empty selection is no step. */
  lemma PublishesNothing(params: Params, s: State, timestamp: int, received: Batch)
    requires Configured(params) && WellReceived(params, timestamp, received)
    requires Picked(params, received).Ok? && NoEmptyFeed(Picked(params, received).value) ==>
      FilterOutNotNewer(s.marks, Picked(params, received).value) == map[]
    ensures Apply(params, s, Publish(timestamp, received)) == s
  {
  }

  /** Otherwise exactly the selected packages of the feeds that are newer go out, and their marks move. */
  lemma PublishesPrepared(params: Params, s: State, timestamp: int, received: Batch)
    requires Configured(params) && WellReceived(params, timestamp, received) && Picked(params, received).Ok?
    requires NoEmptyFeed(Picked(params, received).value)
      && FilterOutNotNewer(s.marks, Picked(params, received).value) != map[]
    ensures var toPublish := FilterOutNotNewer(s.marks, Picked(params, received).value);
      && toPublish.Keys <= s.marks.Keys
      && Apply(params, s, Publish(timestamp, received))
        == State(Updated(s.marks, toPublish.Keys, timestamp), s.log + [Published(toPublish, timestamp, received)])
  {
    hide Picked;
  }

  // ---------- What a published set looks like ----------

  ghost predicate GoodChoice(
    params: Params, feed: FeedId, timestamp: int, chosen: seq<SignedData>, received: seq<SignedData>)
  {
    && |chosen| == params.uniqueSignersCount
    && GoodList(params, feed, timestamp, chosen)
    && Enough(params, received)
    && ClosestChoice(received, chosen, params.uniqueSignersCount)
  }

  lemma ChosenIsGood(params: Params, feed: FeedId, timestamp: int, packages: seq<SignedData>)
    requires Configured(params) && GoodList(params, feed, timestamp, packages)
    requires Enough(params, packages) && AllMeasurable(packages) && params.uniqueSignersCount >= 1
    ensures GoodChoice(params, feed, timestamp, PickClosest(packages, params.uniqueSignersCount).value, packages)
  {
    hide Diff, AllMeasurable, PickClosest, ClosestChoice;
    var count := params.uniqueSignersCount;
    PickedAreClosest(packages, count);
    ChoiceKeepsSignersDistinct(packages, count);
    var chosen := PickClosest(packages, count).value;
    ChoiceSize(packages, chosen, count);
  }

  lemma ChoiceSize(packages: seq<SignedData>, chosen: seq<SignedData>, count: nat)
    requires ClosestChoice(packages, chosen, count) && |packages| >= count
    ensures |chosen| == count
  {
  }

  lemma PickedIsGoodChoice(params: Params, timestamp: int, received: Batch, f: FeedId)
    requires Configured(params) && WellReceived(params, timestamp, received)
    requires Picked(params, received).Ok? && f in Picked(params, received).value
    requires Picked(params, received).value[f] != []
    ensures f in received && GoodChoice(params, f, timestamp, Picked(params, received).value[f], received[f])
  {
    hide PickClosest, GoodChoice, AllMeasurable, GoodList, ClosestChoice;
    PickedAreClosest(received[f], params.uniqueSignersCount);
    assert params.uniqueSignersCount >= 1 by {
      NoneOfNone(received[f], PickClosest(received[f], params.uniqueSignersCount).value, params.uniqueSignersCount);
    }
    ChosenIsGood(params, f, timestamp, received[f]);
  }

  lemma NoneOfNone(packages: seq<SignedData>, chosen: seq<SignedData>, count: nat)
    requires ClosestChoice(packages, chosen, count)
    ensures count == 0 ==> chosen == []
  {
  }

  /** Every set published from messages has the promised quorum, drawn from enough packages of one moment. */
  ghost predicate PublishedWell(params: Params, d: Delivery)
    requires d.Published?
  {
    d.packages != map[] && forall f :: f in d.packages ==>
      && f in params.dataPackageIds && f in d.received
      && GoodChoice(params, f, d.timestamp, d.packages[f], d.received[f])
  }

  // ---------- Safety over all runs ----------

  /** Nothing delivered for a feed, by either path, is newer than its mark. */
  ghost predicate Dominated(s: State) {
    forall d, f, q :: d in s.log && f in d.packages && f in s.marks && q in d.packages[f] ==> q.timestamp <= s.marks[f]
  }

  /** Whatever is published for a feed is strictly newer than everything delivered for it before. */
  ghost predicate Ordered(log: seq<Delivery>) {
    forall i, j, f, p, q ::
      j < i && Delivers(log, i, f, p) && Delivers(log, j, f, q) && log[i].Published? ==> q.timestamp < p.timestamp
  }

  /** The i-th delivery hands over `p` for feed `f`. */
  ghost predicate Delivers(log: seq<Delivery>, i: int, f: FeedId, p: SignedData) {
    0 <= i < |log| && f in log[i].packages && p in log[i].packages[f]
  }

  ghost predicate Safe(params: Params, s: State) {
    && Dominated(s) && Ordered(s.log)
    && forall d :: d in s.log && d.Published? ==> PublishedWell(params, d)
  }

  ghost predicate MarksAdvance(before: Marks, after: Marks) {
    before.Keys == after.Keys && forall f :: f in before ==> before[f] <= after[f]
  }

  /** All packages of a fallback response carry one timestamp. */
  ghost predicate CommonTimestamp(response: Batch, timestamp: int) {
    forall f, p :: f in response && p in response[f] ==> p.timestamp == timestamp
  }

  ghost predicate Coherent(a: Action) {
    a.Fallback? && NoEmptyFeed(a.response) && a.first in a.response ==>
      CommonTimestamp(a.response, a.response[a.first][0].timestamp)
  }

  lemma PublishIsSafe(params: Params, s: State, timestamp: int, received: Batch)
    requires Configured(params) && Enabled(params, Publish(timestamp, received)) && Safe(params, s)
    ensures Safe(params, Apply(params, s, Publish(timestamp, received)))
    ensures MarksAdvance(s.marks, Apply(params, s, Publish(timestamp, received)).marks)
  {
    hide Picked, GoodChoice;
    var s' := Apply(params, s, Publish(timestamp, received));
    if s' != s {
      var toPublish := FilterOutNotNewer(s.marks, Picked(params, received).value);
      var d := Published(toPublish, timestamp, received);
      assert s' == State(Updated(s.marks, toPublish.Keys, timestamp), s.log + [d]);
      ToPublishIsGood(params, s, timestamp, received);
      hide Apply, FilterOutNotNewer, Updated, Ordered, Dominated, PublishedWell;
      PublishKeepsOrder(s, s', toPublish, timestamp, received);
      assert forall e :: e in s'.log <==> e in s.log || e == d;
    }
  }

  lemma ToPublishIsGood(params: Params, s: State, timestamp: int, received: Batch)
    requires Configured(params) && WellReceived(params, timestamp, received)
    requires Picked(params, received).Ok? && NoEmptyFeed(Picked(params, received).value)
    requires FilterOutNotNewer(s.marks, Picked(params, received).value) != map[]
    ensures var toPublish := FilterOutNotNewer(s.marks, Picked(params, received).value);
      && PublishedWell(params, Published(toPublish, timestamp, received))
      && CommonTimestamp(toPublish, timestamp)
      && forall f :: f in toPublish ==> f in s.marks && s.marks[f] < timestamp
  {
    hide Picked, GoodChoice;
    var toPublish := FilterOutNotNewer(s.marks, Picked(params, received).value);
    forall f | f in toPublish
      ensures f in received && GoodChoice(params, f, timestamp, toPublish[f], received[f])
    {
      PickedIsGoodChoice(params, timestamp, received, f);
    }
    ChosenTimestamps(params, timestamp, toPublish, received);
    forall f | f in toPublish ensures s.marks[f] < timestamp {
      assert toPublish[f][0] in toPublish[f];
    }
  }

  lemma ChosenTimestamps(params: Params, timestamp: int, toPublish: Batch, received: Batch)
    requires forall f :: f in toPublish ==> f in received && GoodChoice(params, f, timestamp, toPublish[f], received[f])
    ensures CommonTimestamp(toPublish, timestamp)
  {
  }

  lemma PublishKeepsOrder(s: State, s': State, toPublish: Batch, timestamp: int, received: Batch)
    requires Dominated(s) && Ordered(s.log) && CommonTimestamp(toPublish, timestamp)
    requires forall f :: f in toPublish ==> f in s.marks && s.marks[f] < timestamp
    requires s' == State(Updated(s.marks, toPublish.Keys, timestamp),
                         s.log + [Published(toPublish, timestamp, received)])
    ensures Dominated(s') && Ordered(s'.log) && MarksAdvance(s.marks, s'.marks)
  {
    var n := |s.log|;
    forall i, j, f, p, q |
      j < i && Delivers(s'.log, i, f, p) && Delivers(s'.log, j, f, q) && s'.log[i].Published?
      ensures q.timestamp < p.timestamp
    {
      assert s'.log[j] == s.log[j] && s.log[j] in s.log && Delivers(s.log, j, f, q);
      if i < n {
        assert s'.log[i] == s.log[i] && Delivers(s.log, i, f, p);
      }
    }
  }

  /** A response that is delivered has to keep the marks above everything delivered; anything else may happen. */
  ghost predicate Harmless(s: State, a: Action) {
    a.Fallback? && a.first in a.response && NoEmptyFeed(a.response)
    && FilterOutNotNewer(s.marks, a.response) != map[] ==>
      KeepsMarksOnTop(s.marks, a.response, a.first)
  }

  lemma FallbackIsSafe(params: Params, s: State, response: Batch, first: FeedId)
    requires Configured(params) && first in response && Safe(params, s) && Harmless(s, Fallback(response, first))
    ensures Safe(params, Apply(params, s, Fallback(response, first)))
    ensures MarksAdvance(s.marks, Apply(params, s, Fallback(response, first)).marks)
  {
    hide PublishedWell, Ordered, KeepsMarksOnTop;
    var s' := Apply(params, s, Fallback(response, first));
    if s' != s {
      assert forall e :: e in s'.log <==> e in s.log || e == FellBack(response);
      FallbackExactly(params, s, response, first);
      AppendFallbackKeepsOrder(s.log, response);
    }
  }

  /** A response of one timestamp is harmless whatever the marks. */
  lemma CoherentIsHarmless(s: State, a: Action)
    requires Coherent(a)
    ensures Harmless(s, a)
  {
    if a.Fallback? && a.first in a.response && NoEmptyFeed(a.response) {
      CommonTimestampKeepsMarksOnTop(s.marks, a.response, a.first);
    }
  }

  lemma CommonTimestampKeepsMarksOnTop(marks: Marks, response: Batch, first: FeedId)
    requires NoEmptyFeed(response) && first in response
    requires CommonTimestamp(response, response[first][0].timestamp)
    ensures KeepsMarksOnTop(marks, response, first)
  {
  }

  lemma AppendFallbackKeepsOrder(log: seq<Delivery>, response: Batch)
    requires Ordered(log)
    ensures Ordered(log + [FellBack(response)])
  {
    var log' := log + [FellBack(response)];
    forall i, j, f, p, q |
      j < i && Delivers(log', i, f, p) && Delivers(log', j, f, q) && log'[i].Published?
      ensures q.timestamp < p.timestamp
    {
      assert i < |log| && Delivers(log, i, f, p) && Delivers(log, j, f, q);
    }
  }

  ghost predicate AllEnabled(params: Params, actions: seq<Action>) {
    forall i :: 0 <= i < |actions| ==> Enabled(params, actions[i])
  }

  ghost function Run(params: Params, s: State, actions: seq<Action>): State
    requires Configured(params) && AllEnabled(params, actions)
  {
    if actions == [] then s
    else Apply(params, Run(params, s, actions[..|actions|-1]), actions[|actions|-1])
  }

  /** Every response of the run is harmless in the state it meets. */
  ghost predicate HarmlessRun(params: Params, s: State, actions: seq<Action>)
    requires Configured(params) && AllEnabled(params, actions)
  {
    actions != [] ==>
      var front := actions[..|actions|-1];
      HarmlessRun(params, s, front) && Harmless(Run(params, s, front), actions[|actions|-1])
  }

  lemma {:induction false} CoherentRunIsHarmless(params: Params, s: State, actions: seq<Action>)
    requires Configured(params) && AllEnabled(params, actions)
    requires forall i :: 0 <= i < |actions| ==> Coherent(actions[i])
    ensures HarmlessRun(params, s, actions)
  {
    hide Harmless, Coherent;
    if actions != [] {
      var front := actions[..|actions|-1];
      CoherentRunIsHarmless(params, s, front);
      CoherentIsHarmless(Run(params, s, front), actions[|actions|-1]);
    }
  }

  /**
   Over every run that mixes publishes of any stored or stale entry with harmless fallback responses, in any order:
   the log is ordered, the published sets are as promised, and the marks never go back. Responses of one timestamp
   each are harmless.
   */
  lemma {:induction false} EveryRunIsSafe(params: Params, s: State, actions: seq<Action>)
    requires Configured(params) && Safe(params, s) && AllEnabled(params, actions)
    requires HarmlessRun(params, s, actions)
    ensures Safe(params, Run(params, s, actions))
    ensures MarksAdvance(s.marks, Run(params, s, actions).marks)
    ensures s.log <= Run(params, s, actions).log
  {
    hide Apply, Safe, Harmless;
    if actions != [] {
      var front, last := actions[..|actions|-1], actions[|actions|-1];
      EveryRunIsSafe(params, s, front);
      var middle := Run(params, s, front);
      ApplyExtendsLog(params, middle, last);
      match last {
        case Publish(timestamp, received) => PublishIsSafe(params, middle, timestamp, received);
        case Fallback(response, first) => FallbackIsSafe(params, middle, response, first);
        case Idle => IdleChangesNothing(params, middle);
      }
    }
  }

  lemma ApplyExtendsLog(params: Params, s: State, a: Action)
    requires Configured(params) && Enabled(params, a)
    ensures s.log <= Apply(params, s, a).log
  {
  }

  lemma IdleChangesNothing(params: Params, s: State)
    requires Configured(params)
    ensures Apply(params, s, Idle) == s
  {
  }

  /** A new subscriber has delivered nothing, so it is safe whatever its initial marks. */
  lemma InitiallySafe(params: Params, marks: Marks)
    ensures Safe(params, State(marks, []))
  {
  }

  // ---------- Where the fallback path departs from the rules ----------

  /** What one response has to satisfy for the marks to stay above everything delivered. */
  ghost predicate KeepsMarksOnTop(marks: Marks, response: Batch, first: FeedId)
    requires NoEmptyFeed(response) && first in response
  {
    var t := response[first][0].timestamp;
    forall f :: f in response && f in marks ==>
      if IsNewer(marks, f, response[f][0].timestamp)
      then t >= marks[f] && forall q :: q in response[f] ==> q.timestamp <= t
      else forall q :: q in response[f] ==> q.timestamp <= marks[f]
  }

  /**
   Without the single-timestamp assumption a delivered fallback response keeps the marks on top exactly when it
   satisfies this check against the marks before the call; then no mark falls either.
   */
  lemma FallbackExactly(params: Params, s: State, response: Batch, first: FeedId)
    requires Configured(params) && Dominated(s) && NoEmptyFeed(response) && first in response
    requires FilterOutNotNewer(s.marks, response) != map[]
    ensures var s' := Apply(params, s, Fallback(response, first));
      && (Dominated(s') <==> KeepsMarksOnTop(s.marks, response, first))
      && (Dominated(s') ==> MarksAdvance(s.marks, s'.marks))
  {
    var marks' := Updated(s.marks, FilterOutNotNewer(s.marks, response).Keys, response[first][0].timestamp);
    assert Apply(params, s, Fallback(response, first)) == State(marks', s.log + [FellBack(response)]);
    hide *;
    MarksAfterFallback(s.marks, response, first);
    DominatedAfterDelivery(s, marks', response);
  }

  /** The first package of a feed that is newer lies above its old mark, so a mark on top of it has advanced. */
  lemma MarksAfterFallback(marks: Marks, response: Batch, first: FeedId)
    requires NoEmptyFeed(response) && first in response
    ensures var marks' := Updated(marks, FilterOutNotNewer(marks, response).Keys, response[first][0].timestamp);
      && (OnTopOf(marks', response) <==> KeepsMarksOnTop(marks, response, first))
      && (OnTopOf(marks', response) ==> MarksAdvance(marks, marks'))
  {
    var t := response[first][0].timestamp;
    var marks' := Updated(marks, FilterOutNotNewer(marks, response).Keys, t);
    assert marks'.Keys == marks.Keys;
    forall f | f in marks
      ensures marks'[f] == if f in response && IsNewer(marks, f, response[f][0].timestamp) then t else marks[f]
    {
    }
    hide Updated, FilterOutNotNewer;
    assert forall f :: f in response ==> response[f][0] in response[f];
  }

  ghost predicate OnTopOf(marks: Marks, packages: Batch) {
    forall f, q :: f in packages && f in marks && q in packages[f] ==> q.timestamp <= marks[f]
  }

  lemma DominatedAfterDelivery(s: State, marks': Marks, response: Batch)
    requires Dominated(s)
    ensures var s' := State(marks', s.log + [FellBack(response)]);
      && (Dominated(s') ==> OnTopOf(marks', response))
      && (MarksAdvance(s.marks, marks') && OnTopOf(marks', response) ==> Dominated(s'))
  {
    var log' := s.log + [FellBack(response)];
    assert log'[|s.log|] == FellBack(response);
    assert forall e :: e in log' <==> e in s.log || e == FellBack(response);
  }

  /** Every mark above its initial value was reached by something delivered for that feed. */
  ghost predicate Attained(s: State, init: int) {
    forall f :: f in s.marks && s.marks[f] != init ==> exists d, q :: DeliveredAt(s, f, d, q, s.marks[f])
  }

  ghost predicate DeliveredAt(s: State, f: FeedId, d: Delivery, q: SignedData, timestamp: int) {
    d in s.log && f in d.packages && q in d.packages[f] && q.timestamp >= timestamp
  }

  /** The response hands over a package of some feed that is not newer than one delivered before. */
  ghost predicate Redelivers(s: State, response: Batch) {
    exists f, d, p, q :: f in s.marks && f in response && p in response[f] && DeliveredAt(s, f, d, q, p.timestamp)
  }

  ghost predicate SomeNewer(marks: Marks, response: Batch)
    requires NoEmptyFeed(response)
  {
    exists f :: f in response && f in marks && marks[f] < response[f][0].timestamp
  }

  ghost predicate SomeNotNewer(marks: Marks, response: Batch) {
    exists f, p :: f in response && f in marks && p in response[f] && p.timestamp <= marks[f]
  }

  /**
   The callback receives the unfiltered response, but only when some feed of it is newer. So the fallback path hands
   over something not newer than before exactly when the first package of one feed is past its mark and some package of
   the response is not.
   */
  lemma FallbackRedelivers(params: Params, s: State, response: Batch, first: FeedId, init: int)
    requires Configured(params) && Dominated(s) && Attained(s, init) && first in response && NoEmptyFeed(response)
    requires forall f, p :: f in response && p in response[f] ==> p.timestamp > init
    ensures Apply(params, s, Fallback(response, first)) != s && Redelivers(s, response) <==>
      SomeNewer(s.marks, response) && SomeNotNewer(s.marks, response)
  {
    hide Redelivers;
    StepsWhenSomeNewer(params, s, response, first);
    RedeliversWhenNotNewer(s, response, init);
  }

  lemma StepsWhenSomeNewer(params: Params, s: State, response: Batch, first: FeedId)
    requires Configured(params) && first in response && NoEmptyFeed(response)
    ensures Apply(params, s, Fallback(response, first)) != s <==> SomeNewer(s.marks, response)
  {
    var newer := FilterOutNotNewer(s.marks, response);
    assert forall f :: f in newer <==> f in response && f in s.marks && s.marks[f] < response[f][0].timestamp;
    if newer != map[] {
      var f :| f in newer;
      assert |Apply(params, s, Fallback(response, first)).log| == |s.log| + 1;
    }
  }

  lemma RedeliversWhenNotNewer(s: State, response: Batch, init: int)
    requires Dominated(s) && Attained(s, init)
    requires forall f, p :: f in response && p in response[f] ==> p.timestamp > init
    ensures Redelivers(s, response) <==> SomeNotNewer(s.marks, response)
  {
    if f, p :| f in response && f in s.marks && p in response[f] && p.timestamp <= s.marks[f] {
      var d, q :| DeliveredAt(s, f, d, q, s.marks[f]);
      assert DeliveredAt(s, f, d, q, p.timestamp);
    }
  }

  /** Attained marks are kept by every action with coherent responses. */
  lemma MarksStayAttained(params: Params, s: State, a: Action, init: int)
    requires Configured(params) && Enabled(params, a) && Coherent(a) && Attained(s, init)
    ensures Attained(Apply(params, s, a), init)
  {
    hide Picked, GoodChoice;
    var s' := Apply(params, s, a);
    if s' != s {
      var d := s'.log[|s'.log|-1];
      DeliveredMarks(params, s, a);
      forall f | f in s'.marks && s'.marks[f] != init
        ensures exists e, q :: DeliveredAt(s', f, e, q, s'.marks[f])
      {
        if s'.marks[f] == s.marks[f] {
          var e, q :| DeliveredAt(s, f, e, q, s.marks[f]);
          assert DeliveredAt(s', f, e, q, s'.marks[f]);
        } else {
          var q := d.packages[f][0];
          assert q in d.packages[f] && DeliveredAt(s', f, d, q, s'.marks[f]);
        }
      }
    }
  }

  /** A step that moves a mark delivers something of that timestamp for its feed. */
  lemma DeliveredMarks(params: Params, s: State, a: Action)
    requires Configured(params) && Enabled(params, a) && Coherent(a) && Apply(params, s, a) != s
    ensures var s' := Apply(params, s, a);
      && |s'.log| == |s.log| + 1 && s'.marks.Keys == s.marks.Keys
      && var d := s'.log[|s.log|];
        forall f :: f in s'.marks && s'.marks[f] != s.marks[f] ==>
          f in d.packages && d.packages[f] != [] && d.packages[f][0].timestamp == s'.marks[f]
  {
    hide Picked, PublishedWell;
    if a.Publish? {
      ToPublishIsGood(params, s, a.timestamp, a.received);
      var toPublish := FilterOutNotNewer(s.marks, Picked(params, a.received).value);
      assert forall f :: f in toPublish ==> toPublish[f][0] in toPublish[f];
    } else {
      assert forall f :: f in a.response ==> a.response[f][0] in a.response[f];
    }
  }

  ghost function NewState(params: Params, init: int): State {
    State(map f | f in params.dataPackageIds :: init, [])
  }

  /** In every state a new subscriber can reach with coherent responses, it is safe and its marks are attained. */
  lemma {:induction false} ReachableIsAttained(params: Params, init: int, actions: seq<Action>)
    requires Configured(params) && AllEnabled(params, actions)
    requires forall i :: 0 <= i < |actions| ==> Coherent(actions[i])
    ensures var s := Run(params, NewState(params, init), actions);
      Safe(params, s) && Attained(s, init) && forall f :: f in s.marks <==> f in params.dataPackageIds
  {
    hide Apply, Coherent, Attained, Safe;
    InitiallySafe(params, NewState(params, init).marks);
    CoherentRunIsHarmless(params, NewState(params, init), actions);
    EveryRunIsSafe(params, NewState(params, init), actions);
    RunAttained(params, init, actions);
  }

  lemma {:induction false} RunAttained(params: Params, init: int, actions: seq<Action>)
    requires Configured(params) && AllEnabled(params, actions)
    requires forall i :: 0 <= i < |actions| ==> Coherent(actions[i])
    ensures Attained(Run(params, NewState(params, init), actions), init)
  {
    hide Apply, Coherent;
    if actions != [] {
      var front := actions[..|actions|-1];
      RunAttained(params, init, front);
      hide Attained;
      MarksStayAttained(params, Run(params, NewState(params, init), front), actions[|actions|-1], init);
    }
  }

  // ---------- When the order can break ----------

  function SignerSet(signers: seq<Signer>): set<Signer> {
    set signer | signer in signers
  }

  /** Whether the configuration lets anything be published at all. */
  predicate CanPublish(params: Params) {
    1 <= params.uniqueSignersCount && params.minimalOffChainSignersCount <= |SignerSet(params.authorizedSigners)|
  }

  ghost predicate StaysOrdered(params: Params, s: State)
    requires Configured(params)
  {
    forall actions :: AllEnabled(params, actions) && HarmlessRun(params, s, actions) ==>
      Ordered(Run(params, s, actions).log)
  }

  /**
   Order survives every continuation by publishes and harmless responses exactly when nothing delivered is above its
   mark: otherwise a publish at the timestamp of such a package is enabled and breaks it.
   */
  lemma OrderExactly(params: Params, s: State)
    requires Configured(params) && CanPublish(params) && Ordered(s.log)
    requires forall d :: d in s.log && d.Published? ==> PublishedWell(params, d)
    requires forall f :: f in s.marks ==> f in params.dataPackageIds
    ensures StaysOrdered(params, s) <==> Dominated(s)
  {
    hide PublishedWell, Apply, Ordered, Run, HarmlessRun;
    if Dominated(s) {
      forall actions | AllEnabled(params, actions) && HarmlessRun(params, s, actions)
        ensures Ordered(Run(params, s, actions).log)
      {
        EveryRunIsSafe(params, s, actions);
      }
    } else {
      var d, f, q :| d in s.log && f in d.packages && f in s.marks && q in d.packages[f] && q.timestamp > s.marks[f];
      PublishBreaksOrder(params, s, d, f, q);
    }
  }

  lemma PublishBreaksOrder(params: Params, s: State, d: Delivery, f: FeedId, q: SignedData)
    requires Configured(params) && CanPublish(params) && f in params.dataPackageIds
    requires d in s.log && f in d.packages && f in s.marks && q in d.packages[f] && q.timestamp > s.marks[f]
    ensures !StaysOrdered(params, s)
  {
    hide Apply, Ordered, Enough, GoodList, PickClosest, AllMeasurable, Picked;
    var signers := DistinctSome(SignerSet(params.authorizedSigners), params.minimalOffChainSignersCount);
    var received := map[f := Unmeasured(f, q.timestamp, signers)];
    FreshIsPublished(params, s, f, q.timestamp, signers);
    var late := Publish(q.timestamp, received);
    OneActionRun(params, s, late);
    NotOrdered(s.log, Apply(params, s, late).log, d, f, q);
    assert AllEnabled(params, [late]);
  }

  lemma DistinctSome(pool: set<Signer>, n: nat) returns (r: seq<Signer>)
    requires n <= |pool|
    ensures |r| == n && forall i :: 0 <= i < n ==> r[i] in pool
    ensures forall i, j :: 0 <= i < j < n ==> r[i] != r[j]
  {
    if n == 0 {
      return [];
    }
    var x :| x in pool;
    var rest := DistinctSome(pool - {x}, n - 1);
    return [x] + rest;
  }

  /** One package without data points from each signer, which no median can reject. */
  function Unmeasured(feed: FeedId, timestamp: int, signers: seq<Signer>): (packages: seq<SignedData>)
    ensures |packages| == |signers|
    ensures forall i :: 0 <= i < |signers| ==> packages[i] == SignedData(feed, timestamp, signers[i], [])
  {
    seq(|signers|, i requires 0 <= i < |signers| => SignedData(feed, timestamp, signers[i], []))
  }

  lemma FreshIsPublished(params: Params, s: State, f: FeedId, t: int, signers: seq<Signer>)
    requires Configured(params) && CanPublish(params) && f in params.dataPackageIds && f in s.marks && t > s.marks[f]
    requires |signers| == params.minimalOffChainSignersCount
    requires forall i :: 0 <= i < |signers| ==> signers[i] in params.authorizedSigners
    requires forall i, j :: 0 <= i < j < |signers| ==> signers[i] != signers[j]
    ensures var received := map[f := Unmeasured(f, t, signers)];
      && Enabled(params, Publish(t, received))
      && var log := Apply(params, s, Publish(t, received)).log;
        |log| == |s.log| + 1 && log[..|s.log|] == s.log && log[|s.log|].Published?
        && f in log[|s.log|].packages && exists p :: p in log[|s.log|].packages[f] && p.timestamp == t
  {
    hide PickClosest, ClosestChoice, CanPublish, Configured;
    var list := Unmeasured(f, t, signers);
    var received := map[f := list];
    var count := params.uniqueSignersCount;
    assert 1 <= count <= |list| by { QuorumFits(params, signers); }
    assert GoodList(params, f, t, list);
    assert AllMeasurable(list);
    PickedAreClosest(list, count);
    var chosen := PickClosest(list, count).value;
    ChoiceSize(list, chosen, count);
    assert Picked(params, received).value == map[f := chosen];
    assert chosen[0] in chosen && chosen[0] in list;
    assert FilterOutNotNewer(s.marks, map[f := chosen]) == map[f := chosen];
    assert f in map[f := chosen];
    PublishesPrepared(params, s, t, received);
    assert (s.log + [Published(map[f := chosen], t, received)])[..|s.log|] == s.log;
  }

  lemma QuorumFits(params: Params, signers: seq<Signer>)
    requires Configured(params) && CanPublish(params) && |signers| == params.minimalOffChainSignersCount
    ensures 1 <= params.uniqueSignersCount <= |signers|
  {
  }

  lemma OneActionRun(params: Params, s: State, a: Action)
    requires Configured(params) && Enabled(params, a) && a.Publish?
    ensures AllEnabled(params, [a]) && HarmlessRun(params, s, [a]) && Run(params, s, [a]) == Apply(params, s, a)
  {
    hide Apply;
    assert [a][..0] == [];
    assert Run(params, s, []) == s;
    assert HarmlessRun(params, s, []);
  }

  lemma NotOrdered(before: seq<Delivery>, after: seq<Delivery>, d: Delivery, f: FeedId, q: SignedData)
    requires |after| == |before| + 1 && after[..|before|] == before && after[|before|].Published?
    requires d in before && f in d.packages && q in d.packages[f]
    requires f in after[|before|].packages
    requires exists p :: p in after[|before|].packages[f] && p.timestamp == q.timestamp
    ensures !Ordered(after)
  {
    var j :| 0 <= j < |before| && before[j] == d;
    var p :| p in after[|before|].packages[f] && p.timestamp == q.timestamp;
    assert after[j] == d;
    assert Delivers(after, j, f, q) && Delivers(after, |before|, f, p);
  }

  /**
   A delivered response of any timestamps, in any safe state, leaves the order intact in every continuation by publishes
   and harmless responses exactly when it passes the check against the marks before the call.
   */
  lemma FallbackOrderExactly(params: Params, s: State, response: Batch, first: FeedId)
    requires Configured(params) && CanPublish(params) && Safe(params, s)
    requires forall f :: f in s.marks ==> f in params.dataPackageIds
    requires first in response && NoEmptyFeed(response) && FilterOutNotNewer(s.marks, response) != map[]
    ensures StaysOrdered(params, Apply(params, s, Fallback(response, first)))
      <==> KeepsMarksOnTop(s.marks, response, first)
  {
    hide StaysOrdered, PublishedWell, KeepsMarksOnTop, Ordered, CanPublish;
    FallbackStepIs(params, s, response, first);
    AppendFallbackKeepsOrder(s.log, response);
    OrderExactly(params, Apply(params, s, Fallback(response, first)));
    FallbackExactly(params, s, response, first);
  }

  lemma FallbackStepIs(params: Params, s: State, response: Batch, first: FeedId)
    requires Configured(params) && first in response && NoEmptyFeed(response)
    requires FilterOutNotNewer(s.marks, response) != map[]
    ensures var s' := Apply(params, s, Fallback(response, first));
      s'.log == s.log + [FellBack(response)] && s'.marks.Keys == s.marks.Keys
  {
  }

  /**
   The mark is the first package's timestamp for every newer feed, so mixed timestamps break the order: after a
   response with feed A at 10 and feed B at 20, feed B can be published again at 20.
   */
  lemma MixedTimestampsBreakOrder(params: Params, a: SignedData, b: SignedData)
    requires Configured(params) && CanPublish(params) && "A" in params.dataPackageIds && "B" in params.dataPackageIds
    requires a.timestamp == 10 && b.timestamp == 20
    ensures !StaysOrdered(params, Apply(params, State(map["A" := 0, "B" := 0], []),
                                        Fallback(map["A" := [a], "B" := [b]], "A")))
  {
    hide StaysOrdered, CanPublish, Apply;
    var s, response := State(map["A" := 0, "B" := 0], []), map["A" := [a], "B" := [b]];
    assert "B" in FilterOutNotNewer(s.marks, response);
    assert !KeepsMarksOnTop(s.marks, response, "A") by {
      assert b in response["B"] && IsNewer(s.marks, "B", response["B"][0].timestamp);
    }
    InitiallySafe(params, s.marks);
    FallbackOrderExactly(params, s, response, "A");
  }
}
