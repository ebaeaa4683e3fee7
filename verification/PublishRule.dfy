/**
 When the subscriber may publish, as its documentation puts it, and what then goes out: stated on the packages of an
 entry alone.
 */
module PublishRules {
  import opened Outcomes
  import opened ClosestToMedian
  import opened PublishProtocol

  /** An entry holds at least `n` packages of a feed. */
  predicate Holds(received: Batch, f: FeedId, n: nat) {
    f in received && |received[f]| >= n
  }

  /** Some configured feed has packages of enough signers. */
  ghost predicate SomeFeedHas(params: Params, received: Batch) {
    exists f :: f in params.dataPackageIds && Holds(received, f, params.minimalOffChainSignersCount)
  }

  /** All configured feeds have packages of enough signers. */
  ghost predicate AllFeedsHave(params: Params, received: Batch) {
    forall f :: f in params.dataPackageIds ==> Holds(received, f, params.minimalOffChainSignersCount)
  }

  /** Enough off-chain signers for every configured feed or, when missing feeds are ignored, for some. */
  ghost predicate Ready(params: Params, received: Batch) {
    && (!params.ignoreMissingFeeds ==> AllFeedsHave(params, received))
    && (params.ignoreMissingFeeds ==> SomeFeedHas(params, received))
  }

  /** No feed lost packages. */
  ghost predicate Grows(before: Batch, after: Batch) {
    forall f :: f in before ==> Holds(after, f, |before[f]|)
  }

  lemma GrowingStaysReady(params: Params, before: Batch, after: Batch)
    requires Ready(params, before) && Grows(before, after)
    ensures Ready(params, after)
  {
    if params.ignoreMissingFeeds {
      var f :| f in params.dataPackageIds && Holds(before, f, params.minimalOffChainSignersCount);
      assert Holds(after, f, params.minimalOffChainSignersCount);
    }
  }

  // ---------- No feed has more packages than there are signers ----------

  lemma {:induction false} DistinctAtMost(packages: seq<SignedData>, signers: seq<Signer>)
    requires DistinctSigners(packages) && forall p :: p in packages ==> p.signer in signers
    ensures |packages| <= |signers|
  {
    if packages != [] {
      var n := |packages| - 1;
      var front, last := packages[..n], packages[n].signer;
      assert packages[n] in packages;
      var i :| 0 <= i < |signers| && signers[i] == last;
      var others := signers[..i] + signers[i+1..];
      forall p | p in front ensures p.signer in others {
        var j :| 0 <= j < n && packages[j] == p;
        assert p in packages && p.signer != last;
        var k :| 0 <= k < |signers| && signers[k] == p.signer;
        assert if k < i then others[k] == p.signer else others[k-1] == p.signer;
      }
      DistinctAtMost(front, others);
    }
  }

  /** When more signers are asked for than are authorised, no entry ever lets anything be published. */
  lemma NeverEnough(params: Params, s: State, timestamp: int, received: Batch)
    requires Configured(params) && WellReceived(params, timestamp, received)
    requires params.minimalOffChainSignersCount > |params.authorizedSigners|
    ensures Apply(params, s, Publish(timestamp, received)) == s
  {
    forall f | f in received ensures !Enough(params, received[f]) {
      DistinctAtMost(received[f], params.authorizedSigners);
    }
  }

  // ---------- What goes out ----------

  /** Configured feeds with enough packages whose marks are older. */
  function DueFeeds(params: Params, marks: Marks, timestamp: int, received: Batch): set<FeedId> {
    set f | f in marks && Holds(received, f, params.minimalOffChainSignersCount) && marks[f] < timestamp
  }

  /** Every feed with enough packages can be measured against its medians. */
  ghost predicate CanBeMeasured(params: Params, received: Batch) {
    forall f :: Holds(received, f, params.minimalOffChainSignersCount) ==> AllMeasurable(received[f])
  }

  /**
   Publishing hands over exactly the due feeds, each with as many packages of distinct signers as configured, and moves
   exactly their marks; nothing happens if none is due, some feed cannot be measured, or no signer is asked for.
   */
  lemma PublishCovers(params: Params, s: State, timestamp: int, received: Batch)
    requires Configured(params) && WellReceived(params, timestamp, received)
    ensures var due := DueFeeds(params, s.marks, timestamp, received);
      var s' := Apply(params, s, Publish(timestamp, received));
      if due == {} || !CanBeMeasured(params, received) || params.uniqueSignersCount == 0 then s' == s
      else
        && |s'.log| == |s.log| + 1 && s'.log[..|s.log|] == s.log
        && PublishedExactly(params, s'.log[|s.log|], due, timestamp, received)
        && s'.marks == map f | f in s.marks :: if f in due then timestamp else s.marks[f]
  {
    hide AllMeasurable, PickClosest, GoodChoice, GoodList;
    if params.uniqueSignersCount == 0 {
      NoneAskedFor(params, s, timestamp, received);
    } else if CanBeMeasured(params, received) {
      assert Picked(params, received).Ok?;
      var picked := Picked(params, received).value;
      AllChosen(params, timestamp, received);
      hide Picked, CanBeMeasured;
      DueAreChosen(params, s.marks, timestamp, received, picked);
      var toPublish := FilterOutNotNewer(s.marks, picked);
      hide FilterOutNotNewer, DueFeeds;
      if toPublish == map[] {
        PublishesNothing(params, s, timestamp, received);
      } else {
        PublishesPrepared(params, s, timestamp, received);
      }
    } else {
      assert Picked(params, received).Err?;
    }
  }

  lemma NoneAskedFor(params: Params, s: State, timestamp: int, received: Batch)
    requires Configured(params) && WellReceived(params, timestamp, received) && params.uniqueSignersCount == 0
    ensures Apply(params, s, Publish(timestamp, received)) == s
  {
    hide AllMeasurable, PickClosest, GoodList;
    if Picked(params, received).Ok? {
      var picked := Picked(params, received).value;
      forall f | f in picked ensures picked[f] == [] {
        PickedAreClosest(received[f], 0);
        NoneOfNone(received[f], picked[f], 0);
      }
    }
  }

  /** `d` is a publication of exactly the feeds `due`, each with a good choice of what was received. */
  ghost predicate PublishedExactly(params: Params, d: Delivery, due: set<FeedId>, timestamp: int, received: Batch) {
    && d.Published? && d.timestamp == timestamp && d.packages.Keys == due
    && forall f :: f in due ==> f in received && GoodChoice(params, f, timestamp, d.packages[f], received[f])
  }

  ghost predicate Chosen(params: Params, timestamp: int, received: Batch, picked: Batch) {
    && (forall f :: f in picked <==> Holds(received, f, params.minimalOffChainSignersCount))
    && forall f :: f in picked ==>
      picked[f] != [] && f in received && GoodChoice(params, f, timestamp, picked[f], received[f])
  }

  lemma AllChosen(params: Params, timestamp: int, received: Batch)
    requires Configured(params) && WellReceived(params, timestamp, received) && params.uniqueSignersCount >= 1
    requires CanBeMeasured(params, received)
    ensures Picked(params, received).Ok? && Chosen(params, timestamp, received, Picked(params, received).value)
  {
    hide GoodList, PickClosest, AllMeasurable, ClosestChoice;
    var picked := Picked(params, received).value;
    forall f | f in picked ensures picked[f] != [] && GoodChoice(params, f, timestamp, picked[f], received[f]) {
      ChosenIsGood(params, f, timestamp, received[f]);
    }
  }

  lemma DueAreChosen(params: Params, marks: Marks, timestamp: int, received: Batch, picked: Batch)
    requires Chosen(params, timestamp, received, picked)
    ensures NoEmptyFeed(picked)
    ensures FilterOutNotNewer(marks, picked).Keys == DueFeeds(params, marks, timestamp, received)
    ensures forall f :: f in FilterOutNotNewer(marks, picked) ==>
      f in received && GoodChoice(params, f, timestamp, FilterOutNotNewer(marks, picked)[f], received[f])
  {
    hide Holds, ClosestChoice, DistinctSigners;
    forall f | f in picked ensures picked[f][0].timestamp == timestamp {
      assert picked[f][0] in picked[f];
    }
  }

  /** Without ignoring missing feeds, the due feeds of an entry that is ready are all feeds whose marks are older. */
  lemma ReadyCoversAll(params: Params, marks: Marks, timestamp: int, received: Batch)
    requires Ready(params, received) && !params.ignoreMissingFeeds
    requires forall f :: f in marks <==> f in params.dataPackageIds
    ensures forall f :: f in DueFeeds(params, marks, timestamp, received) <==>
      f in params.dataPackageIds && marks[f] < timestamp
  {
  }

  /**
   A fallback response is handed over whole when the first package of some feed is past the mark of that feed, and then
   the marks of exactly these feeds move, all to the timestamp of the first package of the response. A feed without
   packages, or a response that is past no mark, changes nothing.
   */
  lemma FallbackCovers(params: Params, s: State, response: Batch, first: FeedId)
    requires Configured(params) && first in response
    ensures var s' := Apply(params, s, Fallback(response, first));
      var due := set f | f in s.marks && f in response && response[f] != [] && s.marks[f] < response[f][0].timestamp;
      if due == {} || exists f :: f in response && response[f] == [] then s' == s
      else
        && s'.log == s.log + [FellBack(response)]
        && response[first] != []
        && s'.marks == map f | f in s.marks :: if f in due then response[first][0].timestamp else s.marks[f]
  {
    if NoEmptyFeed(response) {
      var newer := FilterOutNotNewer(s.marks, response);
      var due := set f | f in s.marks && f in response && response[f] != [] && s.marks[f] < response[f][0].timestamp;
      assert newer.Keys == due;
      assert newer == map[] <==> due == {};
    }
  }

  // ---------- Over a whole run ----------

  lemma {:induction false} RunKeepsFeeds(params: Params, s: State, actions: seq<Action>)
    requires Configured(params) && AllEnabled(params, actions)
    ensures Run(params, s, actions).marks.Keys == s.marks.Keys
  {
    if actions != [] {
      hide Picked, GoodList;
      RunKeepsFeeds(params, s, actions[..|actions|-1]);
    }
  }

  /** Where missing feeds are not ignored, publishing from an entry that is ready leaves out no feed that is due. */
  lemma PublishesAllFeeds(params: Params, s: State, timestamp: int, received: Batch)
    requires Configured(params) && WellReceived(params, timestamp, received)
    requires !params.ignoreMissingFeeds && Ready(params, received)
    requires forall f :: f in s.marks <==> f in params.dataPackageIds
    ensures var s' := Apply(params, s, Publish(timestamp, received));
      var due := set f | f in s.marks && s.marks[f] < timestamp;
      if due == {} || !CanBeMeasured(params, received) || params.uniqueSignersCount == 0 then s' == s
      else
        && |s'.log| == |s.log| + 1 && s'.log[..|s.log|] == s.log
        && PublishedExactly(params, s'.log[|s.log|], due, timestamp, received)
        && s'.marks == map f | f in s.marks :: if f in due then timestamp else s.marks[f]
  {
    hide Apply, PublishedExactly, WellReceived, CanBeMeasured;
    PublishCovers(params, s, timestamp, received);
    ReadyCoversAll(params, s.marks, timestamp, received);
    assert DueFeeds(params, s.marks, timestamp, received) == set f | f in s.marks && s.marks[f] < timestamp;
  }

  lemma RunOneMore(params: Params, s: State, actions: seq<Action>, i: nat)
    requires Configured(params) && AllEnabled(params, actions) && i < |actions|
    ensures AllEnabled(params, actions[..i]) && AllEnabled(params, actions[..i+1])
    ensures Run(params, s, actions[..i+1]) == Apply(params, Run(params, s, actions[..i]), actions[i])
  {
    assert actions[..i+1][..i] == actions[..i];
  }

  lemma RunHasFeeds(params: Params, s: State, actions: seq<Action>)
    requires Configured(params) && AllEnabled(params, actions)
    requires forall f :: f in s.marks <==> f in params.dataPackageIds
    ensures forall f :: f in Run(params, s, actions).marks <==> f in params.dataPackageIds
  {
    RunKeepsFeeds(params, s, actions);
    assert forall f :: f in Run(params, s, actions).marks <==> f in s.marks.Keys;
  }

  /**
   In any run of a subscriber that does not ignore missing feeds, a publication from an entry that is ready hands over
   every feed whose mark is older, or nothing at all if there is none or the packages cannot be measured.
   */
  lemma RunPublishesAllFeeds(params: Params, s: State, actions: seq<Action>, i: nat)
    requires Configured(params) && AllEnabled(params, actions) && i < |actions| && actions[i].Publish?
    requires !params.ignoreMissingFeeds && Ready(params, actions[i].received)
    requires forall f :: f in s.marks <==> f in params.dataPackageIds
    ensures AllEnabled(params, actions[..i]) && AllEnabled(params, actions[..i+1])
    ensures var before, after := Run(params, s, actions[..i]), Run(params, s, actions[..i+1]);
      var due := set f | f in before.marks && before.marks[f] < actions[i].timestamp;
      if due == {} || !CanBeMeasured(params, actions[i].received) || params.uniqueSignersCount == 0 then after == before
      else
        && |after.log| == |before.log| + 1 && after.log[..|before.log|] == before.log
        && PublishedExactly(params, after.log[|before.log|], due, actions[i].timestamp, actions[i].received)
        && after.marks == map f | f in before.marks :: if f in due then actions[i].timestamp else before.marks[f]
  {
    RunOneMore(params, s, actions, i);
    RunHasFeeds(params, s, actions[..i]);
    hide Apply, PublishedExactly, WellReceived, CanBeMeasured, Ready;
    PublishesAllFeeds(params, Run(params, s, actions[..i]), actions[i].timestamp, actions[i].received);
  }
}
