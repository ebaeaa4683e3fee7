/**
 The subscriber object with its mutable maps, its entry and list objects shared between the map and pending timers,
 and its per-feed marks. Every method is shown to take a step of `PublishProtocol`.
 */
module DataPackageSubscribers {
  import opened Outcomes
  import opened ClosestToMedian
  import opened PublishProtocol
  import opened PublishRules

  const MAX_PACKAGE_STALENESS := 120_000

  function FeedsOf(dataPackageIds: seq<FeedId>): set<FeedId> {
    set f | f in dataPackageIds
  }

  lemma UpdatedNone(marks: Marks, ids: seq<FeedId>, t: int)
    ensures Updated(marks, FeedsOf(ids[..0]), t) == marks
  {
  }

  lemma UpdatedOneMore(marks: Marks, ids: seq<FeedId>, i: nat, t: int)
    requires i < |ids|
    ensures Updated(marks, FeedsOf(ids[..i+1]), t) == Updated(marks, FeedsOf(ids[..i]), t)[ids[i] := t]
  {
  }

  class LastPublishedFeedState {
    var lastPublishPerFeed: Marks

    constructor (dataPackageIds: seq<FeedId>, initTimestamp: int)
      ensures lastPublishPerFeed == map f | f in dataPackageIds :: initTimestamp
    {
      lastPublishPerFeed := map f | f in dataPackageIds :: initTimestamp;
    }

    method Update(dataPackageIds: seq<FeedId>, newTimestamp: int)
      modifies this
      ensures lastPublishPerFeed == Updated(old(lastPublishPerFeed), FeedsOf(dataPackageIds), newTimestamp)
    {
      hide FeedsOf, Updated;
      ghost var before := lastPublishPerFeed;
      UpdatedNone(before, dataPackageIds, newTimestamp);
      for i := 0 to |dataPackageIds|
        invariant lastPublishPerFeed == Updated(before, FeedsOf(dataPackageIds[..i]), newTimestamp)
      {
        UpdatedOneMore(before, dataPackageIds, i, newTimestamp);
        lastPublishPerFeed := lastPublishPerFeed[dataPackageIds[i] := newTimestamp];
      }
      assert dataPackageIds[..|dataPackageIds|] == dataPackageIds;
    }
  }

  /** A mutable array of packages of one feed and one timestamp. */
  class PackageList {
    var packages: seq<SignedData>
    ghost const feed: FeedId
    ghost const timestamp: int

    constructor (packages: seq<SignedData>, ghost feed: FeedId, ghost timestamp: int)
      ensures this.packages == packages && this.feed == feed && this.timestamp == timestamp
    {
      this.packages := packages;
      this.feed := feed;
      this.timestamp := timestamp;
    }
  }

  /** A mutable record from feed to its array, shared by the map of the subscriber and by pending timers. */
  class Entry {
    var lists: map<FeedId, PackageList>
    ghost const timestamp: int

    constructor (lists: map<FeedId, PackageList>, ghost timestamp: int)
      ensures this.lists == lists && this.timestamp == timestamp
    {
      this.lists := lists;
      this.timestamp := timestamp;
    }

    ghost function Lists(): set<PackageList>
      reads this
    {
      set f | f in lists :: lists[f]
    }

    function Received(): Batch
      reads this, Lists()
    {
      map f | f in lists :: lists[f].packages
    }

    /** One more package in the array of its feed. */
    method Push(p: SignedData)
      requires p.feed in lists && forall f :: f in lists && f != p.feed ==> lists[f] != lists[p.feed]
      modifies lists[p.feed]
      ensures lists[p.feed].packages == old(lists[p.feed].packages) + [p]
      ensures Received() == WithPackage(old(Received()), p)
    {
      var list := lists[p.feed];
      list.packages := list.packages + [p];
    }

    /** A new record with the arrays of the feeds that are newer than their marks. */
    method Newer(marks: Marks) returns (e: Entry)
      requires NoEmptyFeed(Received())
      ensures fresh(e) && e.timestamp == timestamp && e.Lists() <= Lists()
      ensures forall f :: f in e.lists ==> f in lists && e.lists[f] == lists[f]
      ensures e.Received() == FilterOutNotNewer(marks, Received())
    {
      forall f | f in lists ensures lists[f].packages == Received()[f] {
      }
      var newerLists := map f | f in lists && IsNewer(marks, f, lists[f].packages[0].timestamp) :: lists[f];
      e := new Entry(newerLists, timestamp);
    }

    /** A new feed with its array. */
    method Add(feed: FeedId, list: PackageList)
      requires feed !in lists
      modifies this
      ensures lists == old(lists)[feed := list] && Lists() == old(Lists()) + {list}
      ensures Received() == old(Received())[feed := list.packages]
    {
      lists := lists[feed := list];
      forall f | f in old(lists) ensures lists[f] == old(lists[f]) && lists[f] in Lists() {
      }
      assert list in Lists() by { assert lists[feed] == list; }
      assert Lists() == old(Lists()) + {list};
    }
  }

  datatype Outcome = UnknownFeed | Unauthorized | NotNewer | Duplicate | Instant | Scheduled | Stored

  predicate CanBePublishedInstantly(params: Params, received: Batch) {
    forall f :: f in params.dataPackageIds ==>
      f in received && |received[f]| == |params.authorizedSigners|
  }

  predicate CanSchedulePublish(params: Params, received: Batch) {
    if params.ignoreMissingFeeds
    then exists f :: f in params.dataPackageIds && f in received && Enough(params, received[f])
    else forall f :: f in params.dataPackageIds ==> f in received && Enough(params, received[f])
  }

  lemma SchedulesWhenReady(params: Params, received: Batch)
    ensures CanSchedulePublish(params, received) <==> Ready(params, received)
  {
  }

  /** An entry after one more package. */
  function WithPackage(received: Batch, p: SignedData): Batch {
    received[p.feed := if p.feed in received then received[p.feed] + [p] else [p]]
  }

  predicate HasSigner(packages: seq<SignedData>, signer: Signer) {
    exists i :: 0 <= i < |packages| && packages[i].signer == signer
  }

  function BatchAt(snapshot: map<int, Batch>, t: int): Batch {
    if t in snapshot then snapshot[t] else map[]
  }

  predicate Known(received: Batch, p: SignedData) {
    p.feed in received && HasSigner(received[p.feed], p.signer)
  }

  /** What happens to a verified message, from the marks and the packages stored for its timestamp. */
  function Verdict(params: Params, marks: Marks, received: Batch, p: SignedData): Outcome {
    if p.feed !in params.dataPackageIds then UnknownFeed
    else if p.signer !in params.authorizedSigners then Unauthorized
    else if !IsNewer(marks, p.feed, p.timestamp) then NotNewer
    else if Known(received, p) then Duplicate
    else if CanBePublishedInstantly(params, WithPackage(received, p)) then Instant
    else if CanSchedulePublish(params, WithPackage(received, p)) then Scheduled
    else Stored
  }

  predicate Rejected(r: Outcome) {
    r.UnknownFeed? || r.Unauthorized? || r.NotNewer? || r.Duplicate?
  }

  /** Packages stored for a timestamp and a feed. */
  function StoredFor(snapshot: map<int, Batch>, t: int, f: FeedId): seq<SignedData> {
    if t in snapshot && f in snapshot[t] then snapshot[t][f] else []
  }

  /**
   A message is accepted exactly when its feed is configured, its signer authorised and without a package stored for
   that feed and timestamp, and it is newer than the mark of its feed.
   */
  lemma AcceptedExactly(params: Params, marks: Marks, snapshot: map<int, Batch>, p: SignedData)
    requires forall f :: f in marks <==> f in params.dataPackageIds
    ensures var r := Verdict(params, marks, BatchAt(snapshot, p.timestamp), p);
      var stored := StoredFor(snapshot, p.timestamp, p.feed);
      && (r.UnknownFeed? <==> p.feed !in params.dataPackageIds)
      && (r.Unauthorized? <==> p.feed in params.dataPackageIds && p.signer !in params.authorizedSigners)
      && (!Rejected(r) <==>
        && p.feed in params.dataPackageIds && p.signer in params.authorizedSigners && p.timestamp > marks[p.feed]
        && forall i :: 0 <= i < |stored| ==> stored[i].signer != p.signer)
  {
    hide CanBePublishedInstantly, CanSchedulePublish;
    var received, stored := BatchAt(snapshot, p.timestamp), StoredFor(snapshot, p.timestamp, p.feed);
    assert p.feed in received ==> received[p.feed] == stored;
    assert HasSigner(stored, p.signer) <==> exists i :: 0 <= i < |stored| && stored[i].signer == p.signer;
    assert Known(received, p) <==> HasSigner(stored, p.signer);
    hide HasSigner, Known, BatchAt, StoredFor;
  }

  /** A package is stored behind those of its feed and timestamp, and nothing else changes. */
  lemma StoredBehind(snapshot: map<int, Batch>, p: SignedData, t: int, f: FeedId)
    ensures var after := snapshot[p.timestamp := WithPackage(BatchAt(snapshot, p.timestamp), p)];
      StoredFor(after, t, f) == StoredFor(snapshot, t, f) + if t == p.timestamp && f == p.feed then [p] else []
  {
  }

  /**
   An accepted message with which all signers of all feeds are there publishes at once; otherwise it starts a timer
   exactly when enough signers of every feed are there or, if missing feeds are ignored, of some feed.
   */
  lemma ActsExactly(params: Params, marks: Marks, received: Batch, p: SignedData)
    ensures var r := Verdict(params, marks, received, p);
      var after := WithPackage(received, p);
      var complete := forall f :: f in params.dataPackageIds ==>
        f in after && |after[f]| == |params.authorizedSigners|;
      !Rejected(r) ==>
        && (r.Instant? <==> complete)
        && (r.Scheduled? && params.ignoreMissingFeeds <==>
            !complete && params.ignoreMissingFeeds && SomeFeedHas(params, after))
        && (r.Scheduled? && !params.ignoreMissingFeeds <==>
            !complete && !params.ignoreMissingFeeds && AllFeedsHave(params, after))
  {
    hide WithPackage, Known;
  }

  /** An entry with all signers of all feeds is ready unless more signers are asked for than there are. */
  lemma CompleteIsReady(params: Params, received: Batch)
    requires params.dataPackageIds != [] && params.minimalOffChainSignersCount <= |params.authorizedSigners|
    requires CanBePublishedInstantly(params, received)
    ensures Ready(params, received)
  {
    assert params.dataPackageIds[0] in params.dataPackageIds;
  }

  class DataPackageSubscriber {
    const params: Params
    const lastPublishedState: LastPublishedFeedState
    var subscribed: bool
    var packagesPerTimestamp: map<int, Entry>
    var timers: seq<(Entry, int)>
    ghost var log: seq<Delivery>
    ghost var entries: set<Entry>
    ghost var arrays: set<PackageList>

    /** Arrays of an entry belong to its feeds and its timestamp. */
    ghost predicate EntryValid(e: Entry)
      reads `arrays, e
    {
      e.Lists() <= arrays && forall f :: f in e.lists ==>
        e.lists[f].feed == f && e.lists[f].timestamp == e.timestamp && f in params.dataPackageIds
    }

    ghost predicate EntriesValid()
      reads `packagesPerTimestamp, `timers, `entries, `arrays, entries, arrays
    {
      && (forall t :: t in packagesPerTimestamp ==>
        packagesPerTimestamp[t] in entries && packagesPerTimestamp[t].timestamp == t)
      && (forall k :: 0 <= k < |timers| ==> timers[k].0 in entries && timers[k].0.timestamp == timers[k].1)
      && (forall e :: e in entries ==> EntryValid(e))
      && (forall a :: a in arrays ==> GoodList(params, a.feed, a.timestamp, a.packages))
    }

    /** Every pending timer holds an entry that is ready, whatever was published or cleaned away since. */
    ghost predicate TimersReady()
      reads `timers, `entries, `arrays, entries, arrays
    {
      forall k :: 0 <= k < |timers| ==>
        timers[k].0 in entries && timers[k].0.Lists() <= arrays && Ready(params, timers[k].0.Received())
    }

    ghost predicate Valid()
      reads `packagesPerTimestamp, `timers, `entries, `arrays, entries, arrays, lastPublishedState
    {
      && Configured(params)
      && EntriesValid() && TimersReady()
      && lastPublishedState.lastPublishPerFeed.Keys == FeedsOf(params.dataPackageIds)
    }

    ghost function Abs(): State
      reads `log, lastPublishedState
    {
      State(lastPublishedState.lastPublishPerFeed, log)
    }

    /** What the map holds, as values. */
    ghost function Snapshot(): map<int, Batch>
      requires EntriesValid()
      reads `packagesPerTimestamp, `timers, `entries, `arrays, entries, arrays
    {
      map t | t in packagesPerTimestamp ::
        (assert EntryValid(packagesPerTimestamp[t]); packagesPerTimestamp[t].Received())
    }

    constructor (params: Params, initTimestamp: int)
      requires Configured(params)
      ensures Valid() && Abs() == NewState(params, initTimestamp) && Safe(params, Abs())
      ensures this.params == params && timers == [] && packagesPerTimestamp == map[] && !subscribed
      ensures fresh(entries) && fresh(arrays) && fresh(lastPublishedState)
    {
      this.params := params;
      lastPublishedState := new LastPublishedFeedState(params.dataPackageIds, initTimestamp);
      subscribed := false;
      packagesPerTimestamp := map[];
      timers := [];
      log := [];
      entries := {};
      arrays := {};
      InitiallySafe(params, NewState(params, initTimestamp).marks);
    }

    lemma EntryIsWellReceived(e: Entry)
      requires Valid() && e in entries
      ensures WellReceived(params, e.timestamp, e.Received())
    {
    }

    /** Selection per feed, then the filter against the marks. */
    method PreparePackages(received: Batch) returns (r: Result<Batch>)
      requires Configured(params) && exists t :: WellReceived(params, t, received)
      ensures r.Ok? <==> Picked(params, received).Ok? && NoEmptyFeed(Picked(params, received).value)
      ensures r.Ok? ==>
        r.value == FilterOutNotNewer(lastPublishedState.lastPublishPerFeed, Picked(params, received).value)
    {
      hide PickClosest, AllMeasurable;
      var packagesToPublish: Batch := map[];
      var remaining := received.Keys;
      while remaining != {}
        invariant remaining <= received.Keys
        invariant packagesToPublish.Keys == set f | f in received.Keys - remaining && Enough(params, received[f])
        invariant forall f :: f in packagesToPublish ==>
          PickClosest(received[f], params.uniqueSignersCount) == Ok(packagesToPublish[f])
        invariant forall f :: f in packagesToPublish ==> AllMeasurable(received[f])
        decreases |remaining|
      {
        var f :| f in remaining;
        remaining := remaining - {f};
        if |received[f]| >= params.minimalOffChainSignersCount {
          var chosen := PickClosest(received[f], params.uniqueSignersCount);
          PickFails(received[f], params.uniqueSignersCount);
          if chosen.Err? {
            return Err(chosen.message);
          }
          packagesToPublish := packagesToPublish[f := chosen.value];
        }
      }
      assert Picked(params, received).Ok?;
      assert packagesToPublish == Picked(params, received).value;
      if !NoEmptyFeed(packagesToPublish) {
        return Err("Cannot read properties of undefined");
      }
      return Ok(FilterOutNotNewer(lastPublishedState.lastPublishPerFeed, packagesToPublish));
    }

    /** Publishes what an entry allows; a callback that is not set, or a failing selection, leaves everything alone. */
    method Publish(entry: Entry, packageTimestamp: int, now: int)
      requires Valid() && entry in entries && entry.timestamp == packageTimestamp
      modifies this, lastPublishedState
      ensures Valid() && arrays == old(arrays) && timers == old(timers) && subscribed == old(subscribed)
      ensures old(entries) <= entries && fresh(entries - old(entries))
      ensures WellReceived(params, packageTimestamp, old(entry.Received()))
      ensures Abs() == if subscribed
        then Apply(params, old(Abs()), PublishProtocol.Publish(packageTimestamp, old(entry.Received())))
        else old(Abs())
      ensures Storable(old(Snapshot()))
      ensures Snapshot() == if Abs() == old(Abs()) then old(Snapshot())
        else Cleaned(old(Snapshot()), Abs().marks, packageTimestamp, now)
    {
      hide PublishProtocol.Apply, Picked, FilterOutNotNewer, EntriesValid, Snapshot, WellReceived;
      ghost var before, received := Abs(), entry.Received();
      EntryIsWellReceived(entry);
      SnapshotIsStorable();
      var packagesToPublish := PreparePackages(entry.Received());
      if packagesToPublish.Err? || packagesToPublish.value == map[] || !subscribed {
        assert !packagesToPublish.Err? && packagesToPublish.value != map[] ==> !subscribed;
        if packagesToPublish.Err? || packagesToPublish.value == map[] {
          PublishesNothing(params, before, packageTimestamp, received);
        }
        return;
      }
      PublishesPrepared(params, before, packageTimestamp, received);
      ghost var delivery := Published(packagesToPublish.value, packageTimestamp, received);
      Deliver(delivery, packagesToPublish.value, packageTimestamp);
      CleanPublishedAndStalePackages(packageTimestamp, now);
    }

    /** Hands a delivery to the callback and moves the marks of `updated`. */
    method Deliver(ghost delivery: Delivery, updated: Batch, packageTimestamp: int)
      requires Valid() && updated.Keys <= lastPublishedState.lastPublishPerFeed.Keys
      modifies this`log, lastPublishedState
      ensures Valid() && Snapshot() == old(Snapshot())
      ensures Abs() == State(Updated(old(Abs()).marks, updated.Keys, packageTimestamp), old(log) + [delivery])
    {
      hide EntriesValid, Snapshot;
      log := log + [delivery];
      var feeds := KeysOf(updated);
      lastPublishedState.Update(feeds, packageTimestamp);
    }

    lemma SnapshotIsStorable()
      requires Valid()
      ensures Storable(Snapshot())
    {
    }

    method CleanPublishedAndStalePackages(timestamp: int, now: int)
      requires Valid()
      modifies this
      ensures Valid() && arrays == old(arrays) && timers == old(timers)
      ensures subscribed == old(subscribed) && log == old(log)
      ensures old(entries) <= entries && fresh(entries - old(entries))
      ensures Storable(old(Snapshot()))
      ensures Snapshot() == Cleaned(old(Snapshot()), Abs().marks, timestamp, now)
    {
      hide EntriesValid, Snapshot;
      SnapshotIsStorable();
      KeepOnlyNewer(timestamp);
      DropStale(now);
    }

    method KeepOnlyNewer(timestamp: int)
      requires Valid()
      modifies this
      ensures Valid() && arrays == old(arrays) && timers == old(timers)
      ensures subscribed == old(subscribed) && log == old(log)
      ensures old(entries) <= entries && fresh(entries - old(entries))
      ensures timestamp in old(Snapshot()) ==> NoEmptyFeed(old(Snapshot())[timestamp])
      ensures Snapshot() == if timestamp !in old(Snapshot()) then old(Snapshot())
        else old(Snapshot())[timestamp := FilterOutNotNewer(Abs().marks, old(Snapshot())[timestamp])]
    {
      hide GoodList, FilterOutNotNewer, EntryValid;
      if timestamp in packagesPerTimestamp {
        var onlyNewerPackages := OnlyNewer(packagesPerTimestamp[timestamp]);
        Replace(timestamp, onlyNewerPackages);
      }
    }

    method Replace(timestamp: int, e: Entry)
      requires Valid() && EntryValid(e) && e.timestamp == timestamp
      modifies this
      ensures Valid() && arrays == old(arrays) && timers == old(timers)
      ensures subscribed == old(subscribed) && log == old(log)
      ensures entries == old(entries) + {e}
      ensures packagesPerTimestamp == old(packagesPerTimestamp)[timestamp := e]
      ensures Snapshot() == old(Snapshot())[timestamp := old(e.Received())] && e.Received() == old(e.Received())
    {
      AdmitEntry(e);
      SetEntry(timestamp, e);
    }

    method AdmitEntry(e: Entry)
      requires Valid() && EntryValid(e)
      modifies this`entries
      ensures Valid() && entries == old(entries) + {e} && Snapshot() == old(Snapshot())
    {
      hide GoodList, EntryValid, FeedsOf, Configured;
      entries := entries + {e};
      assert forall t :: t in packagesPerTimestamp ==>
        packagesPerTimestamp[t].Received() == old(packagesPerTimestamp[t].Received());
    }

    method SetEntry(timestamp: int, e: Entry)
      requires Valid() && e in entries && e.timestamp == timestamp
      modifies this`packagesPerTimestamp
      ensures Valid() && packagesPerTimestamp == old(packagesPerTimestamp)[timestamp := e]
      ensures Snapshot() == old(Snapshot())[timestamp := old(e.Received())] && e.Received() == old(e.Received())
    {
      hide GoodList, EntryValid, FeedsOf, Configured;
      packagesPerTimestamp := packagesPerTimestamp[timestamp := e];
      assert e.Received() == old(e.Received());
      assert forall t :: t in packagesPerTimestamp && t != timestamp ==>
        packagesPerTimestamp[t].Received() == old(packagesPerTimestamp[t].Received());
    }

    method DropStale(now: int)
      requires Valid()
      modifies this
      ensures Valid() && arrays == old(arrays) && timers == old(timers)
      ensures subscribed == old(subscribed) && log == old(log)
      ensures entries == old(entries)
      ensures Snapshot() == map t | t in old(Snapshot()) && t > now - MAX_PACKAGE_STALENESS :: old(Snapshot())[t]
    {
      hide GoodList, EntryValid;
      var stale := set t | t in packagesPerTimestamp && t <= now - MAX_PACKAGE_STALENESS;
      packagesPerTimestamp := packagesPerTimestamp - stale;
      assert forall t :: t in packagesPerTimestamp ==>
        packagesPerTimestamp[t].Received() == old(packagesPerTimestamp[t].Received());
    }

    /** A new record with the arrays of the feeds that are still newer than their marks; the arrays stay shared. */
    method OnlyNewer(entry: Entry) returns (e: Entry)
      requires Valid() && entry in entries
      ensures fresh(e) && EntryValid(e) && e.timestamp == entry.timestamp
      ensures NoEmptyFeed(entry.Received())
      ensures e.Received() == FilterOutNotNewer(lastPublishedState.lastPublishPerFeed, entry.Received())
    {
      hide GoodList, Entry.Received, FilterOutNotNewer, FeedsOf, Configured;
      SnapshotEntryNotEmpty(entry);
      e := entry.Newer(lastPublishedState.lastPublishPerFeed);
      assert EntryValid(entry);
    }

    lemma SnapshotEntryNotEmpty(entry: Entry)
      requires Valid() && entry in entries
      ensures NoEmptyFeed(entry.Received())
    {
      EntryIsWellReceived(entry);
    }

    // ---------- Messages ----------

    lemma EntryIsKept(t: int)
      requires Valid() && t in packagesPerTimestamp
      ensures packagesPerTimestamp[t] in entries && packagesPerTimestamp[t].timestamp == t
    {
    }

    lemma SnapshotAt(t: int)
      requires Valid()
      ensures BatchAt(Snapshot(), t) == if t in packagesPerTimestamp then packagesPerTimestamp[t].Received() else map[]
    {
    }

    /** Appends to the array of a feed that the entry already has; every entry sharing the array sees the package. */
    method PushPackage(entry: Entry, p: SignedData)
      requires Valid() && p.timestamp in packagesPerTimestamp && packagesPerTimestamp[p.timestamp] == entry
      requires p.feed in entry.lists && p.signer in params.authorizedSigners
      requires !HasSigner(entry.lists[p.feed].packages, p.signer)
      modifies arrays
      ensures Valid()
      ensures Snapshot() == old(Snapshot())[p.timestamp := WithPackage(old(entry.Received()), p)]
    {
      hide GoodList, Entry.Received, FeedsOf, Configured, HasSigner;
      var list := entry.lists[p.feed];
      assert EntryValid(entry) && list in entry.Lists();
      OneMoreIsGood(list.packages, p);
      entry.Push(p);
      forall t | t in packagesPerTimestamp && t != p.timestamp
        ensures packagesPerTimestamp[t].Received() == old(packagesPerTimestamp[t].Received())
      {
        OtherEntryLacks(packagesPerTimestamp[t], list);
      }
      forall k | 0 <= k < |timers| ensures Ready(params, timers[k].0.Received()) {
        StillReady(timers[k].0);
      }
    }

    /** An entry stays ready while its feeds keep their arrays and these only grow. */
    twostate lemma StillReady(e: Entry)
      requires old(Ready(params, e.Received()))
      requires forall f :: f in old(e.lists) ==>
        f in e.lists && e.lists[f] == old(e.lists[f]) && |e.lists[f].packages| >= old(|e.lists[f].packages|)
      ensures Ready(params, e.Received())
    {
      GrowingStaysReady(params, old(e.Received()), e.Received());
    }

    lemma OneMoreIsGood(packages: seq<SignedData>, p: SignedData)
      requires GoodList(params, p.feed, p.timestamp, packages)
      requires p.signer in params.authorizedSigners && !HasSigner(packages, p.signer)
      ensures GoodList(params, p.feed, p.timestamp, packages + [p])
    {
    }

    lemma OtherEntryLacks(e: Entry, list: PackageList)
      requires EntryValid(e) && e.timestamp != list.timestamp
      ensures list !in e.Lists()
    {
    }

    lemma SingleIsGood(p: SignedData)
      requires p.signer in params.authorizedSigners
      ensures GoodList(params, p.feed, p.timestamp, [p])
    {
    }

    method AllocateList(p: SignedData) returns (list: PackageList)
      requires Valid() && p.signer in params.authorizedSigners
      modifies this`arrays
      ensures Valid() && Snapshot() == old(Snapshot())
      ensures fresh(list) && arrays == old(arrays) + {list}
      ensures list.packages == [p] && list.feed == p.feed && list.timestamp == p.timestamp
    {
      hide GoodList, Entry.Received, Entry.Lists, FeedsOf, Configured;
      SingleIsGood(p);
      list := new PackageList([p], p.feed, p.timestamp);
      arrays := arrays + {list};
      assert forall t :: t in packagesPerTimestamp ==>
        packagesPerTimestamp[t].Received() == old(packagesPerTimestamp[t].Received());
    }

    /** Gives the entry an array for a feed it did not have. */
    method AddList(entry: Entry, p: SignedData)
      requires Valid() && p.timestamp in packagesPerTimestamp && packagesPerTimestamp[p.timestamp] == entry
      requires p.feed !in entry.lists && p.feed in params.dataPackageIds && p.signer in params.authorizedSigners
      modifies this`arrays, entry
      ensures Valid() && fresh(arrays - old(arrays))
      ensures Snapshot() == old(Snapshot())[p.timestamp := WithPackage(old(entry.Received()), p)]
    {
      hide GoodList;
      var list := AllocateList(p);
      assert entry.Received() == old(entry.Received());
      SetList(entry, p.feed, list);
    }

    method SetList(entry: Entry, feed: FeedId, list: PackageList)
      requires Valid() && entry.timestamp in packagesPerTimestamp && packagesPerTimestamp[entry.timestamp] == entry
      requires feed !in entry.lists && feed in params.dataPackageIds
      requires list in arrays && list.feed == feed && list.timestamp == entry.timestamp
      modifies entry
      ensures Valid()
      ensures Snapshot() == old(Snapshot())[entry.timestamp := old(entry.Received())[feed := list.packages]]
    {
      hide GoodList, Entry.Received, Entry.Lists, FeedsOf, Configured;
      assert EntryValid(entry);
      entry.Add(feed, list);
      assert EntryValid(entry);
      assert forall e :: e in entries && e != entry ==> EntryValid(e) by {
        assert forall e :: e in entries && e != entry ==> e.lists == old(e.lists) && e.Lists() == old(e.Lists());
      }
      assert forall t :: t in packagesPerTimestamp && t != entry.timestamp ==>
        packagesPerTimestamp[t].Received() == old(packagesPerTimestamp[t].Received());
      forall k | 0 <= k < |timers| ensures Ready(params, timers[k].0.Received()) {
        StillReady(timers[k].0);
      }
    }

    /** Adds an authorised package of a new signer to its entry, creating entry and array as needed. */
    method StorePackage(p: SignedData) returns (entry: Entry)
      requires Valid() && p.feed in params.dataPackageIds && p.signer in params.authorizedSigners
      requires !Known(BatchAt(Snapshot(), p.timestamp), p)
      modifies this, entries, arrays
      ensures Valid() && log == old(log) && timers == old(timers) && subscribed == old(subscribed)
      ensures fresh(entries - old(entries)) && fresh(arrays - old(arrays))
      ensures entry in entries && entry.timestamp == p.timestamp
      ensures p.timestamp in packagesPerTimestamp && packagesPerTimestamp[p.timestamp] == entry
      ensures Snapshot()
        == old(Snapshot())[p.timestamp := WithPackage(BatchAt(old(Snapshot()), p.timestamp), p)]
    {
      hide GoodList, FeedsOf, Configured, Snapshot, EntriesValid;
      SnapshotAt(p.timestamp);
      if p.timestamp in packagesPerTimestamp {
        entry := packagesPerTimestamp[p.timestamp];
        EntryIsKept(p.timestamp);
        if p.feed in entry.lists {
          PushPackage(entry, p);
        } else {
          AddList(entry, p);
        }
      } else {
        entry := NewEntry(p);
      }
    }

    method NewEntry(p: SignedData) returns (entry: Entry)
      requires Valid() && p.feed in params.dataPackageIds && p.signer in params.authorizedSigners
      modifies this
      ensures Valid() && log == old(log) && timers == old(timers) && subscribed == old(subscribed)
      ensures entries == old(entries) + {entry} && fresh(entry) && fresh(arrays - old(arrays))
      ensures entry.timestamp == p.timestamp
      ensures p.timestamp in packagesPerTimestamp && packagesPerTimestamp[p.timestamp] == entry
      ensures Snapshot() == old(Snapshot())[p.timestamp := WithPackage(map[], p)]
    {
      hide EntriesValid, Snapshot;
      var list := AllocateList(p);
      entry := new Entry(map[p.feed := list], p.timestamp);
      assert entry.Received() == WithPackage(map[], p);
      Replace(p.timestamp, entry);
    }

    /** A verified message: reject it, store it, store it and start a timer, or store it and publish at once. */
    method ProcessNewPackage(p: SignedData, now: int) returns (r: Outcome)
      requires Valid()
      modifies this, lastPublishedState, entries, arrays
      ensures Valid() && subscribed == old(subscribed)
      ensures fresh(entries - old(entries)) && fresh(arrays - old(arrays))
      ensures r == Verdict(params, old(Abs()).marks, BatchAt(old(Snapshot()), p.timestamp), p)
      ensures !Rejected(r) ==> var received := WithPackage(BatchAt(old(Snapshot()), p.timestamp), p);
        && (r.Scheduled? ==> Ready(params, received))
        && (r.Stored? ==> !Ready(params, received))
        && (r.Instant? && params.minimalOffChainSignersCount <= |params.authorizedSigners| ==> Ready(params, received))
      ensures Rejected(r) ==> Abs() == old(Abs()) && Snapshot() == old(Snapshot()) && timers == old(timers)
      ensures r.Stored? || r.Scheduled? ==> Abs() == old(Abs())
      ensures r.Stored? || r.Scheduled? ==>
        Snapshot() == old(Snapshot())[p.timestamp := WithPackage(BatchAt(old(Snapshot()), p.timestamp), p)]
      ensures r.Scheduled? ==> p.timestamp in packagesPerTimestamp
      ensures timers == if r.Scheduled? then old(timers) + [(packagesPerTimestamp[p.timestamp], p.timestamp)]
                        else old(timers)
      ensures r.Instant? ==> var received := WithPackage(BatchAt(old(Snapshot()), p.timestamp), p);
        && WellReceived(params, p.timestamp, received)
        && Abs() == (if subscribed then Apply(params, old(Abs()), PublishProtocol.Publish(p.timestamp, received))
                     else old(Abs()))
        && var stored := old(Snapshot())[p.timestamp := received];
          Storable(stored)
          && Snapshot() == if Abs() == old(Abs()) then stored else Cleaned(stored, Abs().marks, p.timestamp, now)
    {
      hide EntriesValid, Snapshot, WellReceived, PublishProtocol.Apply, CanBePublishedInstantly, CanSchedulePublish;
      hide Ready, TimersReady;
      if p.feed !in params.dataPackageIds {
        return UnknownFeed;
      }
      if p.signer !in params.authorizedSigners {
        return Unauthorized;
      }
      if !IsNewer(lastPublishedState.lastPublishPerFeed, p.feed, p.timestamp) {
        return NotNewer;
      }
      var duplicate := IsDuplicate(p);
      if duplicate {
        return Duplicate;
      }
      OutcomeIsReady(WithPackage(BatchAt(Snapshot(), p.timestamp), p), p.feed);
      r := AcceptPackage(p, now);
    }

    lemma OutcomeIsReady(received: Batch, f: FeedId)
      requires f in params.dataPackageIds
      ensures CanSchedulePublish(params, received) <==> Ready(params, received)
      ensures params.minimalOffChainSignersCount <= |params.authorizedSigners| ==>
        CanBePublishedInstantly(params, received) ==> Ready(params, received)
    {
      SchedulesWhenReady(params, received);
      if CanBePublishedInstantly(params, received)
        && params.minimalOffChainSignersCount <= |params.authorizedSigners| {
        CompleteIsReady(params, received);
      }
    }

    /** Stores the package; then all signers of all feeds publish at once, and enough of them start a timer. */
    method AcceptPackage(p: SignedData, now: int) returns (r: Outcome)
      requires Valid() && p.feed in params.dataPackageIds && p.signer in params.authorizedSigners
      requires !Known(BatchAt(Snapshot(), p.timestamp), p)
      modifies this, lastPublishedState, entries, arrays
      ensures Valid() && subscribed == old(subscribed)
      ensures fresh(entries - old(entries)) && fresh(arrays - old(arrays))
      ensures var received := WithPackage(BatchAt(old(Snapshot()), p.timestamp), p);
        && r == (if CanBePublishedInstantly(params, received) then Instant
                 else if CanSchedulePublish(params, received) then Scheduled else Stored)
        && (!r.Instant? ==> Abs() == old(Abs()) && Snapshot() == old(Snapshot())[p.timestamp := received])
        && (r.Instant? ==> WellReceived(params, p.timestamp, received))
        && (r.Instant? && !subscribed ==> Abs() == old(Abs()))
        && (r.Instant? && subscribed ==>
          Abs() == Apply(params, old(Abs()), PublishProtocol.Publish(p.timestamp, received)))
        && var stored := old(Snapshot())[p.timestamp := received];
          && (r.Instant? ==> Storable(stored))
          && (r.Instant? ==>
            Snapshot() == if Abs() == old(Abs()) then stored else Cleaned(stored, Abs().marks, p.timestamp, now))
      ensures r.Scheduled? ==> p.timestamp in packagesPerTimestamp
      ensures timers == if r.Scheduled? then old(timers) + [(packagesPerTimestamp[p.timestamp], p.timestamp)]
                        else old(timers)
    {
      hide EntriesValid, Snapshot, WellReceived, PublishProtocol.Apply, CanBePublishedInstantly, CanSchedulePublish;
      hide Known, WithPackage, Storable, Cleaned, FeedsOf, Configured, Entry.Received;
      ghost var received := WithPackage(BatchAt(Snapshot(), p.timestamp), p);
      var entryForTimestamp := StorePackage(p);
      SnapshotAt(p.timestamp);
      assert entryForTimestamp.Received() == received && Abs() == old(Abs());
      if CanBePublishedInstantly(params, entryForTimestamp.Received()) {
        Publish(entryForTimestamp, p.timestamp, now);
        return Instant;
      }
      if CanSchedulePublish(params, entryForTimestamp.Received()) {
        SchedulesWhenReady(params, received);
        StartTimer(entryForTimestamp, p.timestamp);
        return Scheduled;
      }
      return Stored;
    }

    method IsDuplicate(p: SignedData) returns (r: bool)
      requires Valid()
      ensures r == Known(BatchAt(Snapshot(), p.timestamp), p)
    {
      SnapshotAt(p.timestamp);
      if p.timestamp !in packagesPerTimestamp {
        return false;
      }
      var entry := packagesPerTimestamp[p.timestamp];
      return p.feed in entry.lists && HasSigner(entry.lists[p.feed].packages, p.signer);
    }

    method StartTimer(entry: Entry, timestamp: int)
      requires Valid() && entry in entries && entry.timestamp == timestamp && Ready(params, entry.Received())
      modifies this`timers
      ensures Valid() && timers == old(timers) + [(entry, timestamp)] && Snapshot() == old(Snapshot())
    {
      hide Ready, GoodList, EntryValid, FeedsOf, Configured;
      EntryArraysKnown(entry);
      timers := timers + [(entry, timestamp)];
      assert forall t :: t in packagesPerTimestamp ==>
        packagesPerTimestamp[t].Received() == old(packagesPerTimestamp[t].Received());
      forall k | 0 <= k < |timers|
        ensures timers[k].0 in entries && timers[k].0.Lists() <= arrays && Ready(params, timers[k].0.Received())
      {
        if k < |old(timers)| {
          assert timers[k] == old(timers)[k];
          assert timers[k].0.Received() == old(timers[k].0.Received());
        }
      }
    }

    lemma EntryArraysKnown(entry: Entry)
      requires Valid() && entry in entries
      ensures entry.Lists() <= arrays
    {
      assert EntryValid(entry);
    }

    /** A timer fires with the entry object it was started with, however stale that is by now. */
    method FireTimer(k: nat, now: int)
      requires Valid() && k < |timers|
      modifies this, lastPublishedState
      ensures Valid() && timers == old(timers)[..k] + old(timers)[k+1..] && subscribed == old(subscribed)
      ensures arrays == old(arrays) && fresh(entries - old(entries))
      ensures WellReceived(params, old(timers)[k].1, old(timers[k].0.Received()))
      ensures Ready(params, old(timers[k].0.Received()))
      ensures Abs() == if subscribed
        then Apply(params, old(Abs()), PublishProtocol.Publish(old(timers)[k].1, old(timers[k].0.Received())))
        else old(Abs())
    {
      hide EntriesValid, TimersReady, Ready, WellReceived, PublishProtocol.Apply, Snapshot;
      var entry, timestamp := TakeTimer(k);
      assert entry.Received() == old(timers[k].0.Received());
      Publish(entry, timestamp, now);
    }

    method TakeTimer(k: nat) returns (entry: Entry, timestamp: int)
      requires Valid() && k < |timers|
      modifies this`timers
      ensures Valid() && timers == old(timers)[..k] + old(timers)[k+1..] && (entry, timestamp) == old(timers)[k]
      ensures entry in entries && entry.timestamp == timestamp && Ready(params, entry.Received())
    {
      hide GoodList, EntryValid, Ready, FeedsOf, Configured;
      entry, timestamp := timers[k].0, timers[k].1;
      timers := timers[..k] + timers[k+1..];
    }

    method Subscribe()
      requires Valid()
      modifies this`subscribed
      ensures Valid() && subscribed && Abs() == old(Abs())
    {
      subscribed := true;
    }

    /** A fallback response arrives: the callback gets all of it when at least one feed is newer than its mark. */
    method FallbackStep(response: Batch, first: FeedId)
      requires Valid() && (response != map[] ==> first in response)
      modifies this`log, lastPublishedState
      ensures Valid() && Snapshot() == old(Snapshot())
      ensures Abs() == if subscribed && response != map[] then Apply(params, old(Abs()), Fallback(response, first))
                       else old(Abs())
    {
      hide EntriesValid, Snapshot;
      if response == map[] || !NoEmptyFeed(response) || !subscribed {
        return;
      }
      var packageTimestamp := response[first][0].timestamp;
      var newerPackagesOnly := FilterOutNotNewer(lastPublishedState.lastPublishPerFeed, response);
      if newerPackagesOnly != map[] {
        Deliver(FellBack(response), newerPackagesOnly, packageTimestamp);
      }
    }
  }

  // ---------- The object over a whole run ----------

  /** What can reach the object: a verified message, the k-th pending timer, or a fallback response. */
  datatype Event =
    | Message(p: SignedData, now: int)
    | Timer(k: nat, now: int)
    | Response(response: Batch, first: FeedId)

  /** A response has its first entry, if it has any. */
  predicate WellFormed(e: Event) {
    e.Response? && e.response != map[] ==> e.first in e.response
  }

  /** The action of the protocol that an event stands for: publishing, this very response, or nothing. */
  ghost predicate ActionOf(e: Event, a: Action) {
    match e
    case Response(response, first) => a == Idle || a == Fallback(response, first)
    case _ => a == Idle || a.Publish?
  }

  /** What is published from messages was ready, unless more signers are asked for than there are. */
  ghost predicate PublishesWhenReady(params: Params, a: Action) {
    a.Publish? && params.minimalOffChainSignersCount <= |params.authorizedSigners| ==> Ready(params, a.received)
  }

  method HandleEvent(subscriber: DataPackageSubscriber, e: Event) returns (ghost a: Action)
    requires subscriber.Valid() && WellFormed(e)
    modifies subscriber, subscriber.lastPublishedState, subscriber.entries, subscriber.arrays
    ensures subscriber.Valid() && subscriber.subscribed == old(subscriber.subscribed)
    ensures fresh(subscriber.entries - old(subscriber.entries)) && fresh(subscriber.arrays - old(subscriber.arrays))
    ensures Enabled(subscriber.params, a) && ActionOf(e, a)
    ensures subscriber.Abs() == Apply(subscriber.params, old(subscriber.Abs()), a)
    ensures e.Response? && subscriber.subscribed && e.response != map[] ==> a == Fallback(e.response, e.first)
    ensures PublishesWhenReady(subscriber.params, a)
  {
    hide DataPackageSubscriber.EntriesValid, WellReceived, Verdict, PublishProtocol.Apply, Ready;
    hide DataPackageSubscriber.TimersReady;
    ghost var params, before := subscriber.params, subscriber.Abs();
    IdleChangesNothing(params, before);
    a := Idle;
    match e {
      case Message(p, now) =>
        ghost var received := WithPackage(BatchAt(subscriber.Snapshot(), p.timestamp), p);
        var r := subscriber.ProcessNewPackage(p, now);
        if r.Instant? && subscriber.subscribed {
          a := PublishProtocol.Publish(p.timestamp, received);
        }
      case Timer(k, now) =>
        if k < |subscriber.timers| {
          ghost var t, received := subscriber.timers[k].1, subscriber.timers[k].0.Received();
          subscriber.FireTimer(k, now);
          if subscriber.subscribed {
            a := PublishProtocol.Publish(t, received);
          }
        }
      case Response(response, first) =>
        subscriber.FallbackStep(response, first);
        if subscriber.subscribed && response != map[] {
          a := Fallback(response, first);
        }
    }
  }

  /**
   Whatever events reach the object, in whatever order, with whatever timers left over: it makes a run of the protocol,
   one action per event. So when the responses are harmless in the states they meet, in particular when each has one
   timestamp, publishing stays in order, published sets stay as promised, and marks never go back; and nothing already
   delivered is ever forgotten. What was published from messages was ready when it was, and so is what any timer that is
   still pending will publish from.
   */
  method HandleEvents(subscriber: DataPackageSubscriber, events: seq<Event>) returns (ghost actions: seq<Action>)
    requires subscriber.Valid() && Safe(subscriber.params, subscriber.Abs())
    requires forall i :: 0 <= i < |events| ==> WellFormed(events[i])
    modifies subscriber, subscriber.lastPublishedState, subscriber.entries, subscriber.arrays
    ensures subscriber.Valid() && subscriber.subscribed == old(subscriber.subscribed)
    ensures fresh(subscriber.entries - old(subscriber.entries)) && fresh(subscriber.arrays - old(subscriber.arrays))
    ensures |actions| == |events| && AllEnabled(subscriber.params, actions)
    ensures forall i :: 0 <= i < |events| ==> ActionOf(events[i], actions[i])
    ensures subscriber.subscribed ==>
      forall i :: 0 <= i < |events| && events[i].Response? && events[i].response != map[] ==>
        actions[i] == Fallback(events[i].response, events[i].first)
    ensures subscriber.Abs() == Run(subscriber.params, old(subscriber.Abs()), actions)
    ensures forall i :: 0 <= i < |events| ==> PublishesWhenReady(subscriber.params, actions[i])
    ensures subscriber.TimersReady()
    ensures old(subscriber.log) <= subscriber.log
    ensures HarmlessRun(subscriber.params, old(subscriber.Abs()), actions) ==>
      && Safe(subscriber.params, subscriber.Abs())
      && MarksAdvance(old(subscriber.Abs()).marks, subscriber.Abs().marks)
    decreases |events|
  {
    hide DataPackageSubscriber.EntriesValid, DataPackageSubscriber.TimersReady;
    hide Safe, PublishProtocol.Apply, Harmless, Enabled, PublishesWhenReady;
    ghost var params, before := subscriber.params, subscriber.Abs();
    actions := [];
    if events != [] {
      var n := |events| - 1;
      actions := HandleEvents(subscriber, events[..n]);
      ghost var middle := subscriber.Abs();
      ghost var a := HandleEvent(subscriber, events[n]);
      ApplyExtendsLog(params, middle, a);
      assert (actions + [a])[..n] == actions;
      actions := actions + [a];
    }
    if HarmlessRun(params, before, actions) {
      EveryRunIsSafe(params, before, actions);
    }
  }

  /** Stored feeds always hold at least one package. */
  ghost predicate Storable(snapshot: map<int, Batch>) {
    forall t :: t in snapshot ==> NoEmptyFeed(snapshot[t])
  }

  /** Nothing stale stays, and the published timestamp keeps only the feeds that are still newer than their marks. */
  ghost function Cleaned(before: map<int, Batch>, marks: Marks, timestamp: int, now: int): map<int, Batch>
    requires Storable(before)
  {
    map t | t in before && t > now - MAX_PACKAGE_STALENESS ::
      if t == timestamp then FilterOutNotNewer(marks, before[t]) else before[t]
  }

  /**
   After a publication nothing is stored that is two minutes old or more; of the published timestamp the feeds remain
   that are newer than their marks, and of any other all.
   */
  lemma CleanedExactly(before: map<int, Batch>, marks: Marks, timestamp: int, now: int, t: int, f: FeedId)
    requires Storable(before)
    requires forall q :: q in StoredFor(before, t, f) ==> q.timestamp == t
    ensures var after := Cleaned(before, marks, timestamp, now);
      && (t in after <==> t in before && now - t < 120_000)
      && StoredFor(after, t, f) == (
        if now - t < 120_000 && (t == timestamp ==> f in marks && marks[f] < t) then StoredFor(before, t, f) else [])
  {
    if t in before && f in before[t] {
      assert before[t][f][0] in StoredFor(before, t, f);
    }
  }

  method KeysOf(packages: Batch) returns (keys: seq<FeedId>)
    ensures FeedsOf(keys) == packages.Keys
  {
    keys := [];
    var remaining := packages.Keys;
    while remaining != {}
      invariant FeedsOf(keys) + remaining == packages.Keys
      decreases |remaining|
    {
      var f :| f in remaining;
      remaining := remaining - {f};
      keys := keys + [f];
    }
  }

  lemma PickFails(packages: seq<SignedData>, count: nat)
    ensures PickClosest(packages, count).Ok? <==> AllMeasurable(packages)
  {
  }
}
