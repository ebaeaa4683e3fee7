/** How many connections a subscribe makes, counted from the room there was, over any mix of requests. */
module TopicRoom {
  import opened MultiPubSub

  /** How many more topics the connections can take. */
  function Spare(connections: seq<Connection>, capacity: nat): nat {
    if connections == [] then 0
    else
      var used := |connections[0].topics|;
      (if used < capacity then capacity - used else 0) + Spare(connections[1..], capacity)
  }

  /** What is left of `n` when `room` of it has been taken away. */
  function Beyond(n: nat, room: nat): nat {
    if n > room then n - room else 0
  }

  /** Connections a request needs that finds `room` places: one for nothing at all when there is none. */
  function NewConnections(n: nat, room: nat, capacity: nat): nat
    requires capacity >= 1
  {
    if n == 0 then (if room == 0 then 1 else 0) else CeilDiv(Beyond(n, room), capacity)
  }

  lemma {:induction false} SpareAppend(connections: seq<Connection>, c: Connection, capacity: nat)
    ensures Spare(connections + [c], capacity) == Spare(connections, capacity) + Beyond(capacity, |c.topics|)
  {
    if connections == [] {
      assert [] + [c] == [c];
      assert Spare([c], capacity) == Beyond(capacity, |c.topics|) + Spare([], capacity);
    } else {
      SpareAppend(connections[1..], c, capacity);
      assert (connections + [c])[1..] == connections[1..] + [c];
    }
  }

  /** There is room exactly where the source finds a free connection. */
  lemma {:induction false} FreeMeansSpare(connections: seq<Connection>, capacity: nat)
    ensures HasFree(connections, capacity) <==> Spare(connections, capacity) > 0
  {
    if connections != [] {
      var tail := connections[1..];
      FreeMeansSpare(tail, capacity);
      if HasFree(tail, capacity) {
        var i :| 0 <= i < |tail| && |tail[i].topics| < capacity;
        assert connections[i+1] == tail[i];
      }
      if HasFree(connections, capacity) && |connections[0].topics| >= capacity {
        var i :| 0 <= i < |connections| && |connections[i].topics| < capacity;
        assert tail[i-1] == connections[i];
      }
    }
  }

  /** Within capacity, room is what the load leaves of all places. */
  lemma {:induction false} SpareIsRest(connections: seq<Connection>, capacity: nat)
    requires WithinCapacity(connections, capacity)
    ensures Spare(connections, capacity) + Load(connections) == |connections| * capacity
  {
    if connections != [] {
      var tail := connections[1..];
      assert forall i :: 0 <= i < |tail| ==> tail[i] == connections[i+1];
      SpareIsRest(tail, capacity);
      OneMore(|tail|, capacity);
    }
  }

  // ---------- One subscribe ----------

  /** Connection `j` takes topics only when every earlier one is full. */
  ghost predicate Greedy(before: seq<Connection>, after: seq<Connection>, capacity: nat)
    requires |before| <= |after|
  {
    forall i, j :: 0 <= i < j < |after| && |after[j].topics| > (if j < |before| then |before[j].topics| else 0) ==>
      |after[i].topics| >= capacity
  }

  lemma {:induction false} FillUsesRoom(connections: seq<Connection>, topics: seq<Topic>, capacity: nat)
    ensures var (filled, rest) := Fill(connections, topics, capacity);
      && |rest| == Beyond(|topics|, Spare(connections, capacity))
      && Spare(filled, capacity) == Beyond(Spare(connections, capacity), |topics|)
  {
    if connections != [] {
      var c := connections[0];
      var k := Room(c, capacity, |topics|);
      FillUsesRoom(connections[1..], topics[k..], capacity);
      var rest := Fill(connections[1..], topics[k..], capacity);
      assert ([c.(topics := c.topics + topics[..k])] + rest.0)[1..] == rest.0;
    }
  }

  lemma {:induction false} FillGreedy(connections: seq<Connection>, topics: seq<Topic>, capacity: nat)
    ensures Greedy(connections, Fill(connections, topics, capacity).0, capacity)
    ensures topics == [] ==> Fill(connections, topics, capacity).0 == connections
  {
    if connections != [] {
      var c := connections[0];
      var k := Room(c, capacity, |topics|);
      var tail, rest := connections[1..], Fill(connections[1..], topics[k..], capacity).0;
      FillGreedy(tail, topics[k..], capacity);
      var filled := [c.(topics := c.topics + topics[..k])] + rest;
      if topics == [] {
        FillNothing(connections, capacity);
      }
      forall i, j | 0 <= i < j < |filled| && |filled[j].topics| > |connections[j].topics|
        ensures |filled[i].topics| >= capacity
      {
        assert filled[j] == rest[j-1] && connections[j] == tail[j-1];
        if i > 0 {
          assert filled[i] == rest[i-1];
        }
      }
    }
  }

  ghost predicate AllFull(connections: seq<Connection>, capacity: nat) {
    forall i :: 0 <= i < |connections| ==> |connections[i].topics| >= capacity
  }

  lemma NoRoomMeansFull(connections: seq<Connection>, capacity: nat)
    ensures Spare(connections, capacity) == 0 <==> AllFull(connections, capacity)
    ensures Spare(connections, capacity) == 0 <==> !HasFree(connections, capacity)
  {
    FreeMeansSpare(connections, capacity);
  }

  /** What is said of the connections made and filled for `n` topics. */
  ghost predicate Made(
    connections: seq<Connection>, made: nat, n: nat, capacity: nat, after: seq<Connection>, made': nat)
    requires capacity >= 1
  {
    && |after| == |connections| + NewConnections(n, Spare(connections, capacity), capacity)
    && made' == made + |after| - |connections|
    && (forall i :: |connections| <= i < |after| ==> after[i].client == made + i - |connections|)
    && (forall i :: |connections| <= i < |after| ==> n > 0 ==> after[i].topics != [])
    && Greedy(connections, after, capacity)
  }

  /** When all were filled first, the rest of a request goes on as a request of its own. */
  lemma MadeAfterFilling(connections: seq<Connection>, filled: seq<Connection>, made: nat, n: nat, rest: nat,
    capacity: nat, after: seq<Connection>, made': nat)
    requires capacity >= 1 && |filled| == |connections| && AllFull(filled, capacity) && Extends(filled, after)
    requires rest > 0 && rest == Beyond(n, Spare(connections, capacity))
    requires Made(filled, made, rest, capacity, after, made')
    ensures Made(connections, made, n, capacity, after, made')
  {
    hide Spare, CeilDiv;
    NoRoomMeansFull(filled, capacity);
  }

  /** When there was no room, the first new connection takes what it can and the rest goes on. */
  lemma MadeAfterNew(connections: seq<Connection>, c: Connection, made: nat, n: nat, capacity: nat,
    after: seq<Connection>, made': nat)
    requires capacity >= 1 && AllFull(connections, capacity) && c.client == made
    requires n > capacity && |c.topics| == capacity && Extends(connections + [c], after)
    requires Made(connections + [c], made + 1, n - capacity, capacity, after, made')
    ensures Made(connections, made, n, capacity, after, made')
  {
    hide Spare, CeilDiv;
    var filled := connections + [c];
    assert filled[|connections|] == c && forall i :: 0 <= i < |connections| ==> filled[i] == connections[i];
    NoRoomMeansFull(filled, capacity);
    NoRoomMeansFull(connections, capacity);
    OneMoreChunk(n, capacity);
    assert after[|connections|].client == made && |after[|connections|].topics| >= capacity;
  }

  lemma {:induction false} FillBehindFull(
    connections: seq<Connection>, c: Connection, topics: seq<Topic>, capacity: nat)
    requires AllFull(connections, capacity) && c.topics == [] && topics != []
    ensures var k := if |topics| < capacity then |topics| else capacity;
      Fill(connections + [c], topics, capacity) == (connections + [c.(topics := topics[..k])], topics[k..])
  {
    if connections == [] {
      var k := Room(c, capacity, |topics|);
      assert [] + [c] == [c] && [c][1..] == [] && [] + topics[..k] == topics[..k];
      assert Fill([], topics[k..], capacity) == ([], topics[k..]);
      var taken := c.(topics := topics[..k]);
      assert Fill([c], topics, capacity) == ([taken] + [], topics[k..]);
      assert connections + [taken] == [taken] + [] && connections + [c] == [c];
    } else {
      FillBehindFull(connections[1..], c, topics, capacity);
      assert (connections + [c])[1..] == connections[1..] + [c];
      var first := connections[0];
      assert first.topics + topics[..0] == first.topics && topics[0..] == topics;
      var k := if |topics| < capacity then |topics| else capacity;
      var taken := c.(topics := topics[..k]);
      assert Fill(connections + [c], topics, capacity) == ([first] + (connections[1..] + [taken]), topics[k..]);
      assert [first] + (connections[1..] + [taken]) == connections + [taken];
    }
  }

  /**
   A subscribe makes exactly the connections that what is left over needs, in the order of their numbers, none of them
   empty unless nothing was asked for, and takes no connection while an earlier one has room.
   */
  lemma {:induction false} SubscribeMakesExactly(
    connections: seq<Connection>, made: nat, topics: seq<Topic>, capacity: nat)
    requires capacity >= 1
    ensures var (after, made') := Subscribed(connections, made, topics, capacity);
      && |after| == |connections| + NewConnections(|topics|, Spare(connections, capacity), capacity)
      && made' == made + |after| - |connections|
      && (forall i :: |connections| <= i < |after| ==> after[i].client == made + i - |connections|)
      && (forall i :: |connections| <= i < |after| ==> topics != [] ==> after[i].topics != [])
      && Greedy(connections, after, capacity)
  {
    var (after, made') := Subscribed(connections, made, topics, capacity);
    hide Subscribed, CeilDiv, Spare, Greedy, NewConnections;
    MakesExactly(connections, made, topics, capacity);
  }

  lemma {:induction false} MakesExactly(connections: seq<Connection>, made: nat, topics: seq<Topic>, capacity: nat)
    requires capacity >= 1
    ensures var (after, made') := Subscribed(connections, made, topics, capacity);
      Made(connections, made, |topics|, capacity, after, made')
    decreases |topics|, 1
  {
    hide *;
    NoRoomMeansFull(connections, capacity);
    if topics == [] {
      AskForNothing(connections, made, capacity);
    } else if Spare(connections, capacity) == 0 {
      NewOneFirst(connections, made, topics, capacity);
    } else {
      RoomFirst(connections, made, topics, capacity);
    }
  }

  lemma AskForNothing(connections: seq<Connection>, made: nat, capacity: nat)
    requires capacity >= 1
    ensures var (after, made') := Subscribed(connections, made, [], capacity);
      Made(connections, made, 0, capacity, after, made')
  {
    var more := connections + [Connection(made, [])];
    hide CeilDiv, Fill;
    NoRoomMeansFull(connections, capacity);
    assert |more[|connections|].topics| < capacity;
    FillNothing(connections, capacity);
    FillNothing(more, capacity);
    hide Spare;
  }

  lemma NewOneFirst(connections: seq<Connection>, made: nat, topics: seq<Topic>, capacity: nat)
    requires capacity >= 1 && topics != [] && Spare(connections, capacity) == 0
    ensures var (after, made') := Subscribed(connections, made, topics, capacity);
      Made(connections, made, |topics|, capacity, after, made')
    decreases |topics|, 0
  {
    hide CeilDiv, Fill, Spare, Made;
    NoRoomMeansFull(connections, capacity);
    var empty := Connection(made, []);
    var more := connections + [empty];
    assert |more[|connections|].topics| < capacity;
    FillBehindFull(connections, empty, topics, capacity);
    var k := if |topics| < capacity then |topics| else capacity;
    var filled := connections + [empty.(topics := topics[..k])];
    if |topics| <= capacity {
      assert Subscribed(connections, made, topics, capacity) == (filled, made + 1);
      MadeOne(connections, filled[|connections|], made, |topics|, capacity);
    } else {
      var rest := topics[k..];
      var (after, made') := Subscribed(filled, made + 1, rest, capacity);
      assert Subscribed(connections, made, topics, capacity) == (after, made');
      hide Subscribed;
      MakesExactly(filled, made + 1, rest, capacity);
      SubscribeAddsExactly(filled, made + 1, rest, capacity, "");
      MadeAfterNew(connections, filled[|connections|], made, |topics|, capacity, after, made');
    }
  }

  lemma MadeOne(connections: seq<Connection>, c: Connection, made: nat, n: nat, capacity: nat)
    requires 1 <= n <= capacity && AllFull(connections, capacity) && c.client == made && |c.topics| == n
    ensures Made(connections, made, n, capacity, connections + [c], made + 1)
  {
    NoRoomMeansFull(connections, capacity);
    hide Spare;
    QuotientIs(n + capacity - 1, capacity, 1, n - 1);
  }

  lemma RoomFirst(connections: seq<Connection>, made: nat, topics: seq<Topic>, capacity: nat)
    requires capacity >= 1 && topics != [] && Spare(connections, capacity) > 0
    ensures var (after, made') := Subscribed(connections, made, topics, capacity);
      Made(connections, made, |topics|, capacity, after, made')
    decreases |topics|, 0
  {
    hide CeilDiv, Fill, Spare, Made, Greedy;
    NoRoomMeansFull(connections, capacity);
    var (filled, rest) := Fill(connections, topics, capacity);
    FillUsesRoom(connections, topics, capacity);
    FillGreedy(connections, topics, capacity);
    if rest == [] {
      assert Subscribed(connections, made, topics, capacity) == (filled, made);
      MadeNone(connections, filled, made, |topics|, capacity);
    } else {
      var (after, made') := Subscribed(filled, made, rest, capacity);
      assert Subscribed(connections, made, topics, capacity) == (after, made');
      hide Subscribed;
      NoRoomMeansFull(filled, capacity);
      MakesExactly(filled, made, rest, capacity);
      SubscribeAddsExactly(filled, made, rest, capacity, "");
      MadeAfterFilling(connections, filled, made, |topics|, |rest|, capacity, after, made');
    }
  }

  lemma MadeNone(connections: seq<Connection>, filled: seq<Connection>, made: nat, n: nat, capacity: nat)
    requires capacity >= 1 && n > 0 && Beyond(n, Spare(connections, capacity)) == 0
    requires |filled| == |connections| && Greedy(connections, filled, capacity)
    ensures Made(connections, made, n, capacity, filled, made)
  {
    hide Spare;
    NothingLeft(capacity);
  }

  // ---------- Unsubscribe ----------

  /** Connections are numbered in the order they were made. */
  ghost predicate Numbered(connections: seq<Connection>, made: nat) {
    && (forall i, j :: 0 <= i < j < |connections| ==> connections[i].client < connections[j].client)
    && (forall i :: 0 <= i < |connections| ==> connections[i].client < made)
  }

  /** `c'` is `c` without the named topics. */
  ghost predicate IsWithout(c: Connection, c': Connection, named: seq<Topic>) {
    && c'.client == c.client
    && forall t :: multiset(c'.topics)[t] == if t in named then 0 else multiset(c.topics)[t]
  }

  ghost predicate Survives(c: Connection, named: seq<Topic>) {
    exists t :: t in c.topics && t !in named
  }

  lemma WithoutKeeps(topics: seq<Topic>, named: seq<Topic>)
    ensures Without(topics, named) != [] <==> exists t :: t in topics && t !in named
    ensures |Without(topics, named)| <= |topics|
    ensures forall t :: multiset(Without(topics, named))[t] == if t in named then 0 else multiset(topics)[t]
  {
    var kept := Without(topics, named);
    forall t ensures multiset(kept)[t] == if t in named then 0 else multiset(topics)[t] {
      WithoutExactly(topics, named, t);
    }
    if kept != [] {
      assert kept[0] in multiset(kept);
    }
    forall t | t in topics && t !in named ensures kept != [] {
      assert t in multiset(topics) && t in multiset(kept);
    }
  }

  /** `connections` have one that is `c` without the named topics. */
  ghost predicate Kept(c: Connection, connections: seq<Connection>, named: seq<Topic>) {
    exists j :: 0 <= j < |connections| && IsWithout(c, connections[j], named)
  }

  /** `c'` is what remains of one of the connections. */
  ghost predicate RemainsOf(connections: seq<Connection>, c': Connection, named: seq<Topic>) {
    exists i :: 0 <= i < |connections| && Survives(connections[i], named) && IsWithout(connections[i], c', named)
  }

  ghost predicate KeepsExactly(
    connections: seq<Connection>, made: nat, named: seq<Topic>, after: seq<Connection>)
  {
    && Numbered(after, made)
    && (forall j :: 0 <= j < |after| ==> RemainsOf(connections, after[j], named))
    && (forall i :: 0 <= i < |connections| && Survives(connections[i], named) ==> Kept(connections[i], after, named))
  }

  /**
   An unsubscribe keeps exactly the connections with a topic that is not named, in their order, each with its other
   topics.
   */
  lemma {:induction false} UnsubscribeKeepsExactly(connections: seq<Connection>, made: nat, named: seq<Topic>)
    requires Numbered(connections, made)
    ensures KeepsExactly(connections, made, named, Unsubscribed(connections, named))
  {
    if connections != [] {
      var n := |connections| - 1;
      UnsubscribeKeepsExactly(connections[..n], connections[n].client, named);
      hide KeepsExactly, Without;
      KeepsOneMore(connections, made, named, Unsubscribed(connections[..n], named));
    }
  }

  lemma KeepsOneMore(connections: seq<Connection>, made: nat, named: seq<Topic>, kept: seq<Connection>)
    requires Numbered(connections, made) && connections != []
    requires var n := |connections| - 1; KeepsExactly(connections[..n], connections[n].client, named, kept)
    ensures var last := connections[|connections|-1];
      KeepsExactly(
        connections, made, named, KeepUnlessEmpty(kept, Connection(last.client, Without(last.topics, named))))
  {
    hide Without, IsWithout, Survives, RemainsOf, Kept;
    var last := connections[|connections|-1];
    var c := Connection(last.client, Without(last.topics, named));
    var after := KeepUnlessEmpty(kept, c);
    KeptOrDropped(last, c, named);
    AllRemain(connections, kept, c, after, named);
    AllKept(connections, kept, c, after, named);
  }

  lemma AllRemain(
    connections: seq<Connection>, kept: seq<Connection>, c: Connection, after: seq<Connection>, named: seq<Topic>)
    requires connections != [] && after == KeepUnlessEmpty(kept, c)
    requires forall j :: 0 <= j < |kept| ==> RemainsOf(connections[..|connections|-1], kept[j], named)
    requires var last := connections[|connections|-1];
      IsWithout(last, c, named) && (c.topics != [] <==> Survives(last, named))
    ensures forall j :: 0 <= j < |after| ==> RemainsOf(connections, after[j], named)
  {
    hide IsWithout, Survives, RemainsOf;
    forall j | 0 <= j < |after| ensures RemainsOf(connections, after[j], named) {
      if j < |kept| {
        RemainsOfFront(connections, kept[j], named);
      } else {
        RemainsOfLast(connections, c, named);
      }
    }
  }

  lemma AllKept(
    connections: seq<Connection>, kept: seq<Connection>, c: Connection, after: seq<Connection>, named: seq<Topic>)
    requires connections != [] && after == KeepUnlessEmpty(kept, c)
    requires var front := connections[..|connections|-1];
      forall i :: 0 <= i < |front| && Survives(front[i], named) ==> Kept(front[i], kept, named)
    requires var last := connections[|connections|-1];
      IsWithout(last, c, named) && (c.topics != [] <==> Survives(last, named))
    ensures forall i :: 0 <= i < |connections| && Survives(connections[i], named) ==> Kept(connections[i], after, named)
  {
    hide IsWithout, Survives, Kept;
    var front := connections[..|connections|-1];
    forall i | 0 <= i < |connections| && Survives(connections[i], named) ensures Kept(connections[i], after, named) {
      if i < |front| {
        assert connections[i] == front[i];
        KeptInFront(connections[i], kept, after, named);
      } else {
        KeptLast(connections[i], c, after, named);
      }
    }
  }

  lemma RemainsOfFront(connections: seq<Connection>, c': Connection, named: seq<Topic>)
    requires connections != [] && RemainsOf(connections[..|connections|-1], c', named)
    ensures RemainsOf(connections, c', named)
  {
    var front := connections[..|connections|-1];
    var i :| 0 <= i < |front| && Survives(front[i], named) && IsWithout(front[i], c', named);
    assert connections[i] == front[i];
  }

  lemma RemainsOfLast(connections: seq<Connection>, c': Connection, named: seq<Topic>)
    requires connections != []
    requires var last := connections[|connections|-1]; Survives(last, named) && IsWithout(last, c', named)
    ensures RemainsOf(connections, c', named)
  {
  }

  lemma KeptInFront(c: Connection, kept: seq<Connection>, after: seq<Connection>, named: seq<Topic>)
    requires kept <= after && Kept(c, kept, named)
    ensures Kept(c, after, named)
  {
    var j :| 0 <= j < |kept| && IsWithout(c, kept[j], named);
    assert after[j] == kept[j];
  }

  lemma KeptLast(c: Connection, c': Connection, after: seq<Connection>, named: seq<Topic>)
    requires after != [] && after[|after|-1] == c' && IsWithout(c, c', named)
    ensures Kept(c, after, named)
  {
  }

  lemma KeptOrDropped(c: Connection, c': Connection, named: seq<Topic>)
    requires c' == Connection(c.client, Without(c.topics, named))
    ensures IsWithout(c, c', named) && (c'.topics != [] <==> Survives(c, named))
  {
    WithoutKeeps(c.topics, named);
  }

  // ---------- Runs that mix both ----------

  datatype Request = SubscribeTo(topics: seq<Topic>) | UnsubscribeFrom(topics: seq<Topic>)

  /** Connections, and how many were ever made, after a run of requests that starts from none. */
  function After(requests: seq<Request>, capacity: nat): (seq<Connection>, nat)
    requires capacity >= 1
  {
    if requests == [] then ([], 0)
    else
      var before := After(requests[..|requests|-1], capacity);
      match requests[|requests|-1]
      case SubscribeTo(topics) => Subscribed(before.0, before.1, topics, capacity)
      case UnsubscribeFrom(topics) => (Unsubscribed(before.0, topics), before.1)
  }

  /** How often `t` was asked for since it was last given up. */
  function Wanted(requests: seq<Request>, t: Topic): nat {
    if requests == [] then 0
    else
      var before := Wanted(requests[..|requests|-1], t);
      match requests[|requests|-1]
      case SubscribeTo(topics) => before + multiset(topics)[t]
      case UnsubscribeFrom(topics) => if t in topics then 0 else before
  }

  /**
   Whatever is subscribed and unsubscribed, a topic is assigned as often as it was asked for since it was last given up,
   no connection is over capacity and all are kept in the order they were made in.
   */
  lemma {:induction false} RunAssignsExactly(requests: seq<Request>, capacity: nat, t: Topic)
    requires capacity >= 1
    ensures var (connections, made) := After(requests, capacity);
      && Assigned(connections, t) == Wanted(requests, t)
      && WithinCapacity(connections, capacity) && Numbered(connections, made)
  {
    if requests != [] {
      hide Subscribed, Unsubscribed, Assigned, Greedy, NewConnections, Spare;
      var front, last := requests[..|requests|-1], requests[|requests|-1];
      RunAssignsExactly(front, capacity, t);
      var (connections, made) := After(front, capacity);
      match last
      case SubscribeTo(topics) =>
        SubscribeAddsExactly(connections, made, topics, capacity, t);
        SubscribeMakesExactly(connections, made, topics, capacity);
      case UnsubscribeFrom(topics) =>
        UnsubscribeRemovesExactly(connections, topics, t);
        UnsubscribeKeepsExactly(connections, made, topics);
        UnsubscribeStaysWithin(connections, topics, capacity);
    }
  }

  lemma {:induction false} UnsubscribeStaysWithin(connections: seq<Connection>, named: seq<Topic>, capacity: nat)
    requires WithinCapacity(connections, capacity)
    ensures WithinCapacity(Unsubscribed(connections, named), capacity)
  {
    if connections != [] {
      var n := |connections| - 1;
      UnsubscribeStaysWithin(connections[..n], named, capacity);
      WithoutKeeps(connections[n].topics, named);
    }
  }

  /**
   After any run, one more subscribe makes exactly as many connections as the topics need that do not fit into the
   places the load leaves; asking for nothing makes one when no place is left.
   */
  lemma RunMakesExactly(requests: seq<Request>, topics: seq<Topic>, capacity: nat)
    requires capacity >= 1
    ensures var (before, made) := After(requests, capacity);
      var (after, made') := After(requests + [SubscribeTo(topics)], capacity);
      var room := |before| * capacity - Load(before);
      var extra := if topics == [] then (if room == 0 then 1 else 0)
        else if |topics| <= room then 0 else CeilDiv(|topics| - room, capacity);
      && 0 <= room && |after| == |before| + extra && made' == made + extra
      && (forall i :: |before| <= i < |after| ==> topics != [] ==> after[i].topics != [])
  {
    hide After, Load, Subscribed, CeilDiv, Spare, Greedy;
    var (before, made) := After(requests, capacity);
    RunAssignsExactly(requests, capacity, "");
    SpareIsRest(before, capacity);
    SubscribeMakesExactly(before, made, topics, capacity);
    AfterOneMore(requests, SubscribeTo(topics), capacity);
    if |topics| <= Spare(before, capacity) {
      NothingLeft(capacity);
    }
  }

  lemma NothingLeft(capacity: nat)
    requires capacity >= 1
    ensures CeilDiv(0, capacity) == 0
  {
    QuotientIs(capacity - 1, capacity, 0, capacity - 1);
  }

  lemma AfterOneMore(requests: seq<Request>, request: Request, capacity: nat)
    requires capacity >= 1 && request.SubscribeTo?
    ensures var before := After(requests, capacity);
      After(requests + [request], capacity) == Subscribed(before.0, before.1, request.topics, capacity)
  {
    hide Subscribed;
    var all := requests + [request];
    assert all[..|all|-1] == requests && all[|all|-1] == request;
  }
}
