/** Spreading topics over broker connections of limited capacity. Client calls are taken to succeed. */
module MultiPubSub {

  type Topic = string

  /** A connection made by the factory, and the topics it is subscribed to. */
  datatype Connection = Connection(client: nat, topics: seq<Topic>)

  // ---------- One subscribe ----------

  predicate HasFree(connections: seq<Connection>, capacity: nat) {
    exists i :: 0 <= i < |connections| && |connections[i].topics| < capacity
  }

  /** How many of `n` topics fit on a connection. */
  function Room(c: Connection, capacity: nat, n: nat): nat {
    if |c.topics| >= capacity then 0
    else if capacity - |c.topics| <= n then capacity - |c.topics|
    else n
  }

  /** One pass over the connections, each free one taking what fits from the front of the topics. */
  function Fill(connections: seq<Connection>, topics: seq<Topic>, capacity: nat): (r: (seq<Connection>, seq<Topic>))
    ensures |r.0| == |connections| && |r.1| <= |topics|
  {
    if connections == [] then ([], topics)
    else
      var c := connections[0];
      var k := Room(c, capacity, |topics|);
      var rest := Fill(connections[1..], topics[k..], capacity);
      ([c.(topics := c.topics + topics[..k])] + rest.0, rest.1)
  }

  lemma {:induction false} FillTakesSomething(connections: seq<Connection>, topics: seq<Topic>, capacity: nat)
    requires HasFree(connections, capacity) && topics != []
    ensures |Fill(connections, topics, capacity).1| < |topics|
  {
    var c := connections[0];
    var k := Room(c, capacity, |topics|);
    if |c.topics| >= capacity {
      var i :| 0 <= i < |connections| && |connections[i].topics| < capacity;
      assert connections[1..][i-1] == connections[i];
      assert topics[0..] == topics;
      FillTakesSomething(connections[1..], topics, capacity);
    }
  }

  /** Connections after subscribing; new ones are numbered from the current count of connections ever made. */
  function Subscribed(connections: seq<Connection>, made: nat, topics: seq<Topic>, capacity: nat)
    : (r: (seq<Connection>, nat))
    requires capacity >= 1
    ensures r.1 >= made
    decreases |topics|, if HasFree(connections, capacity) then 0 else 1
  {
    if !HasFree(connections, capacity) then
      var more := connections + [Connection(made, [])];
      assert |more[|connections|].topics| < capacity;
      Subscribed(more, made + 1, topics, capacity)
    else
      var (filled, rest) := Fill(connections, topics, capacity);
      if rest == [] then (filled, made)
      else
        FillTakesSomething(connections, topics, capacity);
        Subscribed(filled, made, rest, capacity)
  }

  // ---------- Nothing lost, nothing overfull, nobody moved ----------

  /** How many times a topic is assigned, over all connections. */
  function Assigned(connections: seq<Connection>, t: Topic): nat {
    if connections == [] then 0 else multiset(connections[0].topics)[t] + Assigned(connections[1..], t)
  }

  /** How many topics are assigned in all. */
  function Load(connections: seq<Connection>): nat {
    if connections == [] then 0 else |connections[0].topics| + Load(connections[1..])
  }

  ghost predicate WithinCapacity(connections: seq<Connection>, capacity: nat) {
    forall i :: 0 <= i < |connections| ==> |connections[i].topics| <= capacity
  }

  /** Old connections stay where they are and only gain topics behind the ones they had. */
  ghost predicate Extends(before: seq<Connection>, after: seq<Connection>) {
    |before| <= |after| && forall i :: 0 <= i < |before| ==>
      before[i].client == after[i].client && before[i].topics <= after[i].topics
  }

  lemma {:induction false} FillAddsExactly(connections: seq<Connection>, topics: seq<Topic>, capacity: nat, t: Topic)
    ensures var (filled, rest) := Fill(connections, topics, capacity);
      && Assigned(filled, t) + multiset(rest)[t] == Assigned(connections, t) + multiset(topics)[t]
      && Load(filled) + |rest| == Load(connections) + |topics|
  {
    if connections != [] {
      hide Room;
      var c := connections[0];
      var k := Room(c, capacity, |topics|);
      var rest := Fill(connections[1..], topics[k..], capacity);
      var filled := [c.(topics := c.topics + topics[..k])] + rest.0;
      FillAddsExactly(connections[1..], topics[k..], capacity, t);
      assert filled[1..] == rest.0;
      assert topics == topics[..k] + topics[k..];
    }
  }

  lemma {:induction false} FillExtends(connections: seq<Connection>, topics: seq<Topic>, capacity: nat)
    ensures Extends(connections, Fill(connections, topics, capacity).0)
    ensures WithinCapacity(connections, capacity) ==> WithinCapacity(Fill(connections, topics, capacity).0, capacity)
  {
    if connections != [] {
      var c := connections[0];
      var k := Room(c, capacity, |topics|);
      var rest := Fill(connections[1..], topics[k..], capacity).0;
      FillExtends(connections[1..], topics[k..], capacity);
      var filled := [c.(topics := c.topics + topics[..k])] + rest;
      assert forall i :: 0 < i < |connections| ==> connections[i] == connections[1..][i-1] && filled[i] == rest[i-1];
    }
  }

  lemma {:induction false} AssignedAppend(connections: seq<Connection>, c: Connection, t: Topic)
    ensures Assigned(connections + [c], t) == Assigned(connections, t) + multiset(c.topics)[t]
    ensures Load(connections + [c]) == Load(connections) + |c.topics|
  {
    if connections == [] {
      assert [] + [c] == [c];
    } else {
      AssignedAppend(connections[1..], c, t);
      assert (connections + [c])[1..] == connections[1..] + [c];
    }
  }

  /** A subscribe adds exactly the requested topics, keeps every connection within capacity and moves nothing. */
  lemma {:induction false} SubscribeAddsExactly(
    connections: seq<Connection>, made: nat, topics: seq<Topic>, capacity: nat, t: Topic)
    requires capacity >= 1
    ensures var after := Subscribed(connections, made, topics, capacity).0;
      && Assigned(after, t) == Assigned(connections, t) + multiset(topics)[t]
      && Load(after) == Load(connections) + |topics|
      && (WithinCapacity(connections, capacity) ==> WithinCapacity(after, capacity))
      && Extends(connections, after)
    decreases |topics|, if HasFree(connections, capacity) then 0 else 1
  {
    hide Fill, Assigned, Load;
    if !HasFree(connections, capacity) {
      var more := connections + [Connection(made, [])];
      assert |more[|connections|].topics| < capacity;
      AssignedAppend(connections, Connection(made, []), t);
      SubscribeAddsExactly(more, made + 1, topics, capacity, t);
    } else {
      FillAddsExactly(connections, topics, capacity, t);
      FillExtends(connections, topics, capacity);
      var (filled, rest) := Fill(connections, topics, capacity);
      if rest != [] {
        FillTakesSomething(connections, topics, capacity);
        SubscribeAddsExactly(filled, made, rest, capacity, t);
      }
    }
  }

  // ---------- As few connections as possible ----------

  /** All connections full, except that the last one only has to hold something. */
  ghost predicate Packed(connections: seq<Connection>, capacity: nat) {
    forall i :: 0 <= i < |connections| ==>
      if i < |connections| - 1 then |connections[i].topics| == capacity else 1 <= |connections[i].topics| <= capacity
  }

  function CeilDiv(n: nat, d: nat): nat
    requires d >= 1
  {
    (n + d - 1) / d
  }

  lemma {:induction false} PackedCount(connections: seq<Connection>, capacity: nat)
    requires capacity >= 1 && Packed(connections, capacity)
    ensures |connections| == CeilDiv(Load(connections), capacity)
  {
    PackedTotal(connections, capacity);
    var n := |connections|;
    if n > 0 {
      var total, last := Load(connections), |connections[n-1].topics|;
      QuotientIs(total + capacity - 1, capacity, n, last - 1);
    } else {
      QuotientIs(capacity - 1, capacity, 0, capacity - 1);
    }
  }

  lemma QuotientIs(a: nat, d: nat, q: nat, r: nat)
    requires d >= 1 && r < d && a == q * d + r
    ensures a / d == q
  {
    var p := a / d;
    assert a == p * d + a % d;
    OneMultipleApart(p, q, d);
  }

  lemma {:induction false} OneMultipleApart(p: nat, q: nat, d: nat)
    ensures p < q ==> p * d + d <= q * d
    ensures q < p ==> q * d + d <= p * d
    decreases p + q
  {
    if p < q {
      OneMore(q - 1, d);
      OneMultipleApart(p, q - 1, d);
    } else if q < p {
      OneMore(p - 1, d);
      OneMultipleApart(p - 1, q, d);
    }
  }

  lemma {:induction false} PackedTotal(connections: seq<Connection>, capacity: nat)
    requires Packed(connections, capacity)
    ensures connections == [] ==> Load(connections) == 0
    ensures connections != [] ==>
      Load(connections) == (|connections| - 1) * capacity + |connections[|connections|-1].topics|
  {
    if |connections| > 1 {
      var tail, n := connections[1..], |connections|;
      assert forall i :: 0 <= i < |tail| ==> tail[i] == connections[i+1];
      PackedTotal(tail, capacity);
      assert Load(connections) == |connections[0].topics| + Load(tail);
      OneMore(n - 2, capacity);
    } else if |connections| == 1 {
      assert Load(connections[1..]) == 0;
    }
  }

  lemma OneMore(n: nat, d: nat)
    ensures n * d + d == (n + 1) * d
  {
  }

  /** In a packed list, or one with an empty connection last, only the last connection takes topics. */
  lemma {:induction false} FillLast(connections: seq<Connection>, topics: seq<Topic>, capacity: nat)
    requires connections != [] && topics != []
    requires forall i :: 0 <= i < |connections| - 1 ==> |connections[i].topics| == capacity
    requires |connections[|connections|-1].topics| <= capacity
    ensures var (filled, rest) := Fill(connections, topics, capacity);
      var last := connections[|connections|-1];
      && (forall i :: 0 <= i < |connections| - 1 ==> filled[i] == connections[i])
      && |filled[|connections|-1].topics| == |last.topics| + Room(last, capacity, |topics|)
      && rest == topics[Room(last, capacity, |topics|)..]
  {
    if |connections| > 1 {
      assert topics[0..] == topics;
      FillLast(connections[1..], topics, capacity);
      var (filled, rest) := Fill(connections[1..], topics, capacity);
      var c := connections[0];
      assert c.topics + topics[..0] == c.topics;
      assert forall i :: 0 < i < |connections| ==> connections[1..][i-1] == connections[i];
    } else {
      var k := Room(connections[0], capacity, |topics|);
      assert Fill(connections[1..], topics[k..], capacity) == ([], topics[k..]);
    }
  }

  lemma {:induction false} SubscribePacks(connections: seq<Connection>, made: nat, topics: seq<Topic>, capacity: nat)
    requires capacity >= 1 && topics != []
    requires Packed(connections, capacity)
      || (connections != [] && |connections[|connections|-1].topics| == 0
          && Packed(connections[..|connections|-1], capacity) && !HasFree(connections[..|connections|-1], capacity))
    ensures Packed(Subscribed(connections, made, topics, capacity).0, capacity)
    decreases |topics|, if HasFree(connections, capacity) then 0 else 1
  {
    hide Fill;
    var n := |connections|;
    if !HasFree(connections, capacity) {
      var more := connections + [Connection(made, [])];
      assert more[..n] == connections && |more[n].topics| < capacity;
      SubscribePacks(more, made + 1, topics, capacity);
    } else {
      assert n > 0;
      assert forall i :: 0 <= i < n - 1 ==> connections[..n-1][i] == connections[i];
      FillLast(connections, topics, capacity);
      FillTakesSomething(connections, topics, capacity);
      var (filled, rest) := Fill(connections, topics, capacity);
      if rest != [] {
        SubscribePacks(filled, made, rest, capacity);
      }
    }
  }

  /** Connections after a run of subscribes, starting from none. */
  function AfterRun(requests: seq<seq<Topic>>, capacity: nat): (r: (seq<Connection>, nat))
    requires capacity >= 1
  {
    if requests == [] then ([], 0)
    else
      var before := AfterRun(requests[..|requests|-1], capacity);
      Subscribed(before.0, before.1, requests[|requests|-1], capacity)
  }

  function TotalTopics(requests: seq<seq<Topic>>): nat {
    if requests == [] then 0 else TotalTopics(requests[..|requests|-1]) + |requests[|requests|-1]|
  }

  /** Any run of non-empty subscribes uses as few connections as the capacity allows. */
  lemma {:induction false} RunUsesFewestConnections(requests: seq<seq<Topic>>, capacity: nat)
    requires capacity >= 1 && forall i :: 0 <= i < |requests| ==> requests[i] != []
    ensures var connections := AfterRun(requests, capacity).0;
      && Packed(connections, capacity) && Load(connections) == TotalTopics(requests)
      && |connections| == CeilDiv(TotalTopics(requests), capacity)
  {
    if requests != [] {
      var front, last := requests[..|requests|-1], requests[|requests|-1];
      RunUsesFewestConnections(front, capacity);
      var before := AfterRun(front, capacity);
      SubscribePacks(before.0, before.1, last, capacity);
      SubscribeAddsExactly(before.0, before.1, last, capacity, "");
    }
    PackedCount(AfterRun(requests, capacity).0, capacity);
  }

  /** An empty subscribe makes a useless connection exactly when no connection has room. */
  lemma EmptySubscribeWastes(connections: seq<Connection>, made: nat, capacity: nat)
    requires capacity >= 1
    ensures var full := forall i :: 0 <= i < |connections| ==> |connections[i].topics| >= capacity;
      |Subscribed(connections, made, [], capacity).0| == |connections| + if full then 1 else 0
  {
    var more := connections + [Connection(made, [])];
    assert |more[|connections|].topics| < capacity;
    assert HasFree(more, capacity);
  }

  /** A packed list has room exactly when its load is no multiple of the capacity. */
  lemma PackedRoom(connections: seq<Connection>, capacity: nat)
    requires capacity >= 1 && Packed(connections, capacity)
    ensures HasFree(connections, capacity) <==> Load(connections) % capacity != 0
  {
    PackedTotal(connections, capacity);
    var n := |connections|;
    if n > 0 {
      var last := |connections[n-1].topics|;
      hide Load;
      if last == capacity {
        OneMore(n - 1, capacity);
        RemainderIs(Load(connections), capacity, n, 0);
      } else {
        assert HasFree(connections, capacity);
        RemainderIs(Load(connections), capacity, n - 1, last);
      }
    }
  }

  lemma RemainderIs(a: nat, d: nat, q: nat, r: nat)
    requires d >= 1 && r < d && a == q * d + r
    ensures a % d == r
  {
    QuotientIs(a, d, q, r);
    assert a == (a / d) * d + a % d;
  }

  /** Whether the last subscribe asked for nothing while everything was full. */
  predicate LeavesSpare(requests: seq<seq<Topic>>, capacity: nat)
    requires capacity >= 1
  {
    requests != [] && requests[|requests|-1] == [] && TotalTopics(requests) % capacity == 0
  }

  /** Full connections followed by an empty one. */
  ghost predicate FullThenEmpty(connections: seq<Connection>, capacity: nat) {
    && connections != [] && connections[|connections|-1].topics == []
    && Packed(connections[..|connections|-1], capacity) && !HasFree(connections[..|connections|-1], capacity)
  }

  lemma EmptySubscribeIs(connections: seq<Connection>, made: nat, capacity: nat)
    requires capacity >= 1
    ensures Subscribed(connections, made, [], capacity).0
      == if HasFree(connections, capacity) then connections else connections + [Connection(made, [])]
  {
    var more := connections + [Connection(made, [])];
    assert |more[|connections|].topics| < capacity;
    FillNothing(connections, capacity);
    FillNothing(more, capacity);
  }

  lemma {:induction false} FillNothing(connections: seq<Connection>, capacity: nat)
    ensures Fill(connections, [], capacity) == (connections, [])
  {
    if connections != [] {
      var c, none := connections[0], [];
      FillNothing(connections[1..], capacity);
      assert Room(c, capacity, 0) == 0;
      assert none[0..] == none && c.topics + none[..0] == c.topics;
      assert Fill(connections, none, capacity) == ([c] + connections[1..], none);
      assert connections == [c] + connections[1..];
    }
  }

  /**
   Any run of subscribes uses as few connections as the capacity allows, and one more exactly when the last subscribe
   asked for nothing while everything was full.
   */
  lemma {:induction false} RunUsesExactly(requests: seq<seq<Topic>>, capacity: nat)
    requires capacity >= 1
    ensures var connections, total := AfterRun(requests, capacity).0, TotalTopics(requests);
      && Load(connections) == total
      && (if LeavesSpare(requests, capacity) then FullThenEmpty(connections, capacity)
          else Packed(connections, capacity))
      && |connections| == CeilDiv(total, capacity) + if LeavesSpare(requests, capacity) then 1 else 0
  {
    var connections := AfterRun(requests, capacity).0;
    if requests != [] {
      hide Load, Packed, FullThenEmpty, Subscribed, CeilDiv;
      var front, last := requests[..|requests|-1], requests[|requests|-1];
      RunUsesExactly(front, capacity);
      var before := AfterRun(front, capacity);
      SubscribeAddsExactly(before.0, before.1, last, capacity, "");
      if last == [] {
        EmptySubscribeIs(before.0, before.1, capacity);
        EmptyKeepsShape(before.0, before.1, capacity, LeavesSpare(front, capacity));
      } else {
        SubscribeFromEither(before.0, before.1, last, capacity);
      }
    }
    ShapeCount(connections, capacity, LeavesSpare(requests, capacity));
  }

  lemma SubscribeFromEither(connections: seq<Connection>, made: nat, topics: seq<Topic>, capacity: nat)
    requires capacity >= 1 && topics != []
    requires Packed(connections, capacity) || FullThenEmpty(connections, capacity)
    ensures Packed(Subscribed(connections, made, topics, capacity).0, capacity)
  {
    hide Subscribed;
    SubscribePacks(connections, made, topics, capacity);
  }

  lemma EmptyKeepsShape(connections: seq<Connection>, made: nat, capacity: nat, spare: bool)
    requires capacity >= 1
    requires if spare then FullThenEmpty(connections, capacity) else Packed(connections, capacity)
    ensures var after := if HasFree(connections, capacity) then connections else connections + [Connection(made, [])];
      if Load(connections) % capacity == 0 then FullThenEmpty(after, capacity) else Packed(after, capacity)
  {
    hide Load, Packed;
    var n := |connections|;
    if spare {
      assert HasFree(connections, capacity);
      SpareLoad(connections, capacity);
    } else {
      PackedRoom(connections, capacity);
      assert (connections + [Connection(made, [])])[..n] == connections;
    }
  }

  lemma SpareLoad(connections: seq<Connection>, capacity: nat)
    requires capacity >= 1 && FullThenEmpty(connections, capacity)
    ensures Load(connections) == Load(connections[..|connections|-1]) && Load(connections) % capacity == 0
  {
    hide Load;
    var n := |connections| - 1;
    AssignedAppend(connections[..n], connections[n], "");
    assert connections == connections[..n] + [connections[n]];
    PackedRoom(connections[..n], capacity);
  }

  lemma ShapeCount(connections: seq<Connection>, capacity: nat, spare: bool)
    requires capacity >= 1
    requires if spare then FullThenEmpty(connections, capacity) else Packed(connections, capacity)
    ensures |connections| == CeilDiv(Load(connections), capacity) + if spare then 1 else 0
  {
    hide Load, Packed, CeilDiv;
    if spare {
      SpareLoad(connections, capacity);
      PackedCount(connections[..|connections|-1], capacity);
    } else {
      PackedCount(connections, capacity);
    }
  }

  // ---------- Unsubscribe ----------

  /** Topics of a list without the named ones. */
  function Without(topics: seq<Topic>, named: seq<Topic>): seq<Topic> {
    if topics == [] then []
    else
      var last := topics[|topics|-1];
      var kept := Without(topics[..|topics|-1], named);
      if last in named then kept else kept + [last]
  }

  lemma {:induction false} WithoutExactly(topics: seq<Topic>, named: seq<Topic>, t: Topic)
    ensures multiset(Without(topics, named))[t] == if t in named then 0 else multiset(topics)[t]
  {
    if topics != [] {
      var last := topics[|topics|-1];
      assert topics == topics[..|topics|-1] + [last];
      WithoutExactly(topics[..|topics|-1], named, t);
    }
  }

  function KeepUnlessEmpty(kept: seq<Connection>, c: Connection): seq<Connection> {
    if c.topics == [] then kept else kept + [c]
  }

  function Unsubscribed(connections: seq<Connection>, named: seq<Topic>): seq<Connection> {
    if connections == [] then []
    else
      var last := connections[|connections|-1];
      var remaining := Without(last.topics, named);
      KeepUnlessEmpty(Unsubscribed(connections[..|connections|-1], named), Connection(last.client, remaining))
  }

  lemma AssignedLast(connections: seq<Connection>, t: Topic)
    requires connections != []
    ensures var n := |connections| - 1;
      Assigned(connections, t) == Assigned(connections[..n], t) + multiset(connections[n].topics)[t]
  {
    hide Assigned;
    var n := |connections| - 1;
    AssignedAppend(connections[..n], connections[n], t);
    assert connections == connections[..n] + [connections[n]];
  }

  lemma KeepUnlessEmptyAssigned(kept: seq<Connection>, c: Connection, t: Topic)
    ensures Assigned(KeepUnlessEmpty(kept, c), t) == Assigned(kept, t) + multiset(c.topics)[t]
  {
    hide Assigned;
    if c.topics != [] {
      AssignedAppend(kept, c, t);
    }
  }

  /** Unsubscribing takes away every assignment of a named topic and no assignment of any other. */
  lemma {:induction false} UnsubscribeRemovesExactly(connections: seq<Connection>, named: seq<Topic>, t: Topic)
    ensures Assigned(Unsubscribed(connections, named), t) == if t in named then 0 else Assigned(connections, t)
  {
    if connections != [] {
      hide Assigned, Without, KeepUnlessEmpty;
      var front, last := connections[..|connections|-1], connections[|connections|-1];
      var remaining := Without(last.topics, named);
      UnsubscribeRemovesExactly(front, named, t);
      WithoutExactly(last.topics, named, t);
      AssignedLast(connections, t);
      KeepUnlessEmptyAssigned(Unsubscribed(front, named), Connection(last.client, remaining), t);
    }
  }

  /** No connection without topics is kept. */
  lemma {:induction false} UnsubscribeKeepsNoEmpty(connections: seq<Connection>, named: seq<Topic>)
    ensures forall i :: 0 <= i < |Unsubscribed(connections, named)| ==> Unsubscribed(connections, named)[i].topics != []
    ensures |Unsubscribed(connections, named)| <= |connections|
  {
    if connections != [] {
      hide Without;
      UnsubscribeKeepsNoEmpty(connections[..|connections|-1], named);
    }
  }

  // ---------- Publishing ----------

  const MAX_REQ_PER_SECOND_PER_CONNECTION: nat := 100

  function Chunks<T>(payloads: seq<T>, size: nat): seq<seq<T>>
    requires size >= 1
  {
    if payloads == [] then []
    else if |payloads| <= size then [payloads]
    else [payloads[..size]] + Chunks(payloads[size..], size)
  }

  function Joined<T>(chunks: seq<seq<T>>): seq<T> {
    if chunks == [] then [] else chunks[0] + Joined(chunks[1..])
  }

  /** The chunks are the payloads cut up in order, none over the size or empty, and there are as few as possible. */
  lemma {:induction false} ChunksCover<T>(payloads: seq<T>, size: nat)
    requires size >= 1
    ensures Joined(Chunks(payloads, size)) == payloads
    ensures forall i :: 0 <= i < |Chunks(payloads, size)| ==> 1 <= |Chunks(payloads, size)[i]| <= size
    ensures |Chunks(payloads, size)| == CeilDiv(|payloads|, size)
  {
    var n := |payloads|;
    if n == 0 {
      QuotientIs(size - 1, size, 0, size - 1);
    } else if n <= size {
      assert Joined([payloads]) == payloads + [];
      QuotientIs(n + size - 1, size, 1, n - 1);
    } else {
      var rest := payloads[size..];
      ChunksCover(rest, size);
      assert Chunks(payloads, size)[1..] == Chunks(rest, size);
      OneMoreChunk(n, size);
    }
  }

  lemma OneMoreChunk(n: nat, size: nat)
    requires 1 <= size < n
    ensures CeilDiv(n, size) == CeilDiv(n - size, size) + 1
  {
    var a := n - 1;
    var q := a / size;
    assert a == q * size + a % size;
    OneMore(q, size);
    QuotientIs(a + size, size, q + 1, a % size);
  }

  // ---------- The client object ----------

  ghost function FilledSoFar(done: seq<Connection>, rest: (seq<Connection>, seq<Topic>))
    : (seq<Connection>, seq<Topic>)
  {
    (done + rest.0, rest.1)
  }

  lemma NothingFilledYet(rest: (seq<Connection>, seq<Topic>))
    ensures FilledSoFar([], rest) == rest
  {
    assert [] + rest.0 == rest.0;
  }

  lemma FilledOneMore(done: seq<Connection>, c: Connection, rest: (seq<Connection>, seq<Topic>))
    ensures FilledSoFar(done, ([c] + rest.0, rest.1)) == FilledSoFar(done + [c], rest)
  {
    assert done + ([c] + rest.0) == done + [c] + rest.0;
  }

  class MultiPubSubClient {
    const connectionsPerTopic: nat
    var clientToTopics: seq<Connection>
    var made: nat
    var publishClients: seq<nat>

    /** Publishing connections are told apart by the order they were made in. */
    ghost predicate Valid()
      reads this
    {
      && connectionsPerTopic >= 1
      && (forall i, j :: 0 <= i < j < |publishClients| ==> publishClients[i] < publishClients[j])
      && (forall i :: 0 <= i < |publishClients| ==> publishClients[i] < made)
    }

    constructor (connectionsPerTopic: nat)
      requires connectionsPerTopic >= 1
      ensures Valid() && this.connectionsPerTopic == connectionsPerTopic
      ensures clientToTopics == [] && made == 0 && publishClients == []
    {
      this.connectionsPerTopic := connectionsPerTopic;
      clientToTopics, made, publishClients := [], 0, [];
    }

    /**
     * Hands each chunk to the publishing connection of the same index, making connections first as needed;
     * `sent` lists the hand-overs as (connection, chunk).
     */
    method Publish<T>(payloads: seq<T>) returns (sent: seq<(nat, seq<T>)>)
      requires Valid()
      modifies this`publishClients, this`made
      ensures Valid() && old(publishClients) <= publishClients
      ensures var needed := CeilDiv(|payloads|, 100);
        |publishClients| == (if needed > old(|publishClients|) then needed else old(|publishClients|))
        && made - old(made) == |publishClients| - old(|publishClients|)
      ensures Joined(seq(|sent|, i requires 0 <= i < |sent| => sent[i].1)) == payloads
      ensures forall i :: 0 <= i < |sent| ==> 1 <= |sent[i].1| <= 100
      ensures forall i, j :: 0 <= i < j < |sent| ==> sent[i].0 != sent[j].0
      ensures |sent| <= |publishClients| && forall i :: 0 <= i < |sent| ==> sent[i].0 == publishClients[i]
    {
      var neededClientsCount := CeilDiv(|payloads|, MAX_REQ_PER_SECOND_PER_CONNECTION);
      while |publishClients| < neededClientsCount
        invariant Valid() && old(publishClients) <= publishClients
        invariant |publishClients| <= old(|publishClients|) || |publishClients| <= neededClientsCount
        invariant made - old(made) == |publishClients| - old(|publishClients|)
      {
        publishClients := publishClients + [made];
        made := made + 1;
      }
      var chunksToPublish := Chunks(payloads, MAX_REQ_PER_SECOND_PER_CONNECTION);
      ChunksCover(payloads, MAX_REQ_PER_SECOND_PER_CONNECTION);
      var clients := publishClients;
      sent := seq(|chunksToPublish|, i requires 0 <= i < |chunksToPublish| => (clients[i], chunksToPublish[i]));
      assert seq(|sent|, i requires 0 <= i < |sent| => sent[i].1) == chunksToPublish;
    }

    method Subscribe(topics: seq<Topic>)
      requires Valid()
      modifies this`clientToTopics, this`made
      ensures Valid()
      ensures (clientToTopics, made) == Subscribed(old(clientToTopics), old(made), topics, connectionsPerTopic)
      decreases |topics|, if HasFree(clientToTopics, connectionsPerTopic) then 0 else 1
    {
      hide Fill;
      if !HasFree(clientToTopics, connectionsPerTopic) {
        clientToTopics := clientToTopics + [Connection(made, [])];
        made := made + 1;
        assert |clientToTopics[|old(clientToTopics)|].topics| < connectionsPerTopic;
        Subscribe(topics);
        return;
      }
      if topics != [] {
        FillTakesSomething(clientToTopics, topics, connectionsPerTopic);
      }
      var topicToAdd := FillFreeClients(topics);
      if topicToAdd != [] {
        Subscribe(topicToAdd);
      }
    }

    method FillFreeClients(topics: seq<Topic>) returns (topicToAdd: seq<Topic>)
      modifies this`clientToTopics
      ensures (clientToTopics, topicToAdd) == Fill(old(clientToTopics), topics, connectionsPerTopic)
    {
      topicToAdd := topics;
      ghost var before := clientToTopics;
      assert before[0..] == before && before[..0] == [];
      NothingFilledYet(Fill(before, topics, connectionsPerTopic));
      for i := 0 to |clientToTopics|
        invariant |clientToTopics| == |before| && clientToTopics[i..] == before[i..]
        invariant Fill(before, topics, connectionsPerTopic)
          == FilledSoFar(clientToTopics[..i], Fill(before[i..], topicToAdd, connectionsPerTopic))
      {
        hide Room;
        var c := clientToTopics[i];
        assert c == before[i..][0] && before[i..][1..] == before[i+1..];
        var k := Room(c, connectionsPerTopic, |topicToAdd|);
        var topicsToSubscribe := topicToAdd[..k];
        var filled := c.(topics := c.topics + topicsToSubscribe);
        ghost var done := clientToTopics[..i];
        clientToTopics := clientToTopics[i := filled];
        topicToAdd := topicToAdd[k..];
        assert clientToTopics[..i+1] == done + [filled];
        FilledOneMore(done, filled, Fill(before[i+1..], topicToAdd, connectionsPerTopic));
      }
      assert clientToTopics[..|before|] == clientToTopics && before[|before|..] == [];
      assert Fill([], topicToAdd, connectionsPerTopic) == ([], topicToAdd);
      assert clientToTopics + [] == clientToTopics;
    }

    method Unsubscribe(topics: seq<Topic>)
      requires Valid()
      modifies this`clientToTopics
      ensures Valid() && clientToTopics == Unsubscribed(old(clientToTopics), topics)
    {
      var updatedClientToTopics: seq<Connection> := [];
      for i := 0 to |clientToTopics|
        invariant updatedClientToTopics == Unsubscribed(clientToTopics[..i], topics)
      {
        hide Without;
        assert clientToTopics[..i+1][..i] == clientToTopics[..i] && clientToTopics[..i+1][i] == clientToTopics[i];
        var remainingTopics := Without(clientToTopics[i].topics, topics);
        if |remainingTopics| > 0 {
          updatedClientToTopics := updatedClientToTopics + [Connection(clientToTopics[i].client, remainingTopics)];
        }
      }
      assert clientToTopics[..|clientToTopics|] == clientToTopics;
      clientToTopics := updatedClientToTopics;
    }
  }
}
