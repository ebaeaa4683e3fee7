/**
 A queue that runs one operation at a time and keeps only the latest operation per id.

 Enqueueing and the settling of the running operation are the two atomic steps; everything the source does between
 two awaits belongs to one of them.
 */
module OperationQueues {
  import opened Outcomes

  type Id = string

  /** An operation, told apart from any other. */
  type Op = nat

  datatype Item = Item(id: Id, operation: Op)

  /**
   The fields of the queue, and the history: items started so far, enqueues that returned true, and the ids of those
   that took a new place in the queue.
   */
  datatype State = State(
    queue: seq<Item>, isProcessing: bool, activeOperations: set<Id>,
    started: seq<Item>, accepted: seq<Item>, pushed: seq<Id>)

  const INITIAL := State([], false, {}, [], [], [])

  /** Index of the item with this id, or the length of the queue. */
  function FindIndex(queue: seq<Item>, id: Id): (i: nat)
    ensures i <= |queue| && (i < |queue| ==> queue[i].id == id)
    ensures forall k :: 0 <= k < i ==> queue[k].id != id
  {
    if queue == [] then 0
    else if queue[0].id == id then 0
    else
      var rest := FindIndex(queue[1..], id);
      assert forall k :: 0 < k < |queue| ==> queue[k] == queue[1..][k-1];
      rest + 1
  }

  /** One turn of the processing loop: start the next item, or stop processing. */
  function TakeNext(s: State): State {
    if s.queue == [] then s.(isProcessing := false)
    else s.(queue := s.queue[1..], started := s.started + [s.queue[0]],
            activeOperations := s.activeOperations + {s.queue[0].id})
  }

  function ProcessQueue(s: State): State {
    if s.isProcessing then s else TakeNext(s.(isProcessing := true))
  }

  function Enqueued(s: State, id: Id, operation: Op): State {
    var i := FindIndex(s.queue, id);
    var accepted := s.(accepted := s.accepted + [Item(id, operation)]);
    if i < |s.queue| then accepted.(queue := s.queue[i := Item(id, operation)])
    else if id in s.activeOperations then s
    else ProcessQueue(accepted.(queue := s.queue + [Item(id, operation)], pushed := s.pushed + [id]))
  }

  /** Whether `Enqueue` returns true. */
  predicate Accepts(s: State, id: Id) {
    FindIndex(s.queue, id) < |s.queue| || id !in s.activeOperations
  }

  /** The running operation of `id` fulfils or rejects. */
  function Settled(s: State, id: Id): State {
    TakeNext(s.(activeOperations := s.activeOperations - {id}))
  }

  datatype Event = Request(id: Id, operation: Op) | Settlement(id: Id)

  predicate Enabled(s: State, e: Event) {
    e.Settlement? ==> e.id in s.activeOperations
  }

  function Step(s: State, e: Event): State {
    match e
    case Request(id, operation) => Enqueued(s, id, operation)
    case Settlement(id) => Settled(s, id)
  }

  // ---------- Invariant ----------

  function Ids(items: seq<Item>): (ids: seq<Id>)
    ensures |ids| == |items| && forall i :: 0 <= i < |items| ==> ids[i] == items[i].id
  {
    seq(|items|, i requires 0 <= i < |items| => items[i].id)
  }

  /** Operation of the last accepted request for `id`, from the requests alone. */
  function Latest(accepted: seq<Item>, id: Id): Option<Op> {
    if accepted == [] then None
    else if accepted[|accepted|-1].id == id then Some(accepted[|accepted|-1].operation)
    else Latest(accepted[..|accepted|-1], id)
  }

  ghost predicate OneAtATime(s: State) {
    && (forall i, j :: 0 <= i < j < |s.queue| ==> s.queue[i].id != s.queue[j].id)
    && (forall i :: 0 <= i < |s.queue| ==> s.queue[i].id !in s.activeOperations)
    && (if s.isProcessing
        then s.started != [] && s.activeOperations == {s.started[|s.started|-1].id}
        else s.activeOperations == {} && s.queue == [])
  }

  /** Every place taken in the queue is started or still waiting, in the order the places were taken. */
  ghost predicate InOrder(s: State) {
    s.pushed == Ids(s.started + s.queue)
  }

  ghost predicate QueueIsLatest(s: State) {
    forall i :: 0 <= i < |s.queue| ==> Latest(s.accepted, s.queue[i].id) == Some(s.queue[i].operation)
  }

  ghost predicate Inv(s: State) {
    OneAtATime(s) && InOrder(s) && QueueIsLatest(s)
  }

  lemma LatestAfter(accepted: seq<Item>, item: Item, id: Id)
    ensures Latest(accepted + [item], id) == if id == item.id then Some(item.operation) else Latest(accepted, id)
  {
  }

  lemma TakeNextKeepsInv(s: State)
    requires InOrder(s) && QueueIsLatest(s) && s.isProcessing && s.activeOperations == {}
    requires forall i, j :: 0 <= i < j < |s.queue| ==> s.queue[i].id != s.queue[j].id
    ensures Inv(TakeNext(s))
  {
  }

  lemma EnqueueKeepsInv(s: State, id: Id, operation: Op)
    requires Inv(s)
    ensures Inv(Enqueued(s, id, operation))
  {
    hide Latest;
    var i := FindIndex(s.queue, id);
    var item := Item(id, operation);
    forall other ensures Latest(s.accepted + [item], other)
      == if other == id then Some(operation) else Latest(s.accepted, other)
    {
      LatestAfter(s.accepted, item, other);
    }
    if i < |s.queue| {
      assert Ids(s.started + s.queue[i := item]) == Ids(s.started + s.queue);
    } else if id !in s.activeOperations {
      var pushed := s.(accepted := s.accepted + [item], queue := s.queue + [item], pushed := s.pushed + [id]);
      assert s.started + (s.queue + [item]) == s.started + s.queue + [item];
      assert Ids(s.started + s.queue + [item]) == Ids(s.started + s.queue) + [id];
      assert InOrder(pushed) && QueueIsLatest(pushed);
      if !s.isProcessing {
        TakeNextKeepsInv(pushed.(isProcessing := true));
      }
    }
  }

  lemma SettledKeepsInv(s: State, id: Id)
    requires Inv(s) && id in s.activeOperations
    ensures Inv(Settled(s, id))
  {
  }

  // ---------- Every interleaving ----------

  ghost predicate IsRun(states: seq<State>, events: seq<Event>) {
    && |states| == |events| + 1 && states[0] == INITIAL
    && forall i :: 0 <= i < |events| ==> Enabled(states[i], events[i]) && states[i+1] == Step(states[i], events[i])
  }

  /**
   In every reachable state: queued ids are distinct, at most one operation is active and its id is not queued, an
   idle processor means an empty queue, and the places taken so far are exactly the started items followed by the
   queued ones.
   */
  lemma {:induction false} InvHolds(states: seq<State>, events: seq<Event>, i: nat)
    requires IsRun(states, events) && i < |states|
    ensures Inv(states[i])
  {
    if i > 0 {
      InvHolds(states, events, i - 1);
      match events[i-1] {
        case Request(id, operation) => EnqueueKeepsInv(states[i-1], id, operation);
        case Settlement(id) => SettledKeepsInv(states[i-1], id);
      }
    }
  }

  /** Nothing started is ever undone, and places once taken keep their order. */
  lemma {:induction false} HistoryGrows(states: seq<State>, events: seq<Event>, i: nat, j: nat)
    requires IsRun(states, events) && i <= j < |states|
    ensures states[i].started <= states[j].started && states[i].pushed <= states[j].pushed
    decreases j
  {
    if i < j {
      HistoryGrows(states, events, i, j - 1);
      var s, e := states[j-1], events[j-1];
      assert states[j] == Step(s, e);
    }
  }

  /**
   First in, first out, exactly once, latest wins: the k-th item to start is the k-th place taken, and at the step
   that starts it, its operation is the one of the last accepted request for its id.
   */
  lemma StartsInOrderWithLatest(states: seq<State>, events: seq<Event>, i: nat, k: nat)
    requires IsRun(states, events) && i < |events|
    requires |states[i].started| <= k < |states[i+1].started|
    ensures k == |states[i].started| && k < |states[i+1].pushed|
    ensures states[i+1].started[k].id == states[i+1].pushed[k]
    ensures Latest(states[i+1].accepted, states[i+1].started[k].id) == Some(states[i+1].started[k].operation)
  {
    hide Latest;
    InvHolds(states, events, i);
    InvHolds(states, events, i + 1);
    var s, s', e := states[i], states[i+1], events[i];
    assert s' == Step(s, e);
    assert Ids(s'.started + s'.queue)[k] == s'.started[k].id;
    if e.Request? {
      LatestAfter(s.accepted, Item(e.id, e.operation), e.id);
    }
  }

  /** A request is refused exactly when its id is running and not queued; a refused request changes nothing. */
  lemma RefusedExactly(s: State, id: Id, operation: Op)
    requires Inv(s)
    ensures Accepts(s, id) <==> id !in s.activeOperations
    ensures Accepts(s, id) ==> Enqueued(s, id, operation).accepted == s.accepted + [Item(id, operation)]
    ensures !Accepts(s, id) ==> Enqueued(s, id, operation) == s
  {
  }

  /** State after the running operations settle `n` times with no request in between. */
  function Drain(s: State, n: nat): State
    decreases n
  {
    if n == 0 || s.started == [] then s else Drain(Settled(s, s.started[|s.started|-1].id), n - 1)
  }

  /** No lost wake-up: once everything waiting has settled, every place taken has been started and nothing is active. */
  lemma {:induction false} DrainsCompletely(s: State)
    requires Inv(s) && s.isProcessing
    ensures var d := Drain(s, |s.queue| + 1);
      !d.isProcessing && d.queue == [] && Ids(d.started) == s.pushed
    decreases |s.queue|
  {
    var id := s.started[|s.started|-1].id;
    SettledKeepsInv(s, id);
    var s' := Settled(s, id);
    if s.queue == [] {
      assert s.started + s.queue == s.started;
    } else {
      DrainsCompletely(s');
    }
  }

  // ---------- The queue object ----------

  class OperationQueue {
    var queue: seq<Item>
    var isProcessing: bool
    var activeOperations: set<Id>
    ghost var started: seq<Item>
    ghost var accepted: seq<Item>
    ghost var pushed: seq<Id>

    ghost function Abs(): State
      reads this
    {
      State(queue, isProcessing, activeOperations, started, accepted, pushed)
    }

    constructor ()
      ensures Abs() == INITIAL && Inv(Abs())
    {
      queue, isProcessing, activeOperations := [], false, {};
      started, accepted, pushed := [], [], [];
      new;
      assert Ids([]) == [];
    }

    method Enqueue(id: Id, operation: Op) returns (r: bool)
      requires Inv(Abs())
      modifies this
      ensures Inv(Abs()) && Abs() == Enqueued(old(Abs()), id, operation)
      ensures r == Accepts(old(Abs()), id)
    {
      EnqueueKeepsInv(Abs(), id, operation);
      var existingOperationIndex := FindOperationIndex(id);
      if existingOperationIndex != -1 {
        queue := queue[existingOperationIndex := Item(id, operation)];
        accepted := accepted + [Item(id, operation)];
        return true;
      } else if id in activeOperations {
        return false;
      } else {
        queue := queue + [Item(id, operation)];
        accepted := accepted + [Item(id, operation)];
        pushed := pushed + [id];
        StartProcessing();
        return true;
      }
    }

    method FindOperationIndex(id: Id) returns (index: int)
      ensures index == if FindIndex(queue, id) < |queue| then FindIndex(queue, id) else -1
    {
      for i := 0 to |queue|
        invariant forall k :: 0 <= k < i ==> queue[k].id != id
      {
        if queue[i].id == id {
          return i;
        }
      }
      return -1;
    }

    /** Up to the first await: a processor that already runs is left to its loop. */
    method StartProcessing()
      modifies this
      ensures Abs() == ProcessQueue(old(Abs()))
    {
      if isProcessing {
        return;
      }
      isProcessing := true;
      RunNext();
    }

    /** From one await of the loop to the next, or to its end. */
    method RunNext()
      modifies this
      ensures Abs() == TakeNext(old(Abs()))
    {
      if |queue| > 0 {
        var item := queue[0];
        queue := queue[1..];
        activeOperations := activeOperations + {item.id};
        started := started + [item];
      } else {
        isProcessing := false;
      }
    }

    /** The awaited operation settled, with success or with a caught error. */
    method OperationSettled(id: Id)
      requires Inv(Abs()) && id in activeOperations
      modifies this
      ensures Inv(Abs()) && Abs() == Settled(old(Abs()), id)
    {
      SettledKeepsInv(Abs(), id);
      activeOperations := activeOperations - {id};
      RunNext();
    }
  }
}
