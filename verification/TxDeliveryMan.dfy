/** One delivery at a time per provider, over every interleaving of calls and settled deliveries. */
module TxDeliveryMen {
  import opened Outcomes
  import opened TxDeliveries

  type Provider = nat

  /** The flags of the source, and which deliveries have started and not settled. */
  datatype State = State(txDeliveriesInProgress: map<Provider, bool>, inFlight: multiset<Provider>)

  const INITIAL := State(map[], multiset{})

  predicate InProgress(s: State, p: Provider) {
    p in s.txDeliveriesInProgress && s.txDeliveriesInProgress[p]
  }

  /** What `deliver` does for one provider: start a delivery, or skip it. */
  function TryProvider(s: State, p: Provider): State {
    if InProgress(s, p) then s
    else State(s.txDeliveriesInProgress[p := true], s.inFlight + multiset{p})
  }

  function TryProviders(s: State, providers: seq<Provider>): State {
    if providers == [] then s
    else TryProvider(TryProviders(s, providers[..|providers|-1]), providers[|providers|-1])
  }

  /** For each place in the list of providers, whether a call of `deliver` starts a delivery there. */
  function Starts(s: State, providers: seq<Provider>): (r: seq<bool>)
    ensures |r| == |providers|
  {
    if providers == [] then []
    else
      var front := providers[..|providers|-1];
      Starts(s, front) + [!InProgress(TryProviders(s, front), providers[|providers|-1])]
  }

  /** A delivery on the provider returned or threw. */
  function Settled(s: State, p: Provider): State {
    State(s.txDeliveriesInProgress[p := false], s.inFlight - multiset{p})
  }

  datatype Event = Call | Settlement(provider: Provider)

  predicate Enabled(s: State, e: Event) {
    e.Settlement? ==> e.provider in s.inFlight
  }

  function Step(providers: seq<Provider>, s: State, e: Event): State {
    match e
    case Call => TryProviders(s, providers)
    case Settlement(p) => Settled(s, p)
  }

  /** The flag of a provider is up exactly while it has a delivery in flight, and it never has two. */
  ghost predicate Inv(s: State) {
    forall p :: s.inFlight[p] == if InProgress(s, p) then 1 else 0
  }

  lemma {:induction false} TryKeepsInv(s: State, providers: seq<Provider>)
    requires Inv(s)
    ensures Inv(TryProviders(s, providers))
    ensures forall p :: p in TryProviders(s, providers).inFlight <==> p in s.inFlight || p in providers
  {
    if providers != [] {
      var front, last := providers[..|providers|-1], providers[|providers|-1];
      TryKeepsInv(s, front);
      assert forall p :: p in providers <==> p in front || p == last;
    }
  }

  ghost predicate IsRun(providers: seq<Provider>, states: seq<State>, events: seq<Event>) {
    && |states| == |events| + 1 && states[0] == INITIAL
    && forall i :: 0 <= i < |events| ==>
      Enabled(states[i], events[i]) && states[i+1] == Step(providers, states[i], events[i])
  }

  lemma {:induction false} NeverTwoInFlight(providers: seq<Provider>, states: seq<State>, events: seq<Event>, i: nat)
    requires IsRun(providers, states, events) && i < |states|
    ensures Inv(states[i]) && forall p :: states[i].inFlight[p] <= 1
  {
    if i > 0 {
      NeverTwoInFlight(providers, states, events, i - 1);
      if events[i-1].Call? {
        TryKeepsInv(states[i-1], providers);
      }
    }
  }

  /**
   In any reachable state a call starts a delivery at the first place of each provider that has none in flight and
   nowhere else, and afterwards every provider has one. So it starts nothing exactly when all of them are busy.
   */
  lemma {:induction false} CallStartsOnIdle(s: State, providers: seq<Provider>, i: nat)
    requires Inv(s) && i < |providers|
    ensures Starts(s, providers)[i] <==> s.inFlight[providers[i]] == 0 && providers[i] !in providers[..i]
    decreases |providers|
  {
    var front := providers[..|providers|-1];
    if i < |front| {
      CallStartsOnIdle(s, front, i);
      assert front[..i] == providers[..i];
    } else {
      TryKeepsInv(s, front);
      var tried := TryProviders(s, front);
      assert tried.inFlight[providers[i]] == if InProgress(tried, providers[i]) then 1 else 0;
    }
  }

  // ---------- Waiting for the receipts ----------

  datatype WaitResult = Mined(tx: Tx) | NetworkForked | RevertedOrNotFetched

  /** The receipts that were fetched, as the mined transactions they are for. */
  function Fetched(receipts: seq<Option<Tx>>): seq<Tx> {
    if receipts == [] then []
    else (if receipts[0].Some? then [receipts[0].value] else []) + Fetched(receipts[1..])
  }

  function Wait(receipts: seq<Option<Tx>>): WaitResult {
    var fetched := Fetched(receipts);
    if fetched == [] then RevertedOrNotFetched
    else if |fetched| == 1 then Mined(fetched[0])
    else if |set tx | tx in fetched| == 1 then Mined(fetched[0])
    else NetworkForked
  }

  lemma {:induction false} FetchedIs(receipts: seq<Option<Tx>>, tx: Tx)
    ensures tx in Fetched(receipts) <==> Some(tx) in receipts
  {
    if receipts != [] {
      FetchedIs(receipts[1..], tx);
    }
  }

  lemma OneHash(fetched: seq<Tx>)
    requires fetched != []
    ensures |set tx | tx in fetched| == 1 <==> forall tx :: tx in fetched ==> tx == fetched[0]
  {
    var hashes := set tx | tx in fetched;
    assert fetched[0] in hashes;
    if forall tx :: tx in fetched ==> tx == fetched[0] {
      assert hashes == {fetched[0]};
    }
    if |hashes| == 1 {
      assert |hashes - {fetched[0]}| == 0;
      assert forall tx :: tx in fetched ==> tx in hashes;
    }
  }

  /** Whatever the receipts, waiting reports a fork exactly when two of them are for different transactions. */
  lemma ForkedExactly(receipts: seq<Option<Tx>>)
    ensures Wait(receipts).NetworkForked? <==>
      exists a, b :: Some(a) in receipts && Some(b) in receipts && a != b
  {
    var fetched := Fetched(receipts);
    forall tx ensures tx in fetched <==> Some(tx) in receipts {
      FetchedIs(receipts, tx);
    }
    hide Fetched;
    if fetched != [] {
      OneHash(fetched);
      assert fetched[0] in fetched;
    }
  }

  /**
   When all receipts come from one chain, waiting reports a fork exactly when two of them are for different nonces,
   which no fork is needed for: providers may lag behind one another when a delivery fetches its nonce. Otherwise it
   gives the one mined transaction, unless no receipt was fetched.
   */
  lemma WaitExactly(receipts: seq<Option<Tx>>, mined: seq<Tx>)
    requires ValidChain(mined) && forall tx :: Some(tx) in receipts ==> tx in mined
    ensures Wait(receipts).NetworkForked? <==>
      exists a, b :: Some(a) in receipts && Some(b) in receipts && a.nonce != b.nonce
    ensures Wait(receipts).RevertedOrNotFetched? <==> forall tx :: Some(tx) !in receipts
    ensures Wait(receipts).Mined? ==>
      Some(Wait(receipts).tx) in receipts && forall tx :: Some(tx) in receipts ==> tx == Wait(receipts).tx
  {
    var fetched := Fetched(receipts);
    forall tx ensures tx in fetched <==> Some(tx) in receipts {
      FetchedIs(receipts, tx);
    }
    hide Fetched;
    if fetched != [] {
      OneHash(fetched);
      forall tx | tx in fetched ensures tx == fetched[0] <==> tx.nonce == fetched[0].nonce {
        assert fetched[0] in fetched && fetched[0] in mined && tx in mined;
        var i :| 0 <= i < |mined| && mined[i] == tx;
        var j :| 0 <= j < |mined| && mined[j] == fetched[0];
      }
      assert Some(fetched[0]) in receipts;
    }
  }

  // ---------- The object ----------

  lemma NothingTried(s: State, providers: seq<Provider>)
    ensures TryProviders(s, providers[..0]) == s && Starts(s, providers[..0]) == []
  {
  }

  lemma TryOneMore(s: State, providers: seq<Provider>, i: nat)
    requires i < |providers|
    ensures var tried := TryProviders(s, providers[..i]);
      && TryProviders(s, providers[..i+1]) == TryProvider(tried, providers[i])
      && Starts(s, providers[..i+1]) == Starts(s, providers[..i]) + [!InProgress(tried, providers[i])]
  {
    assert providers[..i+1][..i] == providers[..i];
  }

  lemma InProgressStays(s: State, p: Provider)
    requires InProgress(s, p)
    ensures TryProvider(s, p) == s
  {
  }

  class TxDeliveryMan {
    const providers: seq<Provider>
    var txDeliveriesInProgress: map<Provider, bool>
    ghost var inFlight: multiset<Provider>

    ghost function Abs(): State
      reads this
    {
      State(txDeliveriesInProgress, inFlight)
    }

    constructor (providers: seq<Provider>)
      ensures this.providers == providers && Abs() == INITIAL && Inv(Abs())
    {
      this.providers := providers;
      txDeliveriesInProgress, inFlight := map[], multiset{};
    }

    /** The part of `deliver` before its first await; `started` tells which places of the list got a delivery. */
    method Deliver() returns (started: seq<bool>)
      requires Inv(Abs())
      modifies this
      ensures Inv(Abs()) && Abs() == Step(providers, old(Abs()), Call)
      ensures started == Starts(old(Abs()), providers)
    {
      hide TryProviders, TryProvider, Starts, Inv;
      TryKeepsInv(Abs(), providers);
      started := [];
      ghost var before := Abs();
      NothingTried(before, providers);
      for i := 0 to |providers|
        invariant Abs() == TryProviders(before, providers[..i])
        invariant started == Starts(before, providers[..i])
      {
        TryOneMore(before, providers, i);
        var deliveryInProgress := providers[i] in txDeliveriesInProgress && txDeliveriesInProgress[providers[i]];
        if !deliveryInProgress {
          CreateAndDeliverNewPackage(providers[i]);
        } else {
          InProgressStays(Abs(), providers[i]);
        }
        started := started + [!deliveryInProgress];
      }
      assert providers[..|providers|] == providers;
    }

    method CreateAndDeliverNewPackage(p: Provider)
      requires !InProgress(Abs(), p)
      modifies this
      ensures Abs() == TryProvider(old(Abs()), p)
    {
      inFlight := inFlight + multiset{p};
      txDeliveriesInProgress := txDeliveriesInProgress[p := true];
    }

    method DeliverySettled(p: Provider)
      requires Inv(Abs()) && p in inFlight
      modifies this
      ensures Inv(Abs()) && Abs() == Step(providers, old(Abs()), Settlement(p))
    {
      inFlight := inFlight - multiset{p};
      txDeliveriesInProgress := txDeliveriesInProgress[p := false];
    }
  }
}
