/**
 One round of voting among RPC providers: replies arrive in any order, a value wins once enough providers returned
 it, and the promise settles once.
 */
module ProviderAgreement {
  import opened Outcomes

  type Value = string

  datatype Settlement = Agreed(value: Value) | LastResort(value: Value) | Rejected

  /** `providers` healthy providers are asked; `required` of them are configured to agree. */
  datatype Config = Config(providers: nat, required: int, ignoreAgreementOnInsufficientResponses: bool)

  /**
   Vote tally in insertion order, and what has happened so far. A successful reply is counted first and reported as
   finished in a later turn, so replies of other providers can come in between.
   */
  datatype State = State(
    keys: seq<Value>, results: map<Value, nat>, errors: nat, votes: map<nat, Value>, finished: set<nat>,
    settlement: Option<Settlement>)

  const INITIAL := State([], map[], 0, map[], {}, None)

  datatype Event = Reply(provider: nat, value: Value) | Finish(provider: nat) | Failure(provider: nat)

  predicate Enabled(config: Config, s: State, e: Event) {
    match e
    case Reply(p, _) => p < config.providers && p !in s.votes && p !in s.finished
    case Finish(p) => p in s.votes && p !in s.finished
    case Failure(p) => p < config.providers && p !in s.votes && p !in s.finished
  }

  /** Only the first settlement of a promise counts. */
  function Settle(s: State, settlement: Settlement): State {
    if s.settlement.None? then s.(settlement := Some(settlement)) else s
  }

  function CountReply(config: Config, s: State, p: nat, v: Value): State {
    var voted := s.(votes := s.votes[p := v]);
    if v in s.results && s.results[v] != 0 then
      var counted := voted.(results := s.results[v := s.results[v] + 1]);
      if s.results[v] + 1 >= config.required then Settle(counted, Agreed(v)) else counted
    else voted.(results := s.results[v := 1], keys := s.keys + [v])
  }

  function Count(results: map<Value, nat>, v: Value): nat {
    if v in results then results[v] else 0
  }

  /** The first value in insertion order that no other value outvotes. */
  function MostVotes(keys: seq<Value>, results: map<Value, nat>): (v: Value)
    requires keys != []
    ensures v in keys
    ensures forall k :: k in keys ==> Count(results, k) <= Count(results, v)
  {
    if |keys| == 1 then keys[0]
    else
      var best := MostVotes(keys[..|keys|-1], results);
      assert forall k :: k in keys ==> k in keys[..|keys|-1] || k == keys[|keys|-1];
      if Count(results, keys[|keys|-1]) > Count(results, best) then keys[|keys|-1] else best
  }

  function HandleProviderResult(config: Config, s: State, p: nat): State {
    var done := s.(finished := s.finished + {p});
    if |done.finished| == config.providers then
      if config.ignoreAgreementOnInsufficientResponses && s.keys != [] then
        Settle(done, LastResort(MostVotes(s.keys, s.results)))
      else Settle(done, Rejected)
    else done
  }

  function Step(config: Config, s: State, e: Event): State {
    match e
    case Reply(p, v) => CountReply(config, s, p, v)
    case Finish(p) => HandleProviderResult(config, s, p)
    case Failure(p) => HandleProviderResult(config, s.(errors := s.errors + 1), p)
  }

  // ---------- Invariant over every interleaving ----------

  function Voters(votes: map<nat, Value>, v: Value): set<nat> {
    set p | p in votes && votes[p] == v
  }

  /** A single provider is never an agreement, even when one is configured to be enough. */
  function Quorum(config: Config): int {
    if config.required < 2 then 2 else config.required
  }

  ghost predicate Tallied(s: State) {
    && (forall v :: v in s.results <==> v in s.keys)
    && (forall v :: v in s.results <==> Voters(s.votes, v) != {})
    && (forall v :: v in s.results ==> s.results[v] == |Voters(s.votes, v)|)
  }

  ghost predicate Asked(config: Config, s: State) {
    && (forall p :: p in s.votes ==> p < config.providers)
    && (forall p :: p in s.finished ==> p < config.providers)
  }

  ghost predicate NoQuorum(config: Config, s: State) {
    forall v :: |Voters(s.votes, v)| < Quorum(config)
  }

  ghost predicate AllFinished(config: Config, s: State) {
    forall p: nat :: p < config.providers ==> p in s.finished
  }

  /** What each outcome of the promise means. */
  ghost predicate SettlementJustified(config: Config, s: State) {
    match s.settlement
    case None => NoQuorum(config, s) && !AllFinished(config, s)
    case Some(Agreed(v)) => |Voters(s.votes, v)| >= Quorum(config)
    case Some(LastResort(v)) =>
      && config.ignoreAgreementOnInsufficientResponses && AllFinished(config, s) && NoQuorum(config, s)
      && Voters(s.votes, v) != {} && forall w :: |Voters(s.votes, w)| <= |Voters(s.votes, v)|
    case Some(Rejected) =>
      && AllFinished(config, s) && NoQuorum(config, s)
      && (config.ignoreAgreementOnInsufficientResponses ==> s.votes == map[])
  }

  ghost predicate Inv(config: Config, s: State) {
    Tallied(s) && Asked(config, s) && SettlementJustified(config, s)
  }

  lemma VotersOfOther(votes: map<nat, Value>, p: nat, v: Value, w: Value)
    requires p !in votes && w != v
    ensures Voters(votes[p := v], w) == Voters(votes, w)
  {
  }

  lemma VotersAfter(votes: map<nat, Value>, p: nat, v: Value)
    requires p !in votes
    ensures forall w :: w != v ==> Voters(votes[p := v], w) == Voters(votes, w)
    ensures Voters(votes[p := v], v) != {} && |Voters(votes[p := v], v)| == |Voters(votes, v)| + 1
  {
    forall w | w != v ensures Voters(votes[p := v], w) == Voters(votes, w) {
      VotersOfOther(votes, p, v, w);
    }
    var votes' := votes[p := v];
    assert forall q :: q in Voters(votes', v) <==> q in Voters(votes, v) || q == p;
    assert Voters(votes', v) == Voters(votes, v) + {p};
  }

  lemma ReplyKeepsTally(config: Config, s: State, p: nat, v: Value)
    requires Tallied(s) && p !in s.votes
    ensures Tallied(CountReply(config, s, p, v))
    ensures v in s.results <==> |Voters(s.votes, v)| > 0
    ensures v in s.results ==> s.results[v] == |Voters(s.votes, v)|
  {
    hide Voters;
    var s' := CountReply(config, s, p, v);
    VotersAfter(s.votes, p, v);
    assert s'.results.Keys == s.results.Keys + {v};
    assert forall k :: k in s'.keys <==> k in s.keys || k == v;
    if v !in s.results {
      assert Voters(s.votes, v) == {};
    }
  }

  lemma ReplyKeepsInv(config: Config, s: State, p: nat, v: Value)
    requires config.providers > 0 && Inv(config, s) && Enabled(config, s, Reply(p, v))
    ensures Inv(config, Step(config, s, Reply(p, v)))
  {
    hide Voters;
    var s' := CountReply(config, s, p, v);
    ReplyKeepsTally(config, s, p, v);
    hide Tallied;
    VotersAfter(s.votes, p, v);
    assert s'.finished == s.finished && s'.votes == s.votes[p := v];
    assert !AllFinished(config, s);
    assert s.settlement.None? && s'.settlement.None? ==> |Voters(s'.votes, v)| < Quorum(config);
  }

  function Providers(n: nat): (all: set<nat>)
    ensures |all| == n && forall p: nat :: p in all <==> p < n
  {
    if n == 0 then {} else Providers(n - 1) + {n - 1}
  }

  lemma AllFinishedCount(config: Config, finished: set<nat>)
    requires forall p :: p in finished ==> p < config.providers
    ensures |finished| == config.providers <==> forall p: nat :: p < config.providers ==> p in finished
  {
    var all := Providers(config.providers);
    assert all == finished + (all - finished);
    if |finished| == config.providers {
      assert |all - finished| == 0;
    }
    if forall p: nat :: p < config.providers ==> p in finished {
      assert all <= finished;
    }
  }

  lemma FinishKeepsInv(config: Config, s: State, e: Event)
    requires config.providers > 0 && Inv(config, s) && Enabled(config, s, e) && !e.Reply?
    ensures Inv(config, Step(config, s, e))
  {
    hide Voters, MostVotes;
    var s' := Step(config, s, e);
    assert s'.votes == s.votes && s'.results == s.results && s'.keys == s.keys;
    AllFinishedCount(config, s'.finished);
    if s.keys == [] {
      assert s.votes == map[] by {
        forall p | p in s.votes ensures false {
          VoterCounted(s, p);
        }
      }
    } else {
      MostVotesIsMost(s);
    }
  }

  lemma VoterCounted(s: State, p: nat)
    requires Tallied(s) && p in s.votes
    ensures s.votes[p] in s.keys
  {
    assert p in Voters(s.votes, s.votes[p]);
  }

  lemma MostVotesIsMost(s: State)
    requires Tallied(s) && s.keys != []
    ensures var v := MostVotes(s.keys, s.results);
      Voters(s.votes, v) != {} && forall w :: |Voters(s.votes, w)| <= |Voters(s.votes, v)|
  {
  }

  // ---------- Every run ----------

  ghost predicate IsRun(config: Config, states: seq<State>, events: seq<Event>) {
    && |states| == |events| + 1 && states[0] == INITIAL
    && forall i :: 0 <= i < |events| ==>
      Enabled(config, states[i], events[i]) && states[i+1] == Step(config, states[i], events[i])
  }

  lemma {:induction false} InvHolds(config: Config, states: seq<State>, events: seq<Event>, i: nat)
    requires config.providers > 0 && IsRun(config, states, events) && i < |states|
    ensures Inv(config, states[i])
  {
    if i == 0 {
      assert 0 !in INITIAL.finished;
      assert forall v :: Voters(INITIAL.votes, v) == {};
    } else {
      InvHolds(config, states, events, i - 1);
      var e := events[i-1];
      match e {
        case Reply(p, v) => ReplyKeepsInv(config, states[i-1], p, v);
        case Finish(p) => FinishKeepsInv(config, states[i-1], e);
        case Failure(p) => FinishKeepsInv(config, states[i-1], e);
      }
    }
  }

  lemma {:induction false} SettlementStays(config: Config, states: seq<State>, events: seq<Event>, i: nat, j: nat)
    requires IsRun(config, states, events) && i <= j < |states| && states[i].settlement.Some?
    ensures states[j].settlement == states[i].settlement
    decreases j
  {
    if i < j {
      SettlementStays(config, states, events, i, j - 1);
      assert states[j] == Step(config, states[j-1], events[j-1]);
    }
  }

  /**
   In every interleaving: the promise settles at most once, and by the time all providers have finished it has settled.
   It fulfils with an agreed value exactly when some value was returned by a quorum of distinct providers; otherwise
   it rejects, or, with the flag on and any success at all, falls back to a value with the most votes.
   */
  lemma AgreementOutcome(config: Config, states: seq<State>, events: seq<Event>)
    requires config.providers > 0 && IsRun(config, states, events)
    ensures var s := states[|states|-1];
      && SettlementJustified(config, s)
      && (s.settlement.Some? && s.settlement.value.Agreed? <==> exists v :: |Voters(s.votes, v)| >= Quorum(config))
      && (AllFinished(config, s) ==> s.settlement.Some?)
      && (AllFinished(config, s) && NoQuorum(config, s) ==>
        (s.settlement.value.Rejected? <==> !config.ignoreAgreementOnInsufficientResponses || s.votes == map[]))
  {
    hide Voters;
    InvHolds(config, states, events, |states| - 1);
    var s := states[|states|-1];
    if s.settlement.Some? && s.settlement.value.LastResort? && s.votes == map[] {
      NobodyVoted(s.votes, s.settlement.value.value);
    }
  }

  lemma NobodyVoted(votes: map<nat, Value>, v: Value)
    requires votes == map[]
    ensures Voters(votes, v) == {}
  {
  }

  // ---------- What the tally says about the replies themselves ----------

  predicate Says(e: Event, v: Value) {
    e.Reply? && e.value == v
  }

  ghost predicate Returned(past: seq<Event>, v: Value) {
    exists k :: 0 <= k < |past| && Says(past[k], v)
  }

  /** `v` was returned before `w` ever was. */
  ghost predicate ReturnedBefore(past: seq<Event>, v: Value, w: Value) {
    exists k :: 0 <= k < |past| && Says(past[k], v) && forall j :: 0 <= j <= k ==> !Says(past[j], w)
  }

  /** The votes are the replies so far, and who finished is who finished or failed. */
  ghost predicate Recounts(s: State, past: seq<Event>) {
    && (forall p, v :: p in s.votes && s.votes[p] == v <==> Reply(p, v) in past)
    && (forall p :: p in s.finished <==> Finish(p) in past || Failure(p) in past)
  }

  lemma RunStep(config: Config, states: seq<State>, events: seq<Event>, i: nat)
    requires IsRun(config, states, events) && 0 < i < |states|
    ensures |states| == |events| + 1 && Enabled(config, states[i-1], events[i-1])
    ensures states[i] == Step(config, states[i-1], events[i-1])
  {
    hide Step;
  }

  lemma RunStarts(config: Config, states: seq<State>, events: seq<Event>)
    requires IsRun(config, states, events)
    ensures |states| == |events| + 1 && states[0] == INITIAL
  {
  }

  lemma NothingYet()
    ensures Recounts(INITIAL, []) && InOrderOfReturn(INITIAL.keys, []) && FellBackWell(INITIAL)
  {
  }

  lemma PastGrows(events: seq<Event>, i: nat)
    requires 0 < i <= |events|
    ensures events[..i] == events[..i-1] + [events[i-1]]
  {
  }

  lemma {:induction false} VotesAreReplies(config: Config, states: seq<State>, events: seq<Event>, i: nat)
    requires IsRun(config, states, events) && i < |states|
    ensures Recounts(states[i], events[..i])
  {
    hide *;
    if i == 0 {
      RunStarts(config, states, events);
      NothingYet();
      assert events[..0] == [];
    } else {
      RunStep(config, states, events, i);
      VotesAreReplies(config, states, events, i - 1);
      PastGrows(events, i);
      RecountsOneMore(config, states[i-1], events[..i-1], events[i-1]);
    }
  }

  lemma RecountsOneMore(config: Config, s: State, past: seq<Event>, e: Event)
    requires Recounts(s, past) && Enabled(config, s, e)
    ensures Recounts(Step(config, s, e), past + [e])
  {
    StepRecords(config, s, e);
    var s' := Step(config, s, e);
    hide Step;
    forall p, v ensures p in s'.votes && s'.votes[p] == v <==> Reply(p, v) in past + [e] {
      InLonger(past, e, Reply(p, v));
    }
    forall p ensures p in s'.finished <==> Finish(p) in past + [e] || Failure(p) in past + [e] {
      InLonger(past, e, Finish(p));
      InLonger(past, e, Failure(p));
    }
  }

  lemma StepRecords(config: Config, s: State, e: Event)
    ensures Step(config, s, e).votes == if e.Reply? then s.votes[e.provider := e.value] else s.votes
    ensures Step(config, s, e).finished == if e.Reply? then s.finished else s.finished + {e.provider}
  {
    hide MostVotes;
  }

  lemma InLonger(past: seq<Event>, e: Event, x: Event)
    ensures x in past + [e] <==> x in past || x == e
  {
  }

  /** Values are tallied in the order in which they were first returned. */
  ghost predicate InOrderOfReturn(keys: seq<Value>, past: seq<Event>) {
    && (forall v :: v in keys <==> Returned(past, v))
    && forall a, b :: 0 <= a < b < |keys| ==> ReturnedBefore(past, keys[a], keys[b])
  }

  lemma {:induction false} TalliedInOrder(config: Config, states: seq<State>, events: seq<Event>, i: nat)
    requires config.providers > 0 && IsRun(config, states, events) && i < |states|
    ensures InOrderOfReturn(states[i].keys, events[..i])
  {
    hide *;
    if i == 0 {
      RunStarts(config, states, events);
      NothingYet();
      assert events[..0] == [];
    } else {
      RunStep(config, states, events, i);
      TalliedInOrder(config, states, events, i - 1);
      InvHolds(config, states, events, i - 1);
      var s, e := states[i-1], events[i-1];
      NewKey(config, s, e);
      PastGrows(events, i);
      InOrderOneMore(s.keys, events[..i-1], e);
    }
  }

  lemma NewKey(config: Config, s: State, e: Event)
    requires Inv(config, s)
    ensures Step(config, s, e).keys == if e.Reply? && e.value !in s.keys then s.keys + [e.value] else s.keys
  {
    hide MostVotes, Voters;
  }

  lemma InOrderOneMore(keys: seq<Value>, past: seq<Event>, e: Event)
    requires InOrderOfReturn(keys, past)
    ensures InOrderOfReturn(if e.Reply? && e.value !in keys then keys + [e.value] else keys, past + [e])
  {
    hide Returned, ReturnedBefore;
    var keys' := if e.Reply? && e.value !in keys then keys + [e.value] else keys;
    forall v ensures v in keys' <==> Returned(past + [e], v) {
      ReturnedOneMore(past, e, v);
    }
    forall a, b | 0 <= a < b < |keys'| ensures ReturnedBefore(past + [e], keys'[a], keys'[b]) {
      BeforeOneMore(past, e, keys'[a], keys'[b]);
      assert keys[a] in keys;
    }
  }

  lemma ReturnedOneMore(past: seq<Event>, e: Event, v: Value)
    ensures Returned(past + [e], v) <==> Returned(past, v) || Says(e, v)
  {
    if Returned(past, v) {
      var k :| 0 <= k < |past| && Says(past[k], v);
      assert (past + [e])[k] == past[k];
    }
    assert (past + [e])[|past|] == e;
  }

  lemma BeforeOneMore(past: seq<Event>, e: Event, v: Value, w: Value)
    ensures ReturnedBefore(past, v, w) || (Returned(past, v) && !Returned(past, w)) ==> ReturnedBefore(past + [e], v, w)
  {
    if ReturnedBefore(past, v, w) || (Returned(past, v) && !Returned(past, w)) {
      var k :| 0 <= k < |past| && Says(past[k], v) && forall j :: 0 <= j <= k ==> !Says(past[j], w);
      assert Says((past + [e])[k], v);
    }
  }

  lemma MostVotesOfMore(keys: seq<Value>, results: map<Value, nat>)
    requires |keys| > 1
    ensures var n := |keys| - 1;
      var best := MostVotes(keys[..n], results);
      && MostVotes(keys, results) == (if Count(results, keys[n]) > Count(results, best) then keys[n] else best)
      && forall j :: 0 <= j < n ==> Count(results, keys[j]) <= Count(results, best)
  {
    hide Count;
    assert forall j :: 0 <= j < |keys| - 1 ==> keys[j] in keys[..|keys|-1];
  }

  lemma {:induction false} MostVotesIsFirst(keys: seq<Value>, results: map<Value, nat>) returns (i: nat)
    requires keys != []
    ensures i < |keys| && keys[i] == MostVotes(keys, results)
    ensures forall j :: 0 <= j < i ==> Count(results, keys[j]) < Count(results, keys[i])
  {
    hide Count;
    if |keys| == 1 {
      return 0;
    }
    var n := |keys| - 1;
    i := MostVotesIsFirst(keys[..n], results);
    MostVotesOfMore(keys, results);
    if Count(results, keys[n]) > Count(results, keys[i]) {
      i := n;
    }
  }

  ghost predicate FellBackWell(s: State) {
    s.settlement.Some? && s.settlement.value.LastResort? ==>
      s.keys != [] && s.settlement.value.value == MostVotes(s.keys, s.results)
  }

  lemma {:induction false} LastResortIsPicked(config: Config, states: seq<State>, events: seq<Event>, i: nat)
    requires config.providers > 0 && IsRun(config, states, events) && i < |states|
    ensures FellBackWell(states[i])
  {
    hide *;
    if i == 0 {
      RunStarts(config, states, events);
      NothingYet();
    } else {
      RunStep(config, states, events, i);
      LastResortIsPicked(config, states, events, i - 1);
      InvHolds(config, states, events, i - 1);
      StepFallsBackWell(config, states[i-1], events[i-1]);
    }
  }

  lemma StepFallsBackWell(config: Config, s: State, e: Event)
    requires Inv(config, s) && FellBackWell(s) && Enabled(config, s, e)
    ensures FellBackWell(Step(config, s, e))
  {
    hide MostVotes, Voters, Tallied;
    if s.settlement.Some? && s.settlement.value.LastResort? {
      assert false;
    }
  }

  /**
   The value fallen back to has the most votes, and of the values that have as many it is the one that was returned
   first.
   */
  lemma LastResortIsFirst(config: Config, states: seq<State>, events: seq<Event>, w: Value)
    requires config.providers > 0 && IsRun(config, states, events)
    ensures var s := states[|states|-1];
      s.settlement.Some? && s.settlement.value.LastResort? ==>
        var v := s.settlement.value.value;
        && |Voters(s.votes, w)| <= |Voters(s.votes, v)|
        && (w != v && |Voters(s.votes, w)| == |Voters(s.votes, v)| ==> ReturnedBefore(events, v, w))
  {
    var n := |events|;
    var s := states[n];
    InvHolds(config, states, events, n);
    LastResortIsPicked(config, states, events, n);
    TalliedInOrder(config, states, events, n);
    assert events[..n] == events;
    hide IsRun, InOrderOfReturn, Inv;
    if s.settlement.Some? && s.settlement.value.LastResort? {
      FirstOfTies(config, s, events, w);
    }
  }

  lemma FirstOfTies(config: Config, s: State, past: seq<Event>, w: Value)
    requires Inv(config, s) && InOrderOfReturn(s.keys, past) && s.keys != []
    requires s.settlement == Some(LastResort(MostVotes(s.keys, s.results)))
    ensures var v := MostVotes(s.keys, s.results);
      && |Voters(s.votes, w)| <= |Voters(s.votes, v)|
      && (w != v && |Voters(s.votes, w)| == |Voters(s.votes, v)| ==> ReturnedBefore(past, v, w))
  {
    var a := MostVotesIsFirst(s.keys, s.results);
    var v := MostVotes(s.keys, s.results);
    hide Voters, MostVotes, ReturnedBefore, Returned;
    if w != v && |Voters(s.votes, w)| == |Voters(s.votes, v)| {
      assert w in s.keys && Count(s.results, w) == Count(s.results, v) by { hide InOrderOfReturn; }
      var b :| 0 <= b < |s.keys| && s.keys[b] == w;
      assert a < b;
    }
  }

  // ---------- The closure variables of the round ----------

  class AgreementRound {
    const config: Config
    var keys: seq<Value>
    var results: map<Value, nat>
    var errors: nat
    var finishedProvidersCount: nat
    var globalAbort: bool
    var settlement: Option<Settlement>
    ghost var votes: map<nat, Value>
    ghost var finished: set<nat>

    ghost function Abs(): State
      reads this
    {
      State(keys, results, errors, votes, finished, settlement)
    }

    ghost predicate Valid()
      reads this
    {
      && config.providers > 0 && Inv(config, Abs())
      && finishedProvidersCount == |finished|
      && (settlement.Some? ==> globalAbort)
    }

    constructor (config: Config)
      requires config.providers > 0
      ensures Valid() && Abs() == INITIAL && this.config == config
    {
      this.config := config;
      keys, results, errors, finishedProvidersCount, globalAbort := [], map[], 0, 0, false;
      settlement, votes, finished := None, map[], {};
      new;
      assert forall v :: Voters(INITIAL.votes, v) == {};
      assert 0 !in INITIAL.finished;
    }

    method ResolveOrReject(outcome: Settlement)
      modifies this`settlement
      ensures settlement == if old(settlement).None? then Some(outcome) else old(settlement)
    {
      if settlement.None? {
        settlement := Some(outcome);
      }
    }

    /** A provider returned a value: count it, and settle if enough providers agree. */
    method OnReply(p: nat, currentResult: Value)
      requires Valid() && Enabled(config, Abs(), Reply(p, currentResult))
      modifies this
      ensures Valid() && Abs() == Step(config, old(Abs()), Reply(p, currentResult))
    {
      hide Voters, Inv;
      ReplyKeepsInv(config, Abs(), p, currentResult);
      votes := votes[p := currentResult];
      if currentResult in results && results[currentResult] != 0 {
        var count := results[currentResult];
        results := results[currentResult := count + 1];
        if count + 1 >= config.required {
          globalAbort := true;
          ResolveOrReject(Agreed(currentResult));
        }
      } else {
        results := results[currentResult := 1];
        keys := keys + [currentResult];
      }
    }

    method HandleResult(p: nat)
      requires p !in finished && finishedProvidersCount == |finished|
      requires settlement.Some? ==> globalAbort
      modifies this`finishedProvidersCount, this`finished, this`globalAbort, this`settlement
      ensures Abs() == HandleProviderResult(config, old(Abs()), p)
      ensures finishedProvidersCount == |finished| && (settlement.Some? ==> globalAbort)
    {
      hide MostVotes;
      finishedProvidersCount := finishedProvidersCount + 1;
      finished := finished + {p};
      if finishedProvidersCount == config.providers {
        globalAbort := true;
        if config.ignoreAgreementOnInsufficientResponses && keys != [] {
          var best := PickResponseWithMostVotes();
          ResolveOrReject(LastResort(best));
        } else {
          ResolveOrReject(Rejected);
        }
      }
    }

    method PickResponseWithMostVotes() returns (best: Value)
      requires keys != []
      ensures best == MostVotes(keys, results)
    {
      best := keys[0];
      for i := 1 to |keys|
        invariant best in keys && best == MostVotes(keys[..i], results)
      {
        assert keys[..i+1][..i] == keys[..i];
        if Count(results, keys[i]) > Count(results, best) {
          best := keys[i];
        }
      }
      assert keys[..|keys|] == keys;
    }

    method OnFinish(p: nat)
      requires Valid() && Enabled(config, Abs(), Finish(p))
      modifies this
      ensures Valid() && Abs() == Step(config, old(Abs()), Finish(p))
    {
      FinishKeepsInv(config, Abs(), Finish(p));
      HandleResult(p);
    }

    method OnFailure(p: nat)
      requires Valid() && Enabled(config, Abs(), Failure(p))
      modifies this
      ensures Valid() && Abs() == Step(config, old(Abs()), Failure(p))
    {
      FinishKeepsInv(config, Abs(), Failure(p));
      errors := errors + 1;
      HandleResult(p);
    }
  }
}
