/**
 Delivering one transaction by signing and sending it again with new fees until the account's nonce has moved on.

 What the provider answers is an input: one reply per attempt. Time is not modelled.
 */
module TxDeliveries {
  import opened Outcomes

  type Data = string

  /** A signed transaction; each of its fee fields is scaled like `fee`. Equal contents mean equal hashes. */
  datatype Tx = Tx(nonce: nat, fee: int, gasLimit: int, data: Data)

  datatype Opts = Opts(maxAttempts: nat, multiplier: real, twoDimensionalFees: bool, gasLimitMultiplier: real)

  /** Outcome of broadcasting; an error that is not an ethers error is one of the others. */
  datatype SendReply = Accepted | NonceExpired | Underpriced | InsufficientFunds | OtherError

  /** Estimates for the next attempt, and the calldata fetched for it if the caller defers its calldata. */
  datatype Update = Update(fee: nat, gasLimit: nat, deferred: Option<Data>)

  /** The account nonce reported after waiting, and the estimates for the next attempt; `None` where the call fails. */
  datatype Reply = Reply(send: SendReply, reported: Option<nat>, update: Option<Update>)

  /** What is fetched before the first attempt. */
  datatype Prepared = Prepared(nonce: nat, fee: nat, gasLimit: nat)

  datatype Outcome =
    | Returned(tx: Tx)
    | DeliveredBySomeoneElse
    | Rethrown(error: SendReply)
    | CallFailed
    | AttemptsExhausted
    | CalledBefore
    | AwaitingReply

  /** What was signed and sent so far, how `deliver` ended if it did, and the attempt counter. */
  datatype Trace = Trace(signed: seq<Tx>, outcome: Outcome, attempt: nat)

  // ---------- Fees ----------

  function Power(base: real, n: nat): real {
    if n == 0 then 1.0 else base * Power(base, n - 1)
  }

  /** JavaScript's Math.round. */
  function Round(x: real): int {
    (x + 0.5).Floor
  }

  function ScaleFee(opts: Opts, fee: nat, attempt: nat): int {
    Round(fee as real * Power(opts.multiplier, attempt))
  }

  /** Only two-dimensional fees scale the gas limit. */
  function ScaleGasLimit(opts: Opts, gasLimit: nat, attempt: nat): int {
    if opts.twoDimensionalFees then Round(gasLimit as real * Power(opts.gasLimitMultiplier, attempt)) else gasLimit
  }

  function UpdateTx(opts: Opts, tx: Tx, u: Update, attempt: nat): Tx {
    Tx(tx.nonce, ScaleFee(opts, u.fee, attempt), ScaleGasLimit(opts, u.gasLimit, attempt),
       if u.deferred.Some? then u.deferred.value else tx.data)
  }

  // ---------- The run of a delivery ----------

  function Before(tx: Tx, rest: Trace): Trace {
    rest.(signed := [tx] + rest.signed)
  }

  /** The attempt loop from the given attempt on; `result` is the last accepted transaction. */
  function Attempts(opts: Opts, attempt: nat, tx: Tx, result: Option<Tx>, replies: seq<Reply>): Trace
    decreases |replies|
  {
    if attempt > opts.maxAttempts then Trace([], AttemptsExhausted, attempt)
    else if replies == [] then Trace([tx], AwaitingReply, attempt)
    else
      var r := replies[0];
      match r.send
      case Accepted =>
        if r.reported.None? then Trace([tx], CallFailed, attempt)
        else if r.reported.value > tx.nonce then Trace([tx], Returned(tx), attempt)
        else NextAttempt(opts, attempt, tx, Some(tx), replies)
      case NonceExpired => Trace([tx], if result.None? then DeliveredBySomeoneElse else Returned(result.value), attempt)
      case Underpriced => NextAttempt(opts, attempt, tx, result, replies)
      case _ => Trace([tx], Rethrown(r.send), attempt)
  }

  function NextAttempt(opts: Opts, attempt: nat, tx: Tx, result: Option<Tx>, replies: seq<Reply>): Trace
    requires replies != []
    decreases |replies|, 0
  {
    match replies[0].update
    case None => Trace([tx], CallFailed, attempt)
    case Some(u) => Before(tx, Attempts(opts, attempt + 1, UpdateTx(opts, tx, u, attempt), result, replies[1..]))
  }

  function FirstTx(data: Data, p: Prepared): Tx {
    Tx(p.nonce, p.fee, p.gasLimit, data)
  }

  /** A whole call of `deliver` on an object whose attempt counter is `counter`. */
  function Delivery(opts: Opts, counter: nat, data: Data, prepared: Option<Prepared>, replies: seq<Reply>): Trace {
    if counter != 1 then Trace([], CalledBefore, counter)
    else if prepared.None? then Trace([], CallFailed, 1)
    else Attempts(opts, 1, FirstTx(data, prepared.value), None, replies)
  }

  // ---------- Where a delivery stops ----------

  /** Replies after which the loop goes on. */
  predicate GoesOn(nonce: nat, r: Reply) {
    && r.update.Some?
    && (r.send.Underpriced? || (r.send.Accepted? && r.reported.Some? && r.reported.value <= nonce))
  }

  function Fewer(a: nat, b: nat): nat {
    if a <= b then a else b
  }

  /** One transaction per attempt, all at one nonce; the loop stops at the first reply that does not let it go on. */
  lemma {:induction false} AttemptsStop(opts: Opts, attempt: nat, tx: Tx, result: Option<Tx>, replies: seq<Reply>)
    requires attempt <= opts.maxAttempts + 1
    ensures var t := Attempts(opts, attempt, tx, result, replies);
      && (forall i :: 0 <= i < |t.signed| ==> t.signed[i].nonce == tx.nonce)
      && |t.signed| <= opts.maxAttempts + 1 - attempt && |t.signed| <= |replies| + 1
      && (forall i :: 0 <= i < |t.signed| - 1 ==> GoesOn(tx.nonce, replies[i]))
      && (t.outcome.AttemptsExhausted? <==>
          |t.signed| == opts.maxAttempts + 1 - attempt
          && (t.signed == [] || (|t.signed| <= |replies| && GoesOn(tx.nonce, replies[|t.signed|-1]))))
      && (t.outcome.AwaitingReply? <==> |t.signed| == |replies| + 1)
      && (!t.outcome.AttemptsExhausted? && !t.outcome.AwaitingReply? ==>
          0 < |t.signed| <= |replies| && !GoesOn(tx.nonce, replies[|t.signed|-1]))
      && t.attempt == attempt + |t.signed| - (if t.outcome.AttemptsExhausted? then 0 else 1)
    decreases |replies|
  {
    if attempt <= opts.maxAttempts && replies != [] && GoesOn(tx.nonce, replies[0]) {
      hide UpdateTx, ScaleFee, ScaleGasLimit;
      var r := replies[0];
      var tx' := UpdateTx(opts, tx, r.update.value, attempt);
      var result' := if r.send.Accepted? then Some(tx) else result;
      AttemptsStopNonce(opts, tx, r.update.value, attempt);
      AttemptsStop(opts, attempt + 1, tx', result', replies[1..]);
      var rest := Attempts(opts, attempt + 1, tx', result', replies[1..]);
      assert Attempts(opts, attempt, tx, result, replies) == Before(tx, rest);
      assert forall i :: 0 < i < |replies| ==> replies[i] == replies[1..][i-1];
    }
  }

  lemma AttemptsStopNonce(opts: Opts, tx: Tx, u: Update, attempt: nat)
    ensures UpdateTx(opts, tx, u, attempt).nonce == tx.nonce
  {
  }

  // ---------- What the outcome says about the chain ----------

  /**
   The account nonce on chain when each broadcast was answered, and after the check that follows it. Providers may lag
   behind, but they do not report a nonce ahead of the chain, nor call a nonce used that is not.
   */
  ghost predicate Honest(nonce: nat, replies: seq<Reply>, atSend: seq<nat>, atCheck: seq<nat>) {
    && |atSend| == |replies| && |atCheck| == |replies|
    && (forall i :: 0 <= i < |replies| ==> atSend[i] <= atCheck[i])
    && (forall i, j :: 0 <= i < j < |replies| ==> atCheck[i] <= atSend[j])
    && (forall i :: 0 <= i < |replies| && replies[i].send.NonceExpired? ==> atSend[i] > nonce)
    && (forall i :: 0 <= i < |replies| && replies[i].send.Accepted? && replies[i].reported.Some? ==>
          replies[i].reported.value <= atCheck[i])
  }

  /** Index of the last accepted broadcast among the first `n`, if any. */
  function LastAccepted(replies: seq<Reply>, n: nat): (last: Option<nat>)
    requires n <= |replies|
    ensures last.Some? ==> last.value < n && replies[last.value].send.Accepted?
    ensures forall i :: 0 <= i < n && replies[i].send.Accepted? ==> last.Some? && i <= last.value
  {
    if n == 0 then None
    else if replies[n-1].send.Accepted? then Some(n - 1)
    else LastAccepted(replies, n - 1)
  }

  lemma {:induction false} LastAcceptedShift(replies: seq<Reply>, n: nat)
    requires replies != [] && n < |replies|
    ensures LastAccepted(replies, n + 1) ==
      match LastAccepted(replies[1..], n)
      case Some(k) => Some(k + 1)
      case None => if replies[0].send.Accepted? then Some(0) else None
  {
  }

  ghost predicate StopsMined(nonce: nat, r: Reply) {
    r.send.NonceExpired? || (r.send.Accepted? && r.reported.Some? && r.reported.value > nonce)
  }

  /**
   The loop ends with a used nonce exactly when a reply says so; it then returns the last accepted broadcast, or blames
   someone else exactly when there was none.
   */
  ghost predicate ReturnsRightly(nonce: nat, result: Option<Tx>, replies: seq<Reply>, t: Trace) {
    && |t.signed| <= |replies| + 1
    && (t.outcome.Returned? || t.outcome.DeliveredBySomeoneElse?
        <==> 0 < |t.signed| <= |replies| && StopsMined(nonce, replies[|t.signed|-1]))
    && (0 < |t.signed| <= |replies| && StopsMined(nonce, replies[|t.signed|-1]) ==>
        t.outcome == match LastAccepted(replies, |t.signed|)
          case Some(k) => Returned(t.signed[k])
          case None => if result.None? then DeliveredBySomeoneElse else Returned(result.value))
  }

  lemma {:induction false} AttemptsReturn(opts: Opts, attempt: nat, tx: Tx, result: Option<Tx>, replies: seq<Reply>)
    requires attempt <= opts.maxAttempts + 1
    ensures ReturnsRightly(tx.nonce, result, replies, Attempts(opts, attempt, tx, result, replies))
    decreases |replies|
  {
    if attempt <= opts.maxAttempts && replies != [] {
      if GoesOn(tx.nonce, replies[0]) {
        hide UpdateTx, ReturnsRightly, LastAccepted;
        var r := replies[0];
        var tx' := UpdateTx(opts, tx, r.update.value, attempt);
        var result' := if r.send.Accepted? then Some(tx) else result;
        AttemptsStopNonce(opts, tx, r.update.value, attempt);
        AttemptsReturn(opts, attempt + 1, tx', result', replies[1..]);
        var rest := Attempts(opts, attempt + 1, tx', result', replies[1..]);
        assert Attempts(opts, attempt, tx, result, replies) == Before(tx, rest);
        hide Attempts, NextAttempt;
        ReturnsAfterOneMore(tx, result, replies, rest);
      } else {
        assert LastAccepted(replies, 0) == None;
      }
    }
  }

  lemma ReturnsAfterOneMore(tx: Tx, result: Option<Tx>, replies: seq<Reply>, rest: Trace)
    requires replies != [] && GoesOn(tx.nonce, replies[0])
    requires ReturnsRightly(tx.nonce, if replies[0].send.Accepted? then Some(tx) else result, replies[1..], rest)
    ensures ReturnsRightly(tx.nonce, result, replies, Before(tx, rest))
  {
    if 0 < |rest.signed| <= |replies| - 1 {
      LastAcceptedShift(replies, |rest.signed|);
      assert replies[1..][|rest.signed|-1] == replies[|rest.signed|];
    }
  }

  /**
   Every way a delivery can go: it signs at most `maxAttempts` transactions, all at the nonce fetched at the start. If
   it returns, the returned one is the last it signed that was accepted, and by then the account nonce is past it; if
   it says someone else delivered, the nonce is past too and nothing of ours was accepted.
   */
  lemma DeliveryIsSafe(opts: Opts, data: Data, p: Prepared, replies: seq<Reply>, atSend: seq<nat>, atCheck: seq<nat>)
    requires Honest(p.nonce, replies, atSend, atCheck)
    ensures var t := Delivery(opts, 1, data, Some(p), replies);
      && |t.signed| <= opts.maxAttempts && |t.signed| <= |replies| + 1
      && (forall i :: 0 <= i < |t.signed| ==> t.signed[i].nonce == p.nonce)
      && (t.outcome.Returned? ==>
          && 0 < |t.signed| <= |replies| && LastAccepted(replies, |t.signed|).Some?
          && t.outcome.tx == t.signed[LastAccepted(replies, |t.signed|).value]
          && atCheck[|t.signed|-1] > p.nonce)
      && (t.outcome.DeliveredBySomeoneElse? ==>
          && 0 < |t.signed| <= |replies| && LastAccepted(replies, |t.signed|).None?
          && atCheck[|t.signed|-1] > p.nonce)
  {
    var tx := FirstTx(data, p);
    AttemptsStop(opts, 1, tx, None, replies);
    AttemptsReturn(opts, 1, tx, None, replies);
  }

  /** How the last reply that was read decides a delivery that has ended before its attempts ran out. */
  ghost predicate EndsAs(nonce: nat, r: Reply, outcome: Outcome) {
    if StopsMined(nonce, r) then outcome.Returned? || outcome.DeliveredBySomeoneElse?
    else if r.send.InsufficientFunds? || r.send.OtherError? then outcome == Rethrown(r.send)
    else outcome == CallFailed
  }

  lemma {:induction false} AttemptsEnd(opts: Opts, attempt: nat, tx: Tx, result: Option<Tx>, replies: seq<Reply>)
    requires attempt <= opts.maxAttempts + 1
    ensures var t := Attempts(opts, attempt, tx, result, replies);
      t.outcome.AttemptsExhausted? || t.outcome.AwaitingReply?
      || (0 < |t.signed| <= |replies| && EndsAs(tx.nonce, replies[|t.signed|-1], t.outcome))
    decreases |replies|
  {
    if attempt <= opts.maxAttempts && replies != [] && GoesOn(tx.nonce, replies[0]) {
      hide UpdateTx, EndsAs;
      var r := replies[0];
      var tx' := UpdateTx(opts, tx, r.update.value, attempt);
      var result' := if r.send.Accepted? then Some(tx) else result;
      AttemptsStopNonce(opts, tx, r.update.value, attempt);
      AttemptsEnd(opts, attempt + 1, tx', result', replies[1..]);
      var rest := Attempts(opts, attempt + 1, tx', result', replies[1..]);
      assert Attempts(opts, attempt, tx, result, replies) == Before(tx, rest);
      assert 0 < |rest.signed| <= |replies| - 1 ==> replies[1..][|rest.signed|-1] == replies[|rest.signed|];
    }
  }

  /**
   As long as no reply says that the nonce is used, a delivery does not return: it waits for a reply, ends after
   `maxAttempts` broadcasts, or ends with the first reply that does not let it go on, by that reply's error or a failed
   call.
   */
  lemma EndsWithoutMining(opts: Opts, data: Data, p: Prepared, replies: seq<Reply>)
    requires forall i :: 0 <= i < |replies| ==> !StopsMined(p.nonce, replies[i])
    ensures var t := Delivery(opts, 1, data, Some(p), replies);
      && |t.signed| <= |replies| + 1 && (forall i :: 0 <= i < |t.signed| - 1 ==> GoesOn(p.nonce, replies[i]))
      && (t.outcome.AwaitingReply? <==> |t.signed| == |replies| + 1)
      && (t.outcome.AttemptsExhausted? ==> |t.signed| == opts.maxAttempts)
      && (!t.outcome.AwaitingReply? && !t.outcome.AttemptsExhausted? ==>
          && 0 < |t.signed| <= |replies| && !GoesOn(p.nonce, replies[|t.signed|-1])
          && var send := replies[|t.signed|-1].send;
            t.outcome == if send.InsufficientFunds? || send.OtherError? then Rethrown(send) else CallFailed)
      && ((forall i :: 0 <= i < |replies| ==> GoesOn(p.nonce, replies[i])) ==>
          && (t.outcome == if |replies| >= opts.maxAttempts then AttemptsExhausted else AwaitingReply)
          && |t.signed| == Fewer(opts.maxAttempts, |replies| + 1))
  {
    var tx := FirstTx(data, p);
    AttemptsStop(opts, 1, tx, None, replies);
    AttemptsEnd(opts, 1, tx, None, replies);
    if forall i :: 0 <= i < |replies| ==> GoesOn(p.nonce, replies[i]) {
      GoingOnNeverThrows(opts, 1, tx, None, replies);
    }
  }

  lemma {:induction false} GoingOnNeverThrows(opts: Opts, attempt: nat, tx: Tx, result: Option<Tx>, replies: seq<Reply>)
    requires forall i :: 0 <= i < |replies| ==> GoesOn(tx.nonce, replies[i])
    ensures var o := Attempts(opts, attempt, tx, result, replies).outcome; o.AttemptsExhausted? || o.AwaitingReply?
    decreases |replies|
  {
    if attempt <= opts.maxAttempts && replies != [] {
      hide ScaleFee;
      var r := replies[0];
      assert forall i :: 0 <= i < |replies| - 1 ==> replies[1..][i] == replies[i+1];
      GoingOnNeverThrows(opts, attempt + 1, UpdateTx(opts, tx, r.update.value, attempt),
                         if r.send.Accepted? then Some(tx) else result, replies[1..]);
    }
  }

  // ---------- The chain ----------

  /** The account's mined transactions, oldest first: one is mined only at the current nonce. */
  ghost predicate ValidChain(mined: seq<Tx>) {
    forall i :: 0 <= i < |mined| ==> mined[i].nonce == i
  }

  /**
   However the account's transactions are mined, at most one of a delivery's transactions is, and only at its nonce;
   when `deliver` returns, something has been mined at that nonce.
   */
  lemma AtMostOneMined(opts: Opts, data: Data, p: Prepared, replies: seq<Reply>, atSend: seq<nat>, atCheck: seq<nat>,
                       mined: seq<Tx>)
    requires Honest(p.nonce, replies, atSend, atCheck) && ValidChain(mined)
    requires forall i :: 0 <= i < |replies| ==> atCheck[i] <= |mined|
    ensures var t := Delivery(opts, 1, data, Some(p), replies);
      && (forall i :: 0 <= i < |mined| && mined[i] in t.signed ==> i == p.nonce)
      && (t.outcome.Returned? ==> p.nonce < |mined|)
  {
    DeliveryIsSafe(opts, data, p, replies, atSend, atCheck);
    hide Delivery;
  }

  /**
   A chain that may follow `before`, the transactions up to the nonce of a delivery: at that nonce it holds one that
   was sent, by the delivery or by others.
   */
  ghost predicate MayFollow(before: seq<Tx>, signed: seq<Tx>, others: set<Tx>, mined: seq<Tx>) {
    && ValidChain(mined) && before <= mined && |before| < |mined|
    && (mined[|before|] in signed || mined[|before|] in others)
  }

  ghost predicate AlwaysMinesOurs(before: seq<Tx>, signed: seq<Tx>, others: set<Tx>) {
    forall mined :: MayFollow(before, signed, others, mined) ==> mined[|before|] in signed
  }

  ghost predicate AlwaysMinesReturned(before: seq<Tx>, signed: seq<Tx>, others: set<Tx>, returned: Tx) {
    forall mined :: MayFollow(before, signed, others, mined) ==> mined[|before|] == returned
  }

  /**
   Where any broadcast may still spread, even one the provider answered with an error: a delivery that returned is sure
   to have one of its transactions mined exactly when nobody else sent a different one
   at its nonce, and sure to have the returned one mined exactly when besides all its attempts were the same.
   */
  lemma MinedExactly(opts: Opts, data: Data, p: Prepared, replies: seq<Reply>, before: seq<Tx>, others: set<Tx>)
    requires ValidChain(before) && |before| == p.nonce
    requires Delivery(opts, 1, data, Some(p), replies).outcome.Returned?
    ensures var t := Delivery(opts, 1, data, Some(p), replies);
      && (AlwaysMinesOurs(before, t.signed, others) <==>
          forall o :: o in others && o.nonce == p.nonce ==> o in t.signed)
      && (AlwaysMinesReturned(before, t.signed, others, t.outcome.tx) <==>
          && (forall o :: o in others && o.nonce == p.nonce ==> o == t.outcome.tx)
          && forall i :: 0 <= i < |t.signed| ==> t.signed[i] == t.outcome.tx)
  {
    AttemptsStop(opts, 1, FirstTx(data, p), None, replies);
    var t := Delivery(opts, 1, data, Some(p), replies);
    hide Delivery, MayFollow, AlwaysMinesOurs, AlwaysMinesReturned;
    MinesOursExactly(before, t.signed, others);
    MinesReturnedExactly(before, t.signed, others, t.outcome.tx);
  }

  /** The transactions that the provider accepted. */
  function AcceptedOf(signed: seq<Tx>, replies: seq<Reply>): (accepted: seq<Tx>)
    requires |signed| <= |replies|
    ensures forall tx :: tx in accepted <==>
      exists i :: 0 <= i < |signed| && signed[i] == tx && replies[i].send.Accepted?
  {
    if signed == [] then []
    else
      var n := |signed| - 1;
      AcceptedOf(signed[..n], replies) + if replies[n].send.Accepted? then [signed[n]] else []
  }

  /**
   Where only accepted broadcasts spread: a delivery that returned is sure to have an accepted one mined exactly when
   nobody else sent a different one at its nonce, and the returned one exactly when besides all accepted ones equal it.
   */
  lemma AcceptedMinedExactly(opts: Opts, data: Data, p: Prepared, replies: seq<Reply>, before: seq<Tx>, others: set<Tx>)
    requires ValidChain(before) && |before| == p.nonce
    requires Delivery(opts, 1, data, Some(p), replies).outcome.Returned?
    ensures |Delivery(opts, 1, data, Some(p), replies).signed| <= |replies|
    ensures var t := Delivery(opts, 1, data, Some(p), replies);
      var accepted := AcceptedOf(t.signed, replies);
      && t.outcome.tx in accepted
      && (AlwaysMinesOurs(before, accepted, others) <==>
          forall o :: o in others && o.nonce == p.nonce ==> o in accepted)
      && (AlwaysMinesReturned(before, accepted, others, t.outcome.tx) <==>
          && (forall o :: o in others && o.nonce == p.nonce ==> o == t.outcome.tx)
          && AcceptedAre(t.signed, replies, t.outcome.tx))
  {
    ReturnedIsAccepted(opts, data, p, replies);
    var t := Delivery(opts, 1, data, Some(p), replies);
    hide *;
    var accepted := AcceptedOf(t.signed, replies);
    AcceptedAll(accepted, t.signed, replies, t.outcome.tx, |before|);
    MinesOursExactly(before, accepted, others);
    MinesReturnedExactly(before, accepted, others, t.outcome.tx);
  }

  lemma ReturnedIsAccepted(opts: Opts, data: Data, p: Prepared, replies: seq<Reply>)
    requires Delivery(opts, 1, data, Some(p), replies).outcome.Returned?
    ensures var t := Delivery(opts, 1, data, Some(p), replies);
      && |t.signed| <= |replies| && (forall i :: 0 <= i < |t.signed| ==> t.signed[i].nonce == p.nonce)
      && t.outcome.tx in AcceptedOf(t.signed, replies)
  {
    AttemptsStop(opts, 1, FirstTx(data, p), None, replies);
    AttemptsReturn(opts, 1, FirstTx(data, p), None, replies);
    hide Delivery, AcceptedOf;
  }

  ghost predicate AcceptedAre(signed: seq<Tx>, replies: seq<Reply>, tx: Tx)
    requires |signed| <= |replies|
  {
    forall i :: 0 <= i < |signed| && replies[i].send.Accepted? ==> signed[i] == tx
  }

  lemma AcceptedAll(accepted: seq<Tx>, signed: seq<Tx>, replies: seq<Reply>, tx: Tx, nonce: nat)
    requires |signed| <= |replies| && forall i :: 0 <= i < |signed| ==> signed[i].nonce == nonce
    requires forall x :: x in accepted <==>
      exists i :: 0 <= i < |signed| && signed[i] == x && replies[i].send.Accepted?
    ensures forall i :: 0 <= i < |accepted| ==> accepted[i].nonce == nonce
    ensures (forall i :: 0 <= i < |accepted| ==> accepted[i] == tx) <==> AcceptedAre(signed, replies, tx)
  {
    forall i | 0 <= i < |accepted|
      ensures accepted[i].nonce == nonce && (AcceptedAre(signed, replies, tx) ==> accepted[i] == tx)
    {
      assert accepted[i] in accepted;
    }
    if !AcceptedAre(signed, replies, tx) {
      var k :| 0 <= k < |signed| && replies[k].send.Accepted? && signed[k] != tx;
      assert signed[k] in accepted;
    }
  }

  /**
   The two differ: a second attempt refused because the first one was mined meanwhile leaves the returned first one in
   doubt only where refused broadcasts spread.
   */
  lemma RefusedAttemptMatters(opts: Opts, data: Data, p: Prepared, u: Update, replies: seq<Reply>)
    requires p.nonce == 0 && opts.maxAttempts >= 2 && u.deferred.Some? && u.deferred.value != data
    requires replies == [Reply(Accepted, Some(0), Some(u)), Reply(NonceExpired, None, None)]
    ensures Honest(p.nonce, replies, [0, 1], [0, 1])
    ensures var t := Delivery(opts, 1, data, Some(p), replies);
      && t.outcome == Returned(FirstTx(data, p)) && |t.signed| == 2
      && !AlwaysMinesReturned([], t.signed, {}, t.outcome.tx)
      && AlwaysMinesReturned([], AcceptedOf(t.signed, replies), {}, t.outcome.tx)
  {
    RefusedTrace(opts, data, p, u, replies);
    var t := Delivery(opts, 1, data, Some(p), replies);
    var returned := t.outcome.tx;
    assert Honest(p.nonce, replies, [0, 1], [0, 1]) && ValidChain([]);
    assert t.signed[0] == returned && t.signed[1] != returned;
    assert !replies[1].send.Accepted? && AcceptedAre(t.signed, replies, returned);
    hide *;
    MinedExactly(opts, data, p, replies, [], {});
    AcceptedMinedExactly(opts, data, p, replies, [], {});
    assert !AlwaysMinesReturned([], t.signed, {}, returned);
  }

  lemma RefusedTrace(opts: Opts, data: Data, p: Prepared, u: Update, replies: seq<Reply>)
    requires opts.maxAttempts >= 2 && p.nonce == 0
    requires replies == [Reply(Accepted, Some(0), Some(u)), Reply(NonceExpired, None, None)]
    ensures var tx := FirstTx(data, p);
      Delivery(opts, 1, data, Some(p), replies) == Trace([tx, UpdateTx(opts, tx, u, 1)], Returned(tx), 2)
  {
    hide UpdateTx;
    var tx := FirstTx(data, p);
    var tx' := UpdateTx(opts, tx, u, 1);
    assert replies[1..] == [replies[1]];
    assert Attempts(opts, 2, tx', Some(tx), replies[1..]) == Trace([tx'], Returned(tx), 2);
    assert replies[0].send.Accepted? && replies[0].reported == Some(0);
    assert NextAttempt(opts, 1, tx, Some(tx), replies) == Before(tx, Trace([tx'], Returned(tx), 2));
    assert Attempts(opts, 1, tx, None, replies) == NextAttempt(opts, 1, tx, Some(tx), replies);
    assert [tx] + [tx'] == [tx, tx'];
  }

  /** Anything sent at the nonce can be what is mined there. */
  lemma CanBeMined(before: seq<Tx>, signed: seq<Tx>, others: set<Tx>, tx: Tx)
    requires ValidChain(before) && tx.nonce == |before| && (tx in signed || tx in others)
    ensures MayFollow(before, signed, others, before + [tx]) && (before + [tx])[|before|] == tx
  {
  }

  lemma MinesOursExactly(before: seq<Tx>, signed: seq<Tx>, others: set<Tx>)
    requires ValidChain(before)
    ensures AlwaysMinesOurs(before, signed, others) <==> forall o :: o in others && o.nonce == |before| ==> o in signed
  {
    if AlwaysMinesOurs(before, signed, others) {
      forall o | o in others && o.nonce == |before| ensures o in signed {
        CanBeMined(before, signed, others, o);
      }
    }
  }

  lemma MinesReturnedExactly(before: seq<Tx>, signed: seq<Tx>, others: set<Tx>, returned: Tx)
    requires ValidChain(before) && forall i :: 0 <= i < |signed| ==> signed[i].nonce == |before|
    ensures AlwaysMinesReturned(before, signed, others, returned) <==>
      && (forall o :: o in others && o.nonce == |before| ==> o == returned)
      && forall i :: 0 <= i < |signed| ==> signed[i] == returned
  {
    if AlwaysMinesReturned(before, signed, others, returned) {
      forall o | o in others && o.nonce == |before| ensures o == returned {
        CanBeMined(before, signed, others, o);
      }
      forall i | 0 <= i < |signed| ensures signed[i] == returned {
        CanBeMined(before, signed, others, signed[i]);
      }
    }
  }

  /** If only accepted broadcasts reach the network, "delivered by someone else" is the truth. */
  lemma SomeoneElseIsRight(opts: Opts, data: Data, p: Prepared, replies: seq<Reply>, atSend: seq<nat>,
                           atCheck: seq<nat>, mined: seq<Tx>)
    requires Honest(p.nonce, replies, atSend, atCheck) && ValidChain(mined)
    requires forall i :: 0 <= i < |replies| ==> atCheck[i] <= |mined|
    requires var t := Delivery(opts, 1, data, Some(p), replies);
      && t.outcome.DeliveredBySomeoneElse?
      && forall tx :: tx in mined && tx in t.signed ==>
        exists i :: 0 <= i < |t.signed| && i < |replies| && t.signed[i] == tx && replies[i].send.Accepted?
    ensures p.nonce < |mined| && mined[p.nonce] !in Delivery(opts, 1, data, Some(p), replies).signed
  {
    DeliveryIsSafe(opts, data, p, replies, atSend, atCheck);
    var t := Delivery(opts, 1, data, Some(p), replies);
    hide Delivery;
    assert mined[p.nonce] in mined;
  }

  /** Returning does not mean that a transaction of ours was mined: someone else may have taken the nonce meanwhile. */
  lemma ReturnsThoughSomeoneElseWasMined(data: Data, p: Prepared, opts: Opts, replies: seq<Reply>, theirs: Tx)
    requires p.nonce == 0 && opts.maxAttempts >= 1 && replies == [Reply(Accepted, Some(1), None)]
    requires theirs.nonce == 0 && theirs.data != data
    ensures Honest(p.nonce, replies, [1], [1]) && ValidChain([theirs])
    ensures Delivery(opts, 1, data, Some(p), replies).outcome.Returned?
    ensures theirs !in Delivery(opts, 1, data, Some(p), replies).signed
  {
    assert Delivery(opts, 1, data, Some(p), replies).signed == [FirstTx(data, p)];
  }

  /** Nor need it be the returned one: the first attempt may be mined after the second was accepted. */
  lemma ReturnsLaterThoughEarlierWasMined(data: Data, p: Prepared, opts: Opts, replies: seq<Reply>, u: Update)
    requires p.nonce == 0 && opts.maxAttempts >= 2
    requires replies == [Reply(Accepted, Some(0), Some(u)), Reply(Accepted, Some(1), None)]
    requires u.deferred.Some? && u.deferred.value != data
    ensures var t := Delivery(opts, 1, data, Some(p), replies);
      && |t.signed| == 2 && t.outcome == Returned(t.signed[1]) && t.signed[0] != t.signed[1]
      && Honest(p.nonce, replies, [0, 0], [0, 1]) && ValidChain([t.signed[0]])
  {
    hide ScaleFee, ScaleGasLimit;
    var tx := FirstTx(data, p);
    var tx' := UpdateTx(opts, tx, u, 1);
    assert replies[1..] == [replies[1]];
    assert Attempts(opts, 2, tx', Some(tx), replies[1..]) == Trace([tx'], Returned(tx'), 2);
    assert replies[0].send.Accepted? && replies[0].reported == Some(0);
    assert NextAttempt(opts, 1, tx, Some(tx), replies) == Before(tx, Trace([tx'], Returned(tx'), 2));
    assert Attempts(opts, 1, tx, None, replies) == NextAttempt(opts, 1, tx, Some(tx), replies);
  }

  // ---------- Fees and calldata of the attempts ----------

  lemma {:induction false} PowerGrows(base: real, n: nat)
    requires base >= 1.0
    ensures 1.0 <= Power(base, n) <= Power(base, n + 1)
  {
    if n > 0 {
      PowerGrows(base, n - 1);
    }
    Scale(Power(base, n), 1.0, base);
  }

  lemma Scale(x: real, a: real, b: real)
    requires 0.0 <= x && a <= b
    ensures x * a <= x * b && a * x <= b * x
  {
  }

  lemma FeeRises(opts: Opts, fee: nat, fee': nat, attempt: nat)
    requires opts.multiplier >= 1.0 && fee <= fee'
    ensures fee <= ScaleFee(opts, fee, attempt) <= ScaleFee(opts, fee', attempt + 1)
  {
    PowerGrows(opts.multiplier, attempt);
    hide Power, Round;
    var a, b := Power(opts.multiplier, attempt), Power(opts.multiplier, attempt + 1);
    ScaledMore(fee as real, fee' as real, a, b);
    RoundKeepsOrder(fee, fee as real * a, fee' as real * b);
  }

  lemma ScaledMore(f: real, f': real, a: real, b: real)
    requires 0.0 <= f <= f' && 1.0 <= a <= b
    ensures f <= f * a <= f' * b
  {
    Scale(f, 1.0, a);
    Scale(f, a, b);
    Scale(b, f, f');
  }

  lemma RoundKeepsOrder(n: nat, x: real, y: real)
    requires n as real <= x <= y
    ensures n <= Round(x) <= Round(y)
  {
  }

  ghost predicate EstimatesRise(replies: seq<Reply>) {
    forall i, j :: 0 <= i < j < |replies| && replies[i].update.Some? && replies[j].update.Some? ==>
      replies[i].update.value.fee <= replies[j].update.value.fee
  }

  /** The k-th transaction, from what was fetched for it: scaled by the attempts made, with the latest calldata. */
  function AttemptTx(opts: Opts, data: Data, p: Prepared, replies: seq<Reply>, k: nat): Tx
    requires k <= |replies| && forall i :: 0 <= i < k ==> replies[i].update.Some?
  {
    if k == 0 then FirstTx(data, p)
    else
      var u := replies[k-1].update.value;
      Tx(p.nonce, ScaleFee(opts, u.fee, k), ScaleGasLimit(opts, u.gasLimit, k),
         if u.deferred.Some? then u.deferred.value else AttemptTx(opts, data, p, replies, k - 1).data)
  }

  lemma {:induction false} SignedIs(
    opts: Opts, data: Data, p: Prepared, replies: seq<Reply>, done: nat, result: Option<Tx>, k: nat)
    requires done <= |replies| && forall i :: 0 <= i < done ==> replies[i].update.Some?
    requires k < |Attempts(opts, done + 1, AttemptTx(opts, data, p, replies, done), result, replies[done..]).signed|
    requires AttemptTx(opts, data, p, replies, done).nonce == p.nonce
    ensures done + k <= |replies| && forall i :: 0 <= i < done + k ==> replies[i].update.Some?
    ensures Attempts(opts, done + 1, AttemptTx(opts, data, p, replies, done), result, replies[done..]).signed[k]
      == AttemptTx(opts, data, p, replies, done + k)
    decreases k
  {
    hide ScaleFee, ScaleGasLimit;
    if k > 0 {
      var tx := AttemptTx(opts, data, p, replies, done);
      var r := replies[done..][0];
      assert replies[done..][1..] == replies[done+1..];
      var result' := if r.send.Accepted? then Some(tx) else result;
      assert UpdateTx(opts, tx, r.update.value, done + 1) == AttemptTx(opts, data, p, replies, done + 1);
      var tx' := AttemptTx(opts, data, p, replies, done + 1);
      assert Attempts(opts, done + 1, tx, result, replies[done..])
        == Before(tx, Attempts(opts, done + 2, tx', result', replies[done+1..]));
      SignedIs(opts, data, p, replies, done + 1, result', k - 1);
    }
  }

  /** `n` is the whole number nearest to `factor` times the amount, the larger one of two. */
  predicate IsNearest(n: int, amount: nat, factor: real) {
    n as real - 0.5 <= amount as real * factor < n as real + 0.5
  }

  /** Powers start at one and one factor, and exponents add up. */
  lemma {:induction false} PowersAdd(base: real, m: nat, n: nat)
    ensures Power(base, 0) == 1.0 && Power(base, 1) == base
    ensures Power(base, m + n) == Power(base, m) * Power(base, n)
  {
    assert Power(base, 1) == base * Power(base, 0);
    if m > 0 {
      PowersAdd(base, m - 1, n);
      hide Power;
      PowerStep(base, m - 1);
      PowerStep(base, m + n - 1);
      Regroup(base, Power(base, m - 1), Power(base, n));
    }
  }

  lemma PowerStep(base: real, n: nat)
    ensures Power(base, n + 1) == base * Power(base, n)
  {
  }

  lemma Regroup(a: real, b: real, c: real)
    ensures a * (b * c) == (a * b) * c
  {
  }

  /**
   The first transaction carries the calldata of the call and what was estimated, unscaled. Each later one carries what
   was estimated after the attempt before it, the fee times the multiplier once for every attempt made so far, to the
   nearest whole number; the gas limit unscaled unless fees are two-dimensional; and newly fetched calldata if any.
   */
  lemma SignedExactly(opts: Opts, data: Data, p: Prepared, replies: seq<Reply>, k: nat)
    requires k < |Delivery(opts, 1, data, Some(p), replies).signed|
    ensures k <= |replies| && forall i :: 0 <= i < k ==> replies[i].update.Some?
    ensures var signed := Delivery(opts, 1, data, Some(p), replies).signed;
      if k == 0 then signed[0] == Tx(p.nonce, p.fee, p.gasLimit, data)
      else
        var u, tx := replies[k-1].update.value, signed[k];
        && tx.nonce == p.nonce
        && IsNearest(tx.fee, u.fee, Power(opts.multiplier, k))
        && (if opts.twoDimensionalFees then IsNearest(tx.gasLimit, u.gasLimit, Power(opts.gasLimitMultiplier, k))
            else tx.gasLimit == u.gasLimit)
        && tx.data == if u.deferred.Some? then u.deferred.value else signed[k-1].data
  {
    SignedOf(opts, data, p, replies, k);
    if k > 0 {
      SignedOf(opts, data, p, replies, k - 1);
      hide Delivery, ScaleFee, ScaleGasLimit, IsNearest;
      var u := replies[k-1].update.value;
      var power, gasPower := Power(opts.multiplier, k), Power(opts.gasLimitMultiplier, k);
      ScaledNearest(opts, u.fee, u.gasLimit, k, power, gasPower);
    }
  }

  lemma ScaledNearest(opts: Opts, fee: nat, gasLimit: nat, attempt: nat, power: real, gasPower: real)
    requires power == Power(opts.multiplier, attempt) && gasPower == Power(opts.gasLimitMultiplier, attempt)
    ensures IsNearest(ScaleFee(opts, fee, attempt), fee, power)
    ensures if opts.twoDimensionalFees then IsNearest(ScaleGasLimit(opts, gasLimit, attempt), gasLimit, gasPower)
      else ScaleGasLimit(opts, gasLimit, attempt) == gasLimit
  {
    var x := fee as real * Power(opts.multiplier, attempt);
    var y := gasLimit as real * Power(opts.gasLimitMultiplier, attempt);
    assert x == fee as real * power && y == gasLimit as real * gasPower;
    RoundIsNearest(x);
    RoundIsNearest(y);
  }

  lemma RoundIsNearest(x: real)
    ensures Round(x) as real - 0.5 <= x < Round(x) as real + 0.5
  {
  }

  lemma SignedOf(opts: Opts, data: Data, p: Prepared, replies: seq<Reply>, k: nat)
    requires k < |Delivery(opts, 1, data, Some(p), replies).signed|
    ensures k <= |replies| && forall i :: 0 <= i < k ==> replies[i].update.Some?
    ensures Delivery(opts, 1, data, Some(p), replies).signed[k] == AttemptTx(opts, data, p, replies, k)
  {
    assert replies[0..] == replies;
    SignedIs(opts, data, p, replies, 0, None, k);
  }

  /** With a multiplier of at least 1 and estimates that do not fall, no attempt bids less than the one before it. */
  lemma BidsNeverFall(opts: Opts, data: Data, p: Prepared, replies: seq<Reply>, k: nat)
    requires 0 < k < |Delivery(opts, 1, data, Some(p), replies).signed| && opts.multiplier >= 1.0
    requires replies != [] && replies[0].update.Some? ==> p.fee <= replies[0].update.value.fee
    requires EstimatesRise(replies)
    ensures var signed := Delivery(opts, 1, data, Some(p), replies).signed; signed[k-1].fee <= signed[k].fee
  {
    SignedOf(opts, data, p, replies, k);
    SignedOf(opts, data, p, replies, k - 1);
    hide Delivery;
    var u := replies[k-1].update.value;
    if k == 1 {
      FeeRises(opts, p.fee, p.fee, 1);
      FeeRises(opts, p.fee, u.fee, 0);
      assert Power(opts.multiplier, 0) == 1.0;
    } else {
      FeeRises(opts, replies[k-2].update.value.fee, u.fee, k - 1);
    }
  }

  // ---------- Called once ----------

  /**
   A second call on the same object is refused exactly when the first one got past its first attempt; one that ended
   during it, even by returning, leaves the object open to another call.
   */
  lemma SecondCallRefusedExactly(opts: Opts, data: Data, prepared: Option<Prepared>, replies: seq<Reply>,
                                 data2: Data, prepared2: Option<Prepared>, replies2: seq<Reply>)
    ensures var t := Delivery(opts, 1, data, prepared, replies);
      Delivery(opts, t.attempt, data2, prepared2, replies2).outcome.CalledBefore? <==>
        prepared.Some? && opts.maxAttempts >= 1 && replies != [] && GoesOn(prepared.value.nonce, replies[0])
  {
    if prepared.Some? {
      var tx := FirstTx(data, prepared.value);
      AttemptsStop(opts, 1, tx, None, replies);
    }
    NotRefused(opts, data2, prepared2, replies2);
  }

  lemma NotRefused(opts: Opts, data: Data, prepared: Option<Prepared>, replies: seq<Reply>)
    ensures !Delivery(opts, 1, data, prepared, replies).outcome.CalledBefore?
  {
    if prepared.Some? {
      AttemptsNotRefused(opts, 1, FirstTx(data, prepared.value), None, replies);
    }
  }

  lemma {:induction false} AttemptsNotRefused(opts: Opts, attempt: nat, tx: Tx, result: Option<Tx>, replies: seq<Reply>)
    ensures !Attempts(opts, attempt, tx, result, replies).outcome.CalledBefore?
    decreases |replies|
  {
    if attempt <= opts.maxAttempts && replies != [] && GoesOn(tx.nonce, replies[0]) {
      var r := replies[0];
      AttemptsNotRefused(opts, attempt + 1, UpdateTx(opts, tx, r.update.value, attempt),
                         if r.send.Accepted? then Some(tx) else result, replies[1..]);
    }
  }

  // ---------- The delivery object ----------

  class TxDelivery {
    const opts: Opts
    var attempt: nat

    constructor (opts: Opts)
      ensures this.opts == opts && attempt == 1
    {
      this.opts := opts;
      attempt := 1;
    }

    method Deliver(data: Data, prepared: Option<Prepared>, replies: seq<Reply>)
      returns (outcome: Outcome, signed: seq<Tx>)
      modifies this
      ensures Trace(signed, outcome, attempt) == Delivery(opts, old(attempt), data, prepared, replies)
    {
      hide UpdateTx;
      signed := [];
      if attempt != 1 {
        return CalledBefore, signed;
      }
      if prepared.None? {
        return CallFailed, signed;
      }
      var tx := FirstTx(data, prepared.value);
      var result: Option<Tx> := None;
      var next := 0;
      ghost var whole := Attempts(opts, 1, tx, None, replies);
      assert replies[0..] == replies;
      SignedBeforeNothing(whole);
      while attempt <= opts.maxAttempts
        invariant next <= |replies|
        invariant whole == SignedBefore(signed, Attempts(opts, attempt, tx, result, replies[next..]))
        decreases |replies| - next
      {
        signed := signed + [tx];
        if next == |replies| {
          return AwaitingReply, signed;
        }
        var r := replies[next];
        assert r == replies[next..][0] && replies[next..][1..] == replies[next+1..];
        match r.send {
          case Accepted =>
            result := Some(tx);
            if r.reported.None? {
              return CallFailed, signed;
            }
            if r.reported.value > tx.nonce {
              return Returned(tx), signed;
            }
          case NonceExpired =>
            if result.None? {
              return DeliveredBySomeoneElse, signed;
            }
            return Returned(result.value), signed;
          case Underpriced =>
          case _ =>
            return Rethrown(r.send), signed;
        }
        if r.update.None? {
          return CallFailed, signed;
        }
        ghost var earlier := signed[..|signed|-1];
        assert signed == earlier + [tx];
        ghost var tx' := UpdateTx(opts, tx, r.update.value, attempt);
        SignedOneMore(earlier, tx, Attempts(opts, attempt + 1, tx', result, replies[next+1..]));
        tx := UpdateTx(opts, tx, r.update.value, attempt);
        attempt := attempt + 1;
        next := next + 1;
      }
      return AttemptsExhausted, signed;
    }
  }

  ghost function SignedBefore(signed: seq<Tx>, rest: Trace): Trace {
    rest.(signed := signed + rest.signed)
  }

  lemma SignedBeforeNothing(t: Trace)
    ensures SignedBefore([], t) == t
  {
  }

  lemma SignedOneMore(signed: seq<Tx>, tx: Tx, rest: Trace)
    ensures SignedBefore(signed, Before(tx, rest)) == SignedBefore(signed + [tx], rest)
  {
  }
}
