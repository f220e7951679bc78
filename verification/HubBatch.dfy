/** HubBatch: the tolerant and the strict way of minting many tokens in one transaction. */
module HubBatchModel {
  import opened Common
  import opened HubModel
  import opened HubSafety

  const MAX_BATCH: nat := 100

  datatype Result = Result(success: bool, message: string, errorCode: nat, lowLevelData: Bytes)

  const SUCCESS: Result := Result(true, "", 0, [])

  /** What each catch clause stores. */
  function Caught(failure: Failure): Result {
    match failure
    case Error(reason) => Result(false, reason, 0, [])
    case Panic(code) => Result(false, "", code, [])
    case LowLevel(data) => Result(false, "", 0, data)
  }

  /** The parallel arrays both entry points take. */
  datatype Arguments = Arguments(
    circuitIds: seq<Bytes32>,
    sbtReceivers: seq<nat>,
    expirations: seq<nat>,
    customFees: seq<nat>,
    nullifiers: seq<nat>,
    publicValues: seq<seq<nat>>,
    signatures: seq<Bytes>)
  {
    predicate Accepted() { |circuitIds| <= MAX_BATCH && LengthsMatch() }

    predicate LengthsMatch() {
      |circuitIds| == |sbtReceivers| == |expirations| == |customFees| == |nullifiers| == |publicValues| == |signatures|
    }

    /** At most a hundred items, in arrays of one length; otherwise why not. */
    function Refusal(): (failure: Option<Failure>)
      ensures failure.None? <==>
                && |circuitIds| <= 100
                && |circuitIds| == |sbtReceivers| == |expirations| == |customFees| == |nullifiers| == |publicValues|
                   == |signatures|
      ensures |circuitIds| > 100 ==> failure == Some(Error("Batch too large"))
      ensures |circuitIds| <= 100 && failure.Some? ==> failure == Some(Error("Length mismatch"))
    {
      if |circuitIds| > MAX_BATCH then Some(Error("Batch too large"))
      else if !LengthsMatch() then Some(Error("Length mismatch"))
      else None
    }

    function At(i: nat): SetSBTCall
      requires LengthsMatch() && i < |circuitIds|
    {
      SetSBTCall(circuitIds[i], sbtReceivers[i], expirations[i], customFees[i], nullifiers[i], publicValues[i], signatures[i])
    }

    /** The call takes each of its arguments from the array of that name. */
    predicate FedFrom(call: SetSBTCall, i: nat)
      requires LengthsMatch() && i < |circuitIds|
    {
      && call.circuitId == circuitIds[i] && call.sbtReceiver == sbtReceivers[i] && call.expiration == expirations[i]
      && call.customFee == customFees[i] && call.nullifier == nullifiers[i] && call.publicValues == publicValues[i]
      && call.signature == signatures[i]
    }

    /** The calls, each with what its receiver does when the token arrives. */
    function Attempts(reactions: seq<Reaction>): (attempts: seq<Attempt>)
      requires LengthsMatch() && |reactions| == |circuitIds|
      ensures |attempts| == |circuitIds|
      ensures forall i :: 0 <= i < |attempts| ==> attempts[i] == Attempt(At(i), reactions[i]) && FedFrom(attempts[i].call, i)
    {
      seq(|circuitIds|, i requires 0 <= i < |circuitIds| => Attempt(At(i), reactions[i]))
    }
  }

  datatype Attempt = Attempt(call: SetSBTCall, reaction: Reaction)

  function Try(w: World, attempt: Attempt, s: State): Outcome {
    SetSBT(w, 0, attempt.call, attempt.reaction, s)
  }

  /** Each call on its own: a failure is noted and passed over. */
  function Tolerant(w: World, attempts: seq<Attempt>, s: State): (r: (State, seq<Result>))
    ensures |r.1| == |attempts|
    decreases attempts
  {
    if attempts == [] then (s, [])
    else
      match Try(w, attempts[0], s)
      case Done(s') => var r := Tolerant(w, attempts[1..], s'); (r.0, [SUCCESS] + r.1)
      case Reverted(f) => var r := Tolerant(w, attempts[1..], s); (r.0, [Caught(f)] + r.1)
  }

  /** All of the attempts, or none. */
  function Strict(w: World, attempts: seq<Attempt>, s: State): Outcome
    decreases attempts
  {
    if attempts == [] then Done(s)
    else
      match Try(w, attempts[0], s)
      case Done(s') => Strict(w, attempts[1..], s')
      case Reverted(f) => Reverted(f)
  }

  lemma StrictStep(w: World, attempts: seq<Attempt>, i: nat, s: State)
    requires i < |attempts|
    ensures var outcome := Try(w, attempts[i], s);
            Strict(w, attempts[i..], s) == if outcome.Done? then Strict(w, attempts[i + 1..], outcome.state) else outcome
  {
    assert attempts[i..][1..] == attempts[i + 1..];
  }

  /** The calls reported successful, in order. */
  function Successful(attempts: seq<Attempt>, results: seq<Result>): (kept: seq<Attempt>)
    requires |attempts| == |results|
    ensures |kept| <= |attempts|
  {
    if attempts == [] then []
    else (if results[0].success then [attempts[0]] else []) + Successful(attempts[1..], results[1..])
  }

  ghost predicate AllSucceeded(results: seq<Result>) {
    forall i :: 0 <= i < |results| ==> results[i].success
  }

  /** One more call at the end of a tolerant batch. */
  function ThenTolerant(w: World, attempt: Attempt, before: (State, seq<Result>)): (State, seq<Result>) {
    match Try(w, attempt, before.0)
    case Done(s') => (s', before.1 + [SUCCESS])
    case Reverted(f) => (before.0, before.1 + [Caught(f)])
  }

  lemma ThenTolerantPrepends(w: World, attempt: Attempt, result: Result, before: (State, seq<Result>))
    ensures var after := ThenTolerant(w, attempt, before);
            ThenTolerant(w, attempt, (before.0, [result] + before.1)) == (after.0, [result] + after.1)
  {
    var last := if Try(w, attempt, before.0).Done? then SUCCESS else Caught(Try(w, attempt, before.0).failure);
    assert [result] + before.1 + [last] == [result] + (before.1 + [last]);
  }

  lemma {:induction false} TolerantOneMore(w: World, attempts: seq<Attempt>, n: nat, s: State)
    requires n < |attempts|
    ensures Tolerant(w, attempts[..n + 1], s) == ThenTolerant(w, attempts[n], Tolerant(w, attempts[..n], s))
    decreases n
  {
    assert attempts[..n + 1][1..] == attempts[1..][..n];
    if n > 0 {
      assert attempts[..n][1..] == attempts[1..][..n - 1];
      var first := Try(w, attempts[0], s);
      var s' := if first.Done? then first.state else s;
      var result := if first.Done? then SUCCESS else Caught(first.failure);
      TolerantOneMore(w, attempts[1..], n - 1, s');
      var before := Tolerant(w, attempts[1..][..n - 1], s');
      assert Tolerant(w, attempts[..n], s) == (before.0, [result] + before.1);
      ThenTolerantPrepends(w, attempts[n], result, before);
    } else {
      assert attempts[..0] == [] && attempts[..1] == [attempts[0]] && [attempts[0]][1..] == [];
      assert Tolerant(w, [attempts[0]], s).1 == ThenTolerant(w, attempts[0], (s, [])).1;
    }
  }

  /** What is reported of one item, by how its call came out. */
  predicate Reports(outcome: Outcome, result: Result) {
    match outcome
    case Done(_) => result.success && result.message == "" && result.errorCode == 0 && result.lowLevelData == []
    case Reverted(Error(reason)) =>
      !result.success && result.message == reason && result.errorCode == 0 && result.lowLevelData == []
    case Reverted(Panic(code)) =>
      !result.success && result.message == "" && result.errorCode == code && result.lowLevelData == []
    case Reverted(LowLevel(data)) =>
      !result.success && result.message == "" && result.errorCode == 0 && result.lowLevelData == data
  }

  lemma {:induction false} TolerantPrefix(w: World, attempts: seq<Attempt>, n: nat, s: State)
    requires n <= |attempts|
    ensures Tolerant(w, attempts[..n], s).1 == Tolerant(w, attempts, s).1[..n]
    decreases |attempts| - n
  {
    if n < |attempts| {
      TolerantOneMore(w, attempts, n, s);
      TolerantPrefix(w, attempts, n + 1, s);
      var some, more := Tolerant(w, attempts[..n], s).1, Tolerant(w, attempts[..n + 1], s).1;
      assert some == more[..n];
    } else {
      assert attempts[..n] == attempts;
    }
  }

  /** Each item of a tolerant batch is a call without ether in the state the items before it left, reported as it came out. */
  lemma TolerantItem(w: World, attempts: seq<Attempt>, i: nat, s: State)
    requires i < |attempts|
    ensures var before := Tolerant(w, attempts[..i], s).0;
            var outcome := SetSBT(w, 0, attempts[i].call, attempts[i].reaction, before);
            && Tolerant(w, attempts[..i + 1], s).0 == Settled(outcome, before)
            && Reports(outcome, Tolerant(w, attempts, s).1[i])
  {
    TolerantOneMore(w, attempts, i, s);
    TolerantPrefix(w, attempts, i + 1, s);
    var some := Tolerant(w, attempts[..i + 1], s).1;
    assert Tolerant(w, attempts, s).1[i] == some[i];
  }

  /** Strict succeeds exactly when tolerant reports success throughout, and then they end in the same state. */
  lemma {:induction false} StrictIffTolerantSucceedsThroughout(w: World, attempts: seq<Attempt>, s: State)
    ensures Strict(w, attempts, s).Done? <==> AllSucceeded(Tolerant(w, attempts, s).1)
    ensures Strict(w, attempts, s).Done? ==> Strict(w, attempts, s).state == Tolerant(w, attempts, s).0
    decreases attempts
  {
    if attempts != [] {
      match Try(w, attempts[0], s) {
        case Done(s') =>
          StrictIffTolerantSucceedsThroughout(w, attempts[1..], s');
          var rest := Tolerant(w, attempts[1..], s').1;
          var all := Tolerant(w, attempts, s).1;
          assert forall i :: 0 <= i < |rest| ==> all[i + 1] == rest[i];
          assert forall i :: 1 <= i < |all| ==> all[i] == rest[i - 1];
        case Reverted(f) =>
          assert !Tolerant(w, attempts, s).1[0].success;
      }
    }
  }

  /** Tolerant is strict on what it reports successful: failed calls leave no trace at all. */
  lemma {:induction false} TolerantIsStrictOnSuccesses(w: World, attempts: seq<Attempt>, s: State)
    ensures var r := Tolerant(w, attempts, s);
            Strict(w, Successful(attempts, r.1), s) == Done(r.0)
    decreases attempts
  {
    if attempts != [] {
      match Try(w, attempts[0], s) {
        case Done(s') =>
          var rest := Tolerant(w, attempts[1..], s');
          TolerantIsStrictOnSuccesses(w, attempts[1..], s');
          assert Tolerant(w, attempts, s).1[1..] == rest.1;
          var kept := Successful(attempts, Tolerant(w, attempts, s).1);
          assert kept[0] == attempts[0] && kept[1..] == Successful(attempts[1..], rest.1);
        case Reverted(f) =>
          var rest := Tolerant(w, attempts[1..], s);
          TolerantIsStrictOnSuccesses(w, attempts[1..], s);
          assert Tolerant(w, attempts, s).1[1..] == rest.1;
          assert Successful(attempts, Tolerant(w, attempts, s).1) == Successful(attempts[1..], rest.1);
      }
    }
  }

  function AsOps(attempts: seq<Attempt>): seq<Op> {
    if attempts == [] then [] else [Set(0, attempts[0].call, attempts[0].reaction)] + AsOps(attempts[1..])
  }

  /** A tolerant batch is an ordinary run of the hub, so everything true of its reachable states stays true. */
  lemma {:induction false} TolerantIsARun(w: World, attempts: seq<Attempt>, s: State)
    ensures Tolerant(w, attempts, s).0 == Run(w, AsOps(attempts), s)
    decreases attempts
  {
    if attempts != [] {
      assert AsOps(attempts)[1..] == AsOps(attempts[1..]);
      match Try(w, attempts[0], s) {
        case Done(s') => TolerantIsARun(w, attempts[1..], s');
        case Reverted(_) => TolerantIsARun(w, attempts[1..], s);
      }
    }
  }

  /** Both forms keep the hub's invariant and undo nothing recorded. */
  lemma BatchesKeepInvariant(w: World, attempts: seq<Attempt>, s: State)
    requires Invariant(w, s)
    ensures var s' := Tolerant(w, attempts, s).0; Invariant(w, s') && Extends(s, s')
    ensures var s' := Settled(Strict(w, attempts, s), s); Invariant(w, s') && Extends(s, s')
  {
    TolerantIsARun(w, attempts, s);
    RunKeepsInvariant(w, AsOps(attempts), s);
    StrictIffTolerantSucceedsThroughout(w, attempts, s);
  }
}

/** The two entry points as loops over the arrays, driving a hub object. */
module HubBatchContract {
  import opened Common
  import opened HubModel
  import opened HubContract
  import opened HubBatchModel

  class HubBatch {
    const hub: Hub

    constructor (hub: Hub)
      ensures this.hub == hub
    {
      this.hub := hub;
    }

    /** What both entry points require of their arrays. */
    method Check(a: Arguments) returns (failure: Option<Failure>)
      ensures failure == a.Refusal() && (failure.None? <==> a.Accepted())
    {
      if |a.circuitIds| > MAX_BATCH { return Some(Error("Batch too large")); }
      if !a.LengthsMatch() { return Some(Error("Length mismatch")); }
      return None;
    }

    method SetSBTBatch(a: Arguments, reactions: seq<Reaction>) returns (results: seq<Result>, failure: Option<Failure>)
      requires |reactions| == |a.circuitIds|
      modifies hub
      ensures failure.None? <==> a.Accepted()
      ensures failure == a.Refusal()
      ensures !a.Accepted() ==> hub.Current() == old(hub.Current())
      ensures a.Accepted() ==> Tolerant(hub.world, a.Attempts(reactions), old(hub.Current())) == (hub.Current(), results)
    {
      results := [];
      failure := Check(a);
      if failure.Some? { return; }
      var length := |a.circuitIds|;
      var i := 0;
      ghost var attempts := a.Attempts(reactions);
      while i < length
        invariant 0 <= i <= length && |results| == i && failure == None
        invariant Tolerant(hub.world, attempts[..i], old(hub.Current())) == (hub.Current(), results)
      {
        TolerantOneMore(hub.world, attempts, i, old(hub.Current()));
        var caught := hub.SetSBT(0, a.At(i), reactions[i]);
        results := results + [if caught.None? then SUCCESS else Caught(caught.value)];
        i := i + 1;
      }
      assert attempts[..length] == attempts;
    }

    method SetSBTBatchStrict(a: Arguments, reactions: seq<Reaction>) returns (failure: Option<Failure>)
      requires |reactions| == |a.circuitIds|
      modifies hub
      ensures !a.Accepted() ==> failure == a.Refusal() && failure.Some? && hub.Current() == old(hub.Current())
      ensures a.Accepted() ==>
                hub.Settles(Strict(hub.world, a.Attempts(reactions), old(hub.Current())), old(hub.Current()), failure)
    {
      failure := Check(a);
      if failure.Some? { return; }
      var length := |a.circuitIds|;
      var snapshot := hub.Snapshot();
      ghost var before := hub.Current();
      var i := 0;
      ghost var attempts := a.Attempts(reactions);
      assert attempts[0..] == attempts;
      while i < length
        invariant 0 <= i <= length
        invariant Strict(hub.world, attempts[i..], hub.Current()) == Strict(hub.world, attempts, old(hub.Current()))
      {
        StrictStep(hub.world, attempts, i, hub.Current());
        failure := hub.SetSBT(0, a.At(i), reactions[i]);
        if failure.Some? {
          hub.Restore(snapshot, before);
          return;
        }
        i := i + 1;
      }
      return None;
    }
  }
}
