/** What holds at every point of every run of Hub, receivers' callbacks included: one mint per nullifier, stable identifiers, sound token and ether counts. */
module HubSafety {
  import opened Common
  import opened HubModel

  function FeeOf(mint: Mint): nat { mint.fee }

  ghost predicate Consumed(mints: seq<Mint>, nullifier: nat) {
    exists i :: 0 <= i < |mints| && mints[i].nullifier == nullifier
  }

  /** The nullifier guard: a nonzero nullifier is marked exactly when one mint, and no other, consumed it. */
  ghost predicate NullifiersSpentOnce(w: World, used: set<nat>, identifiers: map<nat, Bytes32>, mints: seq<Mint>) {
    && (forall n :: n in used <==> n != 0 && Consumed(mints, n))
    && (forall i, j :: 0 <= i < j < |mints| && mints[i].nullifier != 0 ==> mints[i].nullifier != mints[j].nullifier)
    && (forall i :: 0 <= i < |mints| && mints[i].nullifier != 0 ==>
          mints[i].nullifier in identifiers
          && identifiers[mints[i].nullifier] == w.identifier(mints[i].receiver, mints[i].circuitId))
  }

  /** Token ids are 1..counter, each owned by the receiver of the mint that created it. */
  ghost predicate TokensCounted(tokenIds: nat, owners: map<nat, Address>, balances: map<Address, nat>, mints: seq<Mint>) {
    && tokenIds == |mints|
    && (forall id :: id in owners <==> 1 <= id <= tokenIds)
    && (forall id :: 1 <= id <= tokenIds ==> owners[id] == mints[id - 1].receiver)
    && MapTotal(balances, Self) == tokenIds
  }

  ghost predicate EtherCounted(s: State) {
    s.ether + s.collected == SeqTotal(s.mints, FeeOf) + s.forceFed
  }

  ghost predicate Invariant(w: World, s: State) {
    && NullifiersSpentOnce(w, s.usedNullifiers, s.nullifiersToIdentifiers, s.mints)
    && TokensCounted(s.tokenIds, s.tokenOwners, s.balances, s.mints)
    && EtherCounted(s)
  }

  /** Nothing already recorded is undone: mints, tokens and the identifiers of spent nullifiers stay as they are. */
  ghost predicate Extends(a: State, b: State) {
    && a.mints <= b.mints
    && a.tokenIds <= b.tokenIds
    && (forall id :: id in a.tokenOwners ==> id in b.tokenOwners && b.tokenOwners[id] == a.tokenOwners[id])
    && a.usedNullifiers <= b.usedNullifiers
    && (forall n :: n in a.usedNullifiers ==> IdentifierOf(b, n) == IdentifierOf(a, n))
  }

  lemma MintSpendsNullifier(w: World, value: nat, call: SetSBTCall, s: State)
    requires Invariant(w, s) && MintBlocked(w, value, call, s).None?
    ensures var s' := Minted(w, value, call, s);
            NullifiersSpentOnce(w, s'.usedNullifiers, s'.nullifiersToIdentifiers, s'.mints)
  {
    var s' := Minted(w, value, call, s);
    forall n ensures Consumed(s'.mints, n) <==> Consumed(s.mints, n) || n == call.nullifier {
      if n == call.nullifier { assert s'.mints[|s.mints|].nullifier == n; }
      if Consumed(s.mints, n) {
        var i :| 0 <= i < |s.mints| && s.mints[i].nullifier == n;
        assert s'.mints[i].nullifier == n;
      }
    }
  }

  lemma MintCountsToken(w: World, value: nat, call: SetSBTCall, s: State)
    requires Invariant(w, s)
    ensures var s' := Minted(w, value, call, s);
            TokensCounted(s'.tokenIds, s'.tokenOwners, s'.balances, s'.mints)
  {
    OneMoreToken(s.balances, Receiver(call));
  }

  lemma OneMoreToken(balances: map<Address, nat>, who: Address)
    ensures MapTotal(balances[who := BalanceOf(balances, who) + 1], Self) == MapTotal(balances, Self) + 1
  {
    if who in balances {
      MapTotalUpdate<Address, nat>(balances, Self, who, balances[who] + 1);
    } else {
      MapTotalInsert<Address, nat>(balances, Self, who, 1);
    }
  }

  lemma MintKeepsInvariant(w: World, value: nat, call: SetSBTCall, s: State)
    requires Invariant(w, s) && MintBlocked(w, value, call, s).None?
    ensures Invariant(w, Minted(w, value, call, s)) && Extends(s, Minted(w, value, call, s))
  {
    MintSpendsNullifier(w, value, call, s);
    MintCountsToken(w, value, call, s);
    SeqTotalAppend(s.mints, Mint(Receiver(call), call.circuitId, call.nullifier, call.customFee), FeeOf);
  }

  lemma ExtendsTransitive(a: State, b: State, c: State)
    requires Extends(a, b) && Extends(b, c)
    ensures Extends(a, c)
  {
    assert a.mints <= c.mints;
  }

  /** Operations that run nobody else's code. */
  lemma SimpleKeepsInvariant(w: World, op: Op, s: State)
    requires Invariant(w, s) && !op.Set? && !op.Frame?
    ensures var s' := Settled(Apply(w, op, s), s); Invariant(w, s') && Extends(s, s')
  {
    SimpleLeavesBooks(w, op, s);
    SameBooks(w, s, Settled(Apply(w, op, s), s));
  }

  lemma SimpleLeavesBooks(w: World, op: Op, s: State)
    requires !op.Set? && !op.Frame?
    ensures var s' := Settled(Apply(w, op, s), s);
            && s'.usedNullifiers == s.usedNullifiers && s'.nullifiersToIdentifiers == s.nullifiersToIdentifiers
            && s'.tokenIds == s.tokenIds && s'.tokenOwners == s.tokenOwners && s'.balances == s.balances
            && s'.mints == s.mints && s'.ether + s'.collected - s'.forceFed == s.ether + s.collected - s.forceFed
  {
  }

  lemma SameBooks(w: World, s: State, s': State)
    requires Invariant(w, s) && s'.mints == s.mints
    requires s'.usedNullifiers == s.usedNullifiers && s'.nullifiersToIdentifiers == s.nullifiersToIdentifiers
    requires s'.tokenIds == s.tokenIds && s'.tokenOwners == s.tokenOwners && s'.balances == s.balances
    requires s'.ether + s'.collected - s'.forceFed == s.ether + s.collected - s.forceFed
    ensures Invariant(w, s') && Extends(s, s')
  {
  }

  /** A mint around code that itself is sound. */
  lemma MintAroundSoundCode(w: World, value: nat, call: SetSBTCall, reaction: Reaction, s: State)
    requires Invariant(w, s) && MintBlocked(w, value, call, s).None?
    requires var minted := Minted(w, value, call, s);
             && Invariant(w, Run(w, reaction.code, minted)) && Extends(minted, Run(w, reaction.code, minted))
             && AllSound(w, minted, RunPoints(w, reaction.code, minted))
    ensures var s' := Settled(SetSBT(w, value, call, reaction, s), s); Invariant(w, s') && Extends(s, s')
    ensures AllSound(w, s, RunPoints(w, reaction.code, Minted(w, value, call, s)))
  {
    var minted := Minted(w, value, call, s);
    MintKeepsInvariant(w, value, call, s);
    AllSoundFrom(w, s, minted, RunPoints(w, reaction.code, minted));
    ExtendsTransitive(s, minted, Run(w, reaction.code, minted));
  }

  ghost predicate AllSound(w: World, from: State, points: seq<State>) {
    forall point :: point in points ==> Invariant(w, point) && Extends(from, point)
  }

  lemma AllSoundFrom(w: World, a: State, b: State, points: seq<State>)
    requires Extends(a, b) && AllSound(w, b, points)
    ensures AllSound(w, a, points)
  {
    forall point | point in points ensures Extends(a, point) { ExtendsTransitive(a, b, point); }
  }

  lemma {:induction false} ApplyKeepsInvariant(w: World, op: Op, s: State)
    requires Invariant(w, s)
    ensures var s' := Settled(Apply(w, op, s), s); Invariant(w, s') && Extends(s, s')
    ensures AllSound(w, s, Points(w, op, s))
    decreases op, 0
  {
    match op
    case Set(value, call, reaction) =>
      if MintBlocked(w, value, call, s).None? {
        var minted := Minted(w, value, call, s);
        MintKeepsInvariant(w, value, call, s);
        RunKeepsInvariant(w, reaction.code, minted);
        MintAroundSoundCode(w, value, call, reaction, s);
      }
    case Frame(body, _) => RunKeepsInvariant(w, body, s);
    case _ => SimpleKeepsInvariant(w, op, s);
  }

  /** The invariant is kept, and nothing recorded is undone. */
  ghost predicate Preserved(w: World, before: State, after: State) {
    Invariant(w, before) ==> Invariant(w, after) && Extends(before, after)
  }

  lemma ApplyPreserves(w: World, op: Op, s: State)
    ensures Preserved(w, s, Settled(Apply(w, op, s), s))
  {
    if Invariant(w, s) { ApplyKeepsInvariant(w, op, s); }
  }

  lemma {:induction false} RunKeepsInvariant(w: World, ops: seq<Op>, s: State)
    requires Invariant(w, s)
    ensures Invariant(w, Run(w, ops, s)) && Extends(s, Run(w, ops, s))
    ensures AllSound(w, s, RunPoints(w, ops, s))
    decreases ops
  {
    if ops != [] {
      var next := Settled(Apply(w, ops[0], s), s);
      ApplyKeepsInvariant(w, ops[0], s);
      RunKeepsInvariant(w, ops[1..], next);
      AllSoundFrom(w, s, next, RunPoints(w, ops[1..], next));
      ExtendsTransitive(s, next, Run(w, ops, s));
    }
  }

  lemma ReachableInvariant(w: World, s: State)
    requires Reachable(w, s)
    ensures Invariant(w, s)
  {
    var owner, verifier, ops :| s in RunPoints(w, ops, Deployed(owner, verifier));
    RunKeepsInvariant(w, ops, Deployed(owner, verifier));
  }

  /** At every point, a nonzero nullifier is marked used exactly when one and only one mint so far consumed it. */
  lemma UsedExactlyOnce(w: World, s: State, nullifier: nat)
    requires Reachable(w, s) && nullifier != 0
    ensures nullifier in s.usedNullifiers <==>
              exists i :: 0 <= i < |s.mints| && s.mints[i].nullifier == nullifier
                && forall j :: 0 <= j < |s.mints| && s.mints[j].nullifier == nullifier ==> i == j
  {
    ReachableInvariant(w, s);
    if nullifier in s.usedNullifiers {
      var i :| 0 <= i < |s.mints| && s.mints[i].nullifier == nullifier;
      assert forall j :: 0 <= j < |s.mints| && s.mints[j].nullifier == nullifier ==> !(i < j) && !(j < i);
    }
  }

  /** While a receiver's code runs, its nullifier is already spent: no nested mint with it gets through. */
  lemma NoSecondUseInsideAMint(w: World, value: nat, call: SetSBTCall, s: State, code: seq<Op>, inside: State,
                               nestedValue: nat, nested: SetSBTCall, nestedReaction: Reaction)
    requires Reachable(w, s) && MintBlocked(w, value, call, s).None? && call.nullifier != 0
    requires inside in RunPoints(w, code, Minted(w, value, call, s)) && nested.nullifier == call.nullifier
    ensures SetSBT(w, nestedValue, nested, nestedReaction, inside).Reverted?
    ensures |inside.mints| > |s.mints| && inside.mints[|s.mints|].nullifier == call.nullifier
  {
    ReachableInvariant(w, s);
    MintKeepsInvariant(w, value, call, s);
    RunKeepsInvariant(w, code, Minted(w, value, call, s));
    assert Minted(w, value, call, s).mints[|s.mints|] == inside.mints[|s.mints|];
  }

  /**
   * The two ways of reading agree for ever: after a mint with a nonzero nullifier, at every point of whatever
   * happens next (mints again to the same pair, revocations, a new verifier or owner, callbacks), reading by that
   * nullifier and reading by the mint's receiver and circuit give the same answer at every time.
   */
  lemma ReadingByNullifierAgrees(w: World, s: State, i: nat, later: seq<Op>, point: State, now: nat)
    requires Reachable(w, s) && i < |s.mints| && s.mints[i].nullifier != 0 && point in RunPoints(w, later, s)
    ensures var mint := s.mints[i];
            && s.mints <= point.mints
            && IdentifierOf(point, mint.nullifier) == IdentifierOf(s, mint.nullifier)
            && GetSBTByNullifier(point, mint.nullifier, now) == GetSBT(w, point, mint.receiver, mint.circuitId, now)
  {
    ReachableInvariant(w, s);
    RunKeepsInvariant(w, later, s);
    assert point.mints[i] == s.mints[i];
  }

  /** Token ids ever minted are 1..counter, each with one owner for good; balances add up to the counter. */
  lemma TokensAreForGood(w: World, s: State, later: seq<Op>, point: State, id: nat)
    requires Reachable(w, s) && point in RunPoints(w, later, s)
    ensures id in s.tokenOwners <==> 1 <= id <= s.tokenIds
    ensures MapTotal(s.balances, Self) == s.tokenIds == |s.mints|
    ensures id in s.tokenOwners ==>
              id in point.tokenOwners && point.tokenOwners[id] == s.tokenOwners[id] == s.mints[id - 1].receiver
  {
    ReachableInvariant(w, s);
    RunKeepsInvariant(w, later, s);
  }

  /** Ether held plus ether collected is the sum of the custom fees of successful mints (plus ether forced in). */
  lemma FeesAccountedFor(w: World, s: State)
    requires Reachable(w, s)
    ensures s.ether + s.collected == SeqTotal(s.mints, FeeOf) + s.forceFed
  {
    ReachableInvariant(w, s);
  }

  /** Nullifier zero is outside the guard: the same call can be made again, and the entry of zero is the latest. */
  lemma ZeroNullifierIsUnguarded(w: World, value: nat, call: SetSBTCall, s: State)
    requires call.nullifier == 0 && SetSBT(w, value, call, ACCEPTS, s).Done?
    ensures var s' := Minted(w, value, call, s);
            && SetSBT(w, value, call, ACCEPTS, s) == Done(s')
            && SetSBT(w, value, call, ACCEPTS, s').Done?
            && IdentifierOf(s', 0) == w.identifier(Receiver(call), call.circuitId)
  {
  }
}
