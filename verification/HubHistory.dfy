/** Where every token of Hub comes from: a call the verifier of its moment had signed. */
module HubHistory {
  import opened HubModel
  import opened HubExact

  /** A call of setSBT or revokeSBT, and the state it met. */
  datatype Made = Made(value: nat, op: Op, met: State)

  /** The calls an operation makes, nested ones included. */
  function CallsMade(w: World, op: Op, s: State): set<Made>
    decreases op, 0
  {
    match op
    case Set(value, call, reaction) =>
      {Made(value, op, s)} +
      if MintBlocked(w, value, call, s).None? then AllCallsMade(w, reaction.code, Minted(w, value, call, s)) else {}
    case Frame(body, _) => AllCallsMade(w, body, s)
    case _ => {Made(0, op, s)}
  }

  function AllCallsMade(w: World, ops: seq<Op>, s: State): set<Made>
    decreases ops
  {
    if ops == [] then {}
    else CallsMade(w, ops[0], s) + AllCallsMade(w, ops[1..], Settled(Apply(w, ops[0], s), s))
  }

  /** The call minted, with its fee paid, the verifier's signature, and a nullifier that was zero or unused. */
  ghost predicate Minting(w: World, m: Made, call: SetSBTCall) {
    && m.op.Set? && m.op.call == call && m.value == m.op.value == call.customFee
    && SignedByVerifier(w, call, m.met)
    && (call.nullifier == 0 || call.nullifier !in m.met.usedNullifiers)
  }

  /** The call made this mint. */
  ghost predicate MadeMint(w: World, m: Made, mint: Mint) {
    m.op.Set? && Minting(w, m, m.op.call)
    && mint == Mint(To(m.op.call), m.op.call.circuitId, m.op.call.nullifier, m.op.call.customFee)
  }

  /** The call filed this token, revoked since or not, under this identifier. */
  ghost predicate MadeToken(w: World, m: Made, identifier: Bytes32, sbt: SBT) {
    m.op.Set? && Minting(w, m, m.op.call)
    && identifier == w.identifier(To(m.op.call), m.op.call.circuitId)
    && sbt.expiry == m.op.call.expiration && sbt.publicValues == m.op.call.publicValues
  }

  /** The owner of that moment revoked the token under this identifier. */
  ghost predicate MadeRevocation(w: World, m: Made, identifier: Bytes32) {
    m.op.Revoke? && m.op.sender == m.met.owner && identifier == w.identifier(m.op.sbtOwner, m.op.circuitId)
  }

  ghost predicate MintExplained(w: World, made: set<Made>, mint: Mint) {
    exists m :: m in made && MadeMint(w, m, mint)
  }

  /** A token was minted, or is the empty one, which only a revocation of nothing leaves. */
  ghost predicate TokenExplained(w: World, made: set<Made>, identifier: Bytes32, sbt: SBT) {
    && (sbt == SBT(0, [], true) || exists m :: m in made && MadeToken(w, m, identifier, sbt))
    && (sbt.revoked ==> exists m :: m in made && MadeRevocation(w, m, identifier))
  }

  ghost predicate Explained(w: World, made: set<Made>, s: State) {
    && (forall i :: 0 <= i < |s.mints| ==> MintExplained(w, made, s.mints[i]))
    && (forall id :: id in s.sbtOwners ==> TokenExplained(w, made, id, s.sbtOwners[id]))
  }

  lemma ExplainedByMore(w: World, made: set<Made>, more: set<Made>, s: State)
    requires Explained(w, made, s) && made <= more
    ensures Explained(w, more, s)
  {
    forall i | 0 <= i < |s.mints| ensures MintExplained(w, more, s.mints[i]) {
      assert MintExplained(w, made, s.mints[i]);
    }
    forall id | id in s.sbtOwners ensures TokenExplained(w, more, id, s.sbtOwners[id]) {
      assert TokenExplained(w, made, id, s.sbtOwners[id]);
    }
  }

  lemma MintedExplained(w: World, made: set<Made>, value: nat, call: SetSBTCall, reaction: Reaction, s: State)
    requires Explained(w, made, s) && MintBlocked(w, value, call, s).None?
    requires Made(value, Set(value, call, reaction), s) in made
    ensures Explained(w, made, Minted(w, value, call, s))
  {
    var m, s' := Made(value, Set(value, call, reaction), s), Minted(w, value, call, s);
    SetSBTExactly(w, value, call, ACCEPTS, s);
    assert SetSBT(w, value, call, ACCEPTS, s).Done?;
    var id := w.identifier(To(call), call.circuitId);
    forall i | 0 <= i < |s'.mints| ensures MintExplained(w, made, s'.mints[i]) {
      if i < |s.mints| {
        assert MintExplained(w, made, s.mints[i]);
      } else {
        assert MadeMint(w, m, s'.mints[i]);
      }
    }
    forall other | other in s'.sbtOwners ensures TokenExplained(w, made, other, s'.sbtOwners[other]) {
      if other == id {
        assert MadeToken(w, m, id, s'.sbtOwners[id]);
      } else {
        assert TokenExplained(w, made, other, s.sbtOwners[other]);
      }
    }
  }

  lemma RevokedExplained(w: World, made: set<Made>, sender: Address, sbtOwner: Address, circuitId: Bytes32, s: State)
    requires Explained(w, made, s) && Made(0, Revoke(sender, sbtOwner, circuitId), s) in made
    ensures Explained(w, made, Settled(Apply(w, Revoke(sender, sbtOwner, circuitId), s), s))
  {
    var m, id := Made(0, Revoke(sender, sbtOwner, circuitId), s), w.identifier(sbtOwner, circuitId);
    RevokeExactly(w, sender, sbtOwner, circuitId, s);
    var s' := Settled(Apply(w, Revoke(sender, sbtOwner, circuitId), s), s);
    if sender == s.owner {
      forall other | other in s'.sbtOwners ensures TokenExplained(w, made, other, s'.sbtOwners[other]) {
        if other in s.sbtOwners { assert TokenExplained(w, made, other, s.sbtOwners[other]); }
        if other == id {
          assert MadeRevocation(w, m, id);
          StillThatToken(w, made, s, id, s'.sbtOwners[id]);
        }
      }
    }
  }

  lemma StillThatToken(w: World, made: set<Made>, s: State, id: Bytes32, revoked: SBT)
    requires Explained(w, made, s)
    requires revoked == if id in s.sbtOwners then s.sbtOwners[id].(revoked := true) else SBT(0, [], true)
    ensures revoked == SBT(0, [], true) || exists m :: m in made && MadeToken(w, m, id, revoked)
  {
    if id in s.sbtOwners {
      assert TokenExplained(w, made, id, s.sbtOwners[id]);
      if s.sbtOwners[id] != SBT(0, [], true) {
        var m :| m in made && MadeToken(w, m, id, s.sbtOwners[id]);
        assert MadeToken(w, m, id, revoked);
      }
    }
  }

  ghost predicate AllExplained(w: World, made: set<Made>, points: seq<State>) {
    forall point :: point in points ==> Explained(w, made, point)
  }

  lemma AllExplainedByMore(w: World, made: set<Made>, more: set<Made>, points: seq<State>)
    requires AllExplained(w, made, points) && made <= more
    ensures AllExplained(w, more, points)
  {
    forall point | point in points ensures Explained(w, more, point) { ExplainedByMore(w, made, more, point); }
  }

  lemma {:induction false} ApplyExplained(w: World, made: set<Made>, op: Op, s: State)
    requires Explained(w, made, s)
    ensures var all := made + CallsMade(w, op, s);
            Explained(w, all, Settled(Apply(w, op, s), s)) && AllExplained(w, all, Points(w, op, s))
    decreases op, 0
  {
    var all := made + CallsMade(w, op, s);
    ExplainedByMore(w, made, all, s);
    match op
    case Set(value, call, reaction) =>
      var some := made + {Made(value, op, s)};
      if MintBlocked(w, value, call, s).None? {
        ExplainedByMore(w, made, some, s);
        MintedExplained(w, some, value, call, reaction, s);
        RunExplained(w, some, reaction.code, Minted(w, value, call, s));
        assert all == some + AllCallsMade(w, reaction.code, Minted(w, value, call, s));
      }
    case Frame(body, _) => RunExplained(w, made, body, s);
    case Revoke(sender, sbtOwner, circuitId) => RevokedExplained(w, all, sender, sbtOwner, circuitId, s);
    case _ =>
  }

  lemma {:induction false} RunExplained(w: World, made: set<Made>, ops: seq<Op>, s: State)
    requires Explained(w, made, s)
    ensures var all := made + AllCallsMade(w, ops, s);
            Explained(w, all, Run(w, ops, s)) && AllExplained(w, all, RunPoints(w, ops, s))
    decreases ops
  {
    var all := made + AllCallsMade(w, ops, s);
    ExplainedByMore(w, made, all, s);
    if ops != [] {
      var next, some := Settled(Apply(w, ops[0], s), s), made + CallsMade(w, ops[0], s);
      ApplyExplained(w, made, ops[0], s);
      RunExplained(w, some, ops[1..], next);
      assert all == some + AllCallsMade(w, ops[1..], next);
      AllExplainedByMore(w, some, all, Points(w, ops[0], s));
    }
  }

  /**
   * The main result.  At every point of every run from deployment, receivers' callbacks included: every mint in the
   * history was signed by the verifier of its moment, every token that can be read after time zero carries the expiry
   * and public values of such a mint to its owner and circuit, and every revoked token was revoked by the owner of
   * that moment.
   */
  lemma EveryTokenWasSigned(w: World, owner: Address, verifier: Address, ops: seq<Op>, point: State)
    requires point in RunPoints(w, ops, Deployed(owner, verifier))
    ensures var made := AllCallsMade(w, ops, Deployed(owner, verifier));
            && (forall i :: 0 <= i < |point.mints| ==> exists m :: m in made && MadeMint(w, m, point.mints[i]))
            && (forall id :: id in point.sbtOwners && !point.sbtOwners[id].revoked ==>
                  exists m :: m in made && MadeToken(w, m, id, point.sbtOwners[id]))
            && (forall id :: id in point.sbtOwners && point.sbtOwners[id].revoked ==>
                  exists m :: m in made && MadeRevocation(w, m, id))
  {
    var s := Deployed(owner, verifier);
    var made := AllCallsMade(w, ops, s);
    RunExplained(w, {}, ops, s);
    assert {} + made == made;
    forall i | 0 <= i < |point.mints| ensures exists m :: m in made && MadeMint(w, m, point.mints[i]) {
      assert MintExplained(w, made, point.mints[i]);
    }
    forall id | id in point.sbtOwners
      ensures if point.sbtOwners[id].revoked then exists m :: m in made && MadeRevocation(w, m, id)
              else exists m :: m in made && MadeToken(w, m, id, point.sbtOwners[id])
    {
      assert TokenExplained(w, made, id, point.sbtOwners[id]);
    }
  }

  /** So what a reader finds after time zero was signed, for that owner and circuit. */
  lemma WhatIsReadWasSigned(w: World, owner: Address, verifier: Address, ops: seq<Op>, point: State,
                            holder: Address, circuitId: Bytes32, now: nat)
    requires point in RunPoints(w, ops, Deployed(owner, verifier)) && now > 0
    requires GetSBT(w, point, holder, circuitId, now).Found?
    ensures exists m :: m in AllCallsMade(w, ops, Deployed(owner, verifier))
              && MadeToken(w, m, w.identifier(holder, circuitId), GetSBT(w, point, holder, circuitId, now).sbt)
  {
    EveryTokenWasSigned(w, owner, verifier, ops, point);
    ReadingExactly(w, point, holder, circuitId, 0, now);
  }
}
