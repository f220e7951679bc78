/**
 * Every operation of Hub, exactly: when it goes through, what it leaves, and which failure it gives,
 * spelled out in the terms of a caller.
 */
module HubExact {
  import opened HubModel

  // ----- Minting -----

  /** The verifier of the moment signed exactly these arguments, for this chain. */
  predicate SignedByVerifier(w: World, call: SetSBTCall, s: State) {
    w.recover(Attestation(call.circuitId, call.sbtReceiver, call.expiration, call.customFee, call.nullifier,
                          call.publicValues, w.chainId),
              call.signature) == Signer(s.verifier)
  }

  /** The receiver: the low 160 bits. */
  function To(call: SetSBTCall): Address {
    call.sbtReceiver % 0x1_00000000_00000000_00000000_00000000_00000000
  }

  /** The state in which the receiver's code starts. */
  predicate MintedState(w: World, value: nat, call: SetSBTCall, s: State, s': State) {
    var to, id := To(call), w.identifier(To(call), call.circuitId);
    && s'.usedNullifiers == (if call.nullifier == 0 then s.usedNullifiers else s.usedNullifiers + {call.nullifier})
    && s'.sbtOwners == s.sbtOwners[id := SBT(call.expiration, call.publicValues, false)]
    && s'.nullifiersToIdentifiers == s.nullifiersToIdentifiers[call.nullifier := id]
    && s'.tokenIds == s.tokenIds + 1 && s'.tokenOwners == s.tokenOwners[s.tokenIds + 1 := to]
    && s'.balances == s.balances[to := (if to in s.balances then s.balances[to] else 0) + 1]
    && s'.ether == s.ether + value && s'.collected == s.collected && s'.forceFed == s.forceFed
    && s'.mints == s.mints + [Mint(to, call.circuitId, call.nullifier, call.customFee)]
    && s'.owner == s.owner && s'.verifier == s.verifier
  }

  /**
   * A mint goes through exactly with the fee paid, the verifier's signature, a nullifier that is zero or unused,
   * a nonzero receiver, and a receiver that accepts.  It leaves what the receiver's code makes of the minted state.
   */
  lemma SetSBTExactly(w: World, value: nat, call: SetSBTCall, reaction: Reaction, s: State)
    ensures var r := SetSBT(w, value, call, reaction, s);
            && (r.Done? <==>
                  && value == call.customFee && SignedByVerifier(w, call, s)
                  && (call.nullifier == 0 || call.nullifier !in s.usedNullifiers)
                  && To(call) != 0 && reaction.refusal.None?)
            && (r.Done? ==>
                  && MintedState(w, value, call, s, Minted(w, value, call, s))
                  && r.state == Run(w, reaction.code, Minted(w, value, call, s)))
  {
  }

  /** Which failure a mint gives: that of the first check it fails, or the receiver's own. */
  lemma SetSBTFailures(w: World, value: nat, call: SetSBTCall, reaction: Reaction, s: State)
    ensures var r := SetSBT(w, value, call, reaction, s);
            var recovered := w.recover(Attestation(call.circuitId, call.sbtReceiver, call.expiration, call.customFee,
                                                   call.nullifier, call.publicValues, w.chainId), call.signature);
            if value != call.customFee then r == Reverted(Error("Missing Fee"))
            else if recovered.Unrecoverable? then r == Reverted(Error(recovered.reason))
            else if recovered.address != s.verifier
            then r == Reverted(Error("The Verifier did not sign the provided arguments in the provided order"))
            else if call.nullifier != 0 && call.nullifier in s.usedNullifiers
            then r == Reverted(Error("this is already been proven"))
            else if To(call) == 0 then r == Reverted(Error("ERC721: mint to the zero address"))
            else reaction.refusal.Some? ==> r == Reverted(reaction.refusal.value)
  {
  }

  // ----- The owner's operations -----

  const NotTheOwner := Reverted(Error("Ownable: caller is not the owner"))

  /** Only the owner revokes, and then exactly the token of (sbtOwner, circuitId), stored or not. */
  lemma RevokeExactly(w: World, sender: Address, sbtOwner: Address, circuitId: Bytes32, s: State)
    ensures var r, id := Apply(w, Revoke(sender, sbtOwner, circuitId), s), w.identifier(sbtOwner, circuitId);
            && (sender != s.owner ==> r == NotTheOwner)
            && (sender == s.owner ==>
                  && r.Done? && r.state == s.(sbtOwners := r.state.sbtOwners)
                  && r.state.sbtOwners.Keys == s.sbtOwners.Keys + {id}
                  && r.state.sbtOwners[id]
                     == (if id in s.sbtOwners then s.sbtOwners[id].(revoked := true) else SBT(0, [], true))
                  && (forall other :: other in s.sbtOwners && other != id ==> r.state.sbtOwners[other] == s.sbtOwners[other]))
  {
  }

  lemma OwnerOperationsExactly(w: World, sender: Address, other: Address, accepted: bool, s: State)
    ensures Apply(w, ChangeVerifier(sender, other), s) ==
              if sender == s.owner then Done(s.(verifier := other)) else NotTheOwner
    ensures Apply(w, CollectFees(sender, accepted), s) ==
              if sender != s.owner then NotTheOwner
              else if accepted then Done(s.(ether := 0, collected := s.collected + s.ether))
              else Reverted(LowLevel([]))
    ensures Apply(w, TransferOwnership(sender, other), s) ==
              if sender != s.owner then NotTheOwner
              else if other == 0 then Reverted(Error("Ownable: new owner is the zero address"))
              else Done(s.(owner := other))
    ensures Apply(w, RenounceOwnership(sender), s) == if sender == s.owner then Done(s.(owner := 0)) else NotTheOwner
  {
  }

  /** Tokens never change hands, and ether forced in changes nothing else. */
  lemma OthersExactly(w: World, tokenId: nat, to: Address, wei: nat, s: State)
    ensures Apply(w, TransferToken(tokenId, to), s) == Reverted(Error("Cannot transfer this type of token"))
    ensures Apply(w, ForceFeed(wei), s) == Done(s.(ether := s.ether + wei, forceFed := s.forceFed + wei))
  {
  }

  // ----- Reading -----

  /** What a reader gets of the token filed under an identifier, and why not. */
  predicate ReadsAs(s: State, identifier: Bytes32, now: nat, r: Reading) {
    if identifier in s.sbtOwners then
      var sbt := s.sbtOwners[identifier];
      && (sbt.expiry < now ==> r == Unreadable(Error("SBT is expired or does not exist")))
      && (sbt.expiry >= now && sbt.revoked ==> r == Unreadable(Error("SBT has been revoked")))
      && (sbt.expiry >= now && !sbt.revoked ==> r == Found(sbt))
    else
      r == if now > 0 then Unreadable(Error("SBT is expired or does not exist")) else Found(SBT(0, [], false))
  }

  /** A nullifier nobody used reads like identifier zero. */
  lemma ReadingExactly(w: World, s: State, owner: Address, circuitId: Bytes32, nullifier: nat, now: nat)
    ensures ReadsAs(s, w.identifier(owner, circuitId), now, GetSBT(w, s, owner, circuitId, now))
    ensures nullifier in s.nullifiersToIdentifiers ==>
              ReadsAs(s, s.nullifiersToIdentifiers[nullifier], now, GetSBTByNullifier(s, nullifier, now))
    ensures nullifier !in s.nullifiersToIdentifiers ==> ReadsAs(s, 0, now, GetSBTByNullifier(s, nullifier, now))
  {
  }

  // ----- What a failure leaves, and what is visited -----

  lemma FailuresLeaveNoTrace(w: World, op: Op, rest: seq<Op>, s: State)
    ensures Apply(w, op, s).Reverted? ==> Run(w, [op] + rest, s) == Run(w, rest, s)
    ensures Apply(w, op, s).Done? ==> Run(w, [op] + rest, s) == Run(w, rest, Apply(w, op, s).state)
    ensures Apply(w, Frame(rest, true), s) == Done(Run(w, rest, s)) && Apply(w, Frame(rest, false), s).Reverted?
  {
    assert ([op] + rest)[1..] == rest;
  }

  /** The points of a run are all there are: before, inside the receiver's code or a frame, and after. */
  lemma NothingGoesUnvisited(w: World, op: Op, rest: seq<Op>, s: State, point: State)
    ensures s in RunPoints(w, [op] + rest, s)
    ensures point in Points(w, op, s) || point in RunPoints(w, rest, Settled(Apply(w, op, s), s)) ==>
              point in RunPoints(w, [op] + rest, s)
    ensures Settled(Apply(w, op, s), s) in Points(w, op, s)
    ensures op.Frame? && point in RunPoints(w, op.body, s) ==> point in Points(w, op, s)
    ensures op.Set? && MintBlocked(w, op.value, op.call, s).None? ==>
              point in RunPoints(w, op.reaction.code, Minted(w, op.value, op.call, s)) ==> point in Points(w, op, s)
  {
    assert ([op] + rest)[1..] == rest;
  }
}
