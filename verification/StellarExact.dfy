/**
 * Every invocation of the Stellar contract, exactly: when it succeeds, what it leaves, and how it fails,
 * spelled out in the terms of a caller.
 */
module StellarExact {
  import opened Common
  import opened StellarModel

  /** The named administrator is the stored one and authorised the call. */
  predicate Authorised(env: Env, admin: Address, s: State) {
    s.admin == Some(admin) && admin in env.authorised
  }

  /** The expiry lies from one day to 248551 whole days ahead. */
  predicate Ahead(now: nat, expiry: nat) {
    now <= expiry && 1 <= (expiry - now) / 86400 <= 248551
  }

  /** How a call with no administrator stored, with the wrong one, or without authorisation fails. */
  predicate AdminFailure<T>(env: Env, admin: Address, s: State, r: Result<T>) {
    if s.admin.None? then r == Err(AdminNotSet)
    else if s.admin != Some(admin) then r == Err(InvalidAdmin)
    else r == Trap
  }

  /** How a call fails whose expiry is no good: the days do not fit 32 bits, or something overflows. */
  predicate ExpiryFailure<T>(now: nat, expiry: nat, r: Result<T>) {
    if now <= expiry && (expiry - now) / 86400 >= 0x1_0000_0000 then r == Err(FailedToParseDaysUntilExpiry) else r == Trap
  }

  /** mint_sbt, in full. */
  lemma MintExactly(idOf: IdHash, env: Env, call: Call, s: State)
    requires call.MintSbt?
    ensures var r, id := Invoke(idOf, env, call, s), idOf(call.recipient, call.circuitId);
            && (r.Ok? <==>
                  && Authorised(env, call.admin, s) && call.actionNullifier !in s.nullifiers
                  && Ahead(env.now, call.expiration))
            && (r.Ok? ==>
                  r.value == State(
                    s.admin,
                    s.sbts[id := SBT(call.circuitId, id, call.recipient, call.expiration, call.actionNullifier,
                                     call.publicValues, false, call.admin)],
                    s.nullifiers[call.actionNullifier := id],
                    s.mintCount + 1))
            && (!Authorised(env, call.admin, s) ==> AdminFailure(env, call.admin, s, r))
            && (Authorised(env, call.admin, s) ==>
                  if call.actionNullifier in s.nullifiers then r == Err(NullifierAlreadyUsed)
                  else !Ahead(env.now, call.expiration) ==> ExpiryFailure(env.now, call.expiration, r))
  {
  }

  /** revoke_sbt, in full. */
  lemma RevokeExactly(idOf: IdHash, env: Env, call: Call, s: State)
    requires call.RevokeSbt?
    ensures var r, id := Invoke(idOf, env, call, s), idOf(call.recipient, call.circuitId);
            && (r.Ok? <==>
                  && Authorised(env, call.admin, s) && id in s.sbts && !s.sbts[id].revoked
                  && Ahead(env.now, s.sbts[id].expiry))
            && (r.Ok? ==>
                  r.value == State(
                    s.admin,
                    s.sbts[id := s.sbts[id].(revoked := true)],
                    s.nullifiers[s.sbts[id].actionNullifier := id],
                    s.mintCount))
            && (!Authorised(env, call.admin, s) ==> AdminFailure(env, call.admin, s, r))
            && (Authorised(env, call.admin, s) ==>
                  if id !in s.sbts then r == Err(NotFound)
                  else if s.sbts[id].revoked then r == Err(Revoked)
                  else if s.sbts[id].expiry < env.now then r == Err(Expired)
                  else !Ahead(env.now, s.sbts[id].expiry) ==> ExpiryFailure(env.now, s.sbts[id].expiry, r))
  {
  }

  /** set_admin, in full: both the old and the new administrator have to authorise it. */
  lemma SetAdminExactly(idOf: IdHash, env: Env, call: Call, s: State)
    requires call.SetAdmin?
    ensures var r := Invoke(idOf, env, call, s);
            && (r.Ok? <==> Authorised(env, call.currentAdmin, s) && call.newAdmin in env.authorised)
            && (r.Ok? ==> r.value == State(Some(call.newAdmin), s.sbts, s.nullifiers, s.mintCount))
            && (!Authorised(env, call.currentAdmin, s) ==> AdminFailure(env, call.currentAdmin, s, r))
            && (Authorised(env, call.currentAdmin, s) && call.newAdmin !in env.authorised ==> r == Trap)
  {
  }

  /** What a reader gets of the token with an id, and why not. */
  predicate ReadsAs(s: State, id: U256, now: nat, r: Result<SBT>) {
    if id !in s.sbts then r == Err(NotFound)
    else if s.sbts[id].revoked then r == Err(Revoked)
    else if s.sbts[id].expiry < now then r == Err(Expired)
    else r == Ok(s.sbts[id])
  }

  lemma ReadingExactly(idOf: IdHash, s: State, recipient: Address, circuitId: U256, nullifier: U256, now: nat)
    ensures ReadsAs(s, idOf(recipient, circuitId), now, GetSbt(idOf, s, recipient, circuitId, now))
    ensures nullifier in s.nullifiers ==> ReadsAs(s, s.nullifiers[nullifier], now, GetSbtByNullifier(s, nullifier, now))
    ensures nullifier !in s.nullifiers ==> GetSbtByNullifier(s, nullifier, now) == Err(NotFound)
  {
  }

  /** An invocation that does not succeed leaves no trace in the run. */
  lemma FailuresLeaveNoTrace(idOf: IdHash, invocation: Invocation, rest: seq<Invocation>, s: State)
    ensures var r := Invoke(idOf, invocation.env, invocation.call, s);
            Run(idOf, [invocation] + rest, s) == Run(idOf, rest, if r.Ok? then r.value else s)
  {
    assert ([invocation] + rest)[1..] == rest;
  }
}
