/** Where everything the Stellar contract stores comes from: calls the administrator of their moment had authorised. */
module StellarHistory {
  import opened Common
  import opened StellarModel
  import opened StellarExact

  /** An invocation that succeeded, and the state it met. */
  datatype Made = Made(env: Env, call: Call, met: State)

  function SuccessesIn(idOf: IdHash, invocations: seq<Invocation>, s: State): set<Made>
    decreases invocations
  {
    if invocations == [] then {}
    else
      var first := invocations[0];
      (if Succeeds(idOf, first, s) then {Made(first.env, first.call, s)} else {})
      + SuccessesIn(idOf, invocations[1..], After(idOf, first, s))
  }

  /** The call stored this token, revoked since or not, by the administrator who is named as its minter. */
  ghost predicate Minted(idOf: IdHash, m: Made, sbt: SBT) {
    && m.call.MintSbt? && Authorised(m.env, m.call.admin, m.met) && m.call.actionNullifier !in m.met.nullifiers
    && sbt == SBT(m.call.circuitId, idOf(m.call.recipient, m.call.circuitId), m.call.recipient, m.call.expiration,
                  m.call.actionNullifier, m.call.publicValues, sbt.revoked, m.call.admin)
  }

  ghost predicate RevokedBy(idOf: IdHash, m: Made, id: U256) {
    m.call.RevokeSbt? && Authorised(m.env, m.call.admin, m.met) && id == idOf(m.call.recipient, m.call.circuitId)
  }

  ghost predicate Named(m: Made, admin: Address) {
    && m.call.SetAdmin? && m.call.newAdmin == admin
    && Authorised(m.env, m.call.currentAdmin, m.met) && admin in m.env.authorised
  }

  ghost predicate TokenExplained(idOf: IdHash, made: set<Made>, id: U256, sbt: SBT) {
    && (exists m :: m in made && Minted(idOf, m, sbt))
    && (sbt.revoked ==> exists m :: m in made && RevokedBy(idOf, m, id))
  }

  ghost predicate AdminExplained(made: set<Made>, first: Address, admin: Option<Address>) {
    admin == Some(first) || (admin.Some? && exists m :: m in made && Named(m, admin.value))
  }

  ghost predicate Explained(idOf: IdHash, first: Address, made: set<Made>, s: State) {
    && (forall id :: id in s.sbts ==> TokenExplained(idOf, made, id, s.sbts[id]))
    && AdminExplained(made, first, s.admin)
  }

  lemma ExplainedByMore(idOf: IdHash, first: Address, made: set<Made>, more: set<Made>, s: State)
    requires Explained(idOf, first, made, s) && made <= more
    ensures Explained(idOf, first, more, s)
  {
    forall id | id in s.sbts ensures TokenExplained(idOf, more, id, s.sbts[id]) {
      assert TokenExplained(idOf, made, id, s.sbts[id]);
    }
  }

  lemma MintExplained(idOf: IdHash, first: Address, made: set<Made>, m: Made)
    requires Explained(idOf, first, made, m.met) && m in made && m.call.MintSbt? && Invoke(idOf, m.env, m.call, m.met).Ok?
    ensures Explained(idOf, first, made, Invoke(idOf, m.env, m.call, m.met).value)
  {
    MintExactly(idOf, m.env, m.call, m.met);
    var s, id := Invoke(idOf, m.env, m.call, m.met).value, idOf(m.call.recipient, m.call.circuitId);
    assert Minted(idOf, m, s.sbts[id]);
    forall other | other in s.sbts ensures TokenExplained(idOf, made, other, s.sbts[other]) {
      if other != id { assert TokenExplained(idOf, made, other, m.met.sbts[other]); }
    }
  }

  lemma RevocationExplained(idOf: IdHash, first: Address, made: set<Made>, m: Made)
    requires Explained(idOf, first, made, m.met) && m in made && m.call.RevokeSbt? && Invoke(idOf, m.env, m.call, m.met).Ok?
    ensures Explained(idOf, first, made, Invoke(idOf, m.env, m.call, m.met).value)
  {
    RevokeExactly(idOf, m.env, m.call, m.met);
    var s, id := Invoke(idOf, m.env, m.call, m.met).value, idOf(m.call.recipient, m.call.circuitId);
    assert RevokedBy(idOf, m, id);
    forall other | other in s.sbts ensures TokenExplained(idOf, made, other, s.sbts[other]) {
      assert TokenExplained(idOf, made, other, m.met.sbts[other]);
      if other == id {
        var minting :| minting in made && Minted(idOf, minting, m.met.sbts[id]);
        assert Minted(idOf, minting, s.sbts[id]);
      }
    }
  }

  lemma SuccessExplained(idOf: IdHash, first: Address, made: set<Made>, m: Made)
    requires Explained(idOf, first, made, m.met) && m in made && Invoke(idOf, m.env, m.call, m.met).Ok?
    ensures Explained(idOf, first, made, Invoke(idOf, m.env, m.call, m.met).value)
  {
    match m.call
    case MintSbt(_, _, _, _, _, _) => MintExplained(idOf, first, made, m);
    case RevokeSbt(_, _, _) => RevocationExplained(idOf, first, made, m);
    case SetAdmin(_, newAdmin) =>
      SetAdminExactly(idOf, m.env, m.call, m.met);
      assert Named(m, newAdmin);
  }

  lemma {:induction false} RunExplained(idOf: IdHash, first: Address, made: set<Made>, invocations: seq<Invocation>, s: State)
    requires Explained(idOf, first, made, s)
    ensures Explained(idOf, first, made + SuccessesIn(idOf, invocations, s), Run(idOf, invocations, s))
    decreases invocations
  {
    if invocations == [] {
      assert made + {} == made;
    } else {
      var step, next := invocations[0], After(idOf, invocations[0], s);
      var some := made + if Succeeds(idOf, step, s) then {Made(step.env, step.call, s)} else {};
      ExplainedByMore(idOf, first, made, some, s);
      if Succeeds(idOf, step, s) { SuccessExplained(idOf, first, some, Made(step.env, step.call, s)); }
      RunExplained(idOf, first, some, invocations[1..], next);
      assert made + SuccessesIn(idOf, invocations, s) == some + SuccessesIn(idOf, invocations[1..], next);
    }
  }

  /**
   * The main result.  After every run from construction: every stored token was minted, exactly as it stands, in a call
   * that the administrator of its moment authorised; every revoked one was revoked in such a call; and the administrator
   * is the first one or was named by one, authorising it himself.
   */
  lemma EverythingWasAuthorised(idOf: IdHash, first: Address, invocations: seq<Invocation>)
    ensures var made, s := SuccessesIn(idOf, invocations, Constructed(first)), Run(idOf, invocations, Constructed(first));
            && (forall id :: id in s.sbts ==> exists m :: m in made && Minted(idOf, m, s.sbts[id]))
            && (forall id :: id in s.sbts && s.sbts[id].revoked ==> exists m :: m in made && RevokedBy(idOf, m, id))
            && (s.admin == Some(first) || (s.admin.Some? && exists m :: m in made && Named(m, s.admin.value)))
  {
    var made, s := SuccessesIn(idOf, invocations, Constructed(first)), Run(idOf, invocations, Constructed(first));
    RunExplained(idOf, first, {}, invocations, Constructed(first));
    assert {} + made == made;
    forall id | id in s.sbts
      ensures exists m :: m in made && Minted(idOf, m, s.sbts[id])
      ensures s.sbts[id].revoked ==> exists m :: m in made && RevokedBy(idOf, m, id)
    {
      assert TokenExplained(idOf, made, id, s.sbts[id]);
    }
  }
}
