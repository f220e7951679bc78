/**
 * The Stellar contract is simulated by Hub: every successful run of the one can be replayed on the
 * other, step for step, and afterwards both give the same answers.
 */
module Simulation {
  import opened Common
  import S = StellarModel
  import SS = StellarSafety
  import H = HubModel

  /**
   * How the two chains correspond: who takes part, the (recipient, circuit) pairs that occur, addresses,
   * the two hashes, and the verifier's signatures on the EVM side.
   */
  datatype Bridge = Bridge(
    participants: set<S.Address>,
    pairs: set<(S.Address, S.U256)>,
    addressOf: S.Address -> H.Address,
    idOf: S.IdHash,
    world: H.World,
    verifier: H.Address,
    sign: H.Attestation -> H.Bytes)

  /** Distinct participants have distinct nonzero EVM addresses. */
  ghost predicate AddressesMatch(b: Bridge) {
    && (forall p, q :: p in b.participants && q in b.participants && b.addressOf(p) == b.addressOf(q) ==> p == q)
    && (forall p :: p in b.participants ==> 0 < b.addressOf(p) < H.ADDRESS_LIMIT)
  }

  /** A pair the two chains are used with. */
  predicate Used(b: Bridge, p: S.Address, c: S.U256) { p in b.participants && (p, c) in b.pairs }

  predicate IdsApart(b: Bridge, p: S.Address, c: S.U256, q: S.Address, d: S.U256) {
    b.idOf(p, c) == b.idOf(q, d) ==> p == q && c == d
  }

  predicate IdentifiersApart(b: Bridge, p: S.Address, c: S.U256, q: S.Address, d: S.U256) {
    Identifier(b, p, c) == Identifier(b, q, d) ==> p == q && c == d
  }

  /** On the pairs that are used neither hash collides, and the hub's does not give zero. */
  ghost predicate HashesDistinct(b: Bridge) {
    && (forall p, c, q, d :: Used(b, p, c) && Used(b, q, d) ==> IdsApart(b, p, c, q, d) && IdentifiersApart(b, p, c, q, d))
    && (forall p, c :: Used(b, p, c) ==> Identifier(b, p, c) != 0)
  }

  /** The verifier signs what it is asked to. */
  ghost predicate Cooperative(b: Bridge) {
    forall m :: b.world.recover(m, b.sign(m)) == H.Signer(b.verifier)
  }

  ghost predicate Honest(b: Bridge) {
    AddressesMatch(b) && HashesDistinct(b) && Cooperative(b)
  }

  predicate Involves(b: Bridge, call: S.Call) {
    match call
    case MintSbt(_, recipient, circuitId, _, _, _) => Used(b, recipient, circuitId)
    case RevokeSbt(_, recipient, circuitId) => Used(b, recipient, circuitId)
    case SetAdmin(_, newAdmin) => newAdmin in b.participants
  }

  function Identifier(b: Bridge, recipient: S.Address, circuitId: S.U256): H.Bytes32 {
    b.world.identifier(b.addressOf(recipient), circuitId)
  }

  function AsHubToken(sbt: S.SBT): H.SBT { H.SBT(sbt.expiry, sbt.publicValues, sbt.revoked) }

  // ----- The relation -----

  ghost predicate SameTokens(b: Bridge, sbts: map<S.U256, S.SBT>, sbtOwners: map<H.Bytes32, H.SBT>) {
    && 0 !in sbtOwners
    && forall p, c :: Used(b, p, c) ==> SameTokenAt(b, sbts, sbtOwners, p, c)
  }

  predicate SameTokenAt(b: Bridge, sbts: map<S.U256, S.SBT>, sbtOwners: map<H.Bytes32, H.SBT>, p: S.Address, c: S.U256) {
    var id, identifier := b.idOf(p, c), Identifier(b, p, c);
    && (id in sbts <==> identifier in sbtOwners)
    && (id in sbts ==> sbtOwners[identifier] == AsHubToken(sbts[id]))
  }

  /** An id and an identifier that belong to the same participant and circuit. */
  ghost predicate SamePair(b: Bridge, id: S.U256, identifier: H.Bytes32) {
    exists p, c :: Used(b, p, c) && id == b.idOf(p, c) && identifier == Identifier(b, p, c)
  }

  ghost predicate SameNullifiers(b: Bridge, nullifiers: map<S.U256, S.U256>, used: set<nat>, identifiers: map<nat, H.Bytes32>) {
    && nullifiers.Keys == identifiers.Keys
    && used == nullifiers.Keys - {0}
    && (forall n :: n in nullifiers ==> SamePair(b, nullifiers[n], identifiers[n]))
  }

  ghost predicate SameAuthority(b: Bridge, s: S.State, h: H.State) {
    && s.admin.Some? && s.admin.value in b.participants
    && h.owner == b.addressOf(s.admin.value) && h.verifier == b.verifier
  }

  ghost predicate Related(b: Bridge, s: S.State, h: H.State) {
    && SS.TwoWayIndex(b.idOf, s)
    && SameAuthority(b, s, h)
    && SameTokens(b, s.sbts, h.sbtOwners)
    && SameNullifiers(b, s.nullifiers, h.usedNullifiers, h.nullifiersToIdentifiers)
  }

  // ----- One step -----

  function MintOnHub(b: Bridge, call: S.Call): H.SetSBTCall
    requires call.MintSbt?
  {
    var unsigned := H.SetSBTCall(call.circuitId, b.addressOf(call.recipient), call.expiration, 0,
                                 call.actionNullifier, call.publicValues, []);
    unsigned.(signature := b.sign(H.Signed(b.world, unsigned)))
  }

  function Replay(b: Bridge, call: S.Call): H.Op {
    match call
    case MintSbt(_, _, _, _, _, _) => H.Set(0, MintOnHub(b, call), H.ACCEPTS)
    case RevokeSbt(admin, recipient, circuitId) =>
      H.Revoke(b.addressOf(admin), b.addressOf(recipient), circuitId)
    case SetAdmin(currentAdmin, newAdmin) =>
      H.TransferOwnership(b.addressOf(currentAdmin), b.addressOf(newAdmin))
  }

  /** Storing the same token under matching keys keeps the tokens the same. */
  lemma TokenStoredOnBoth(b: Bridge, sbts: map<S.U256, S.SBT>, sbtOwners: map<H.Bytes32, H.SBT>,
                          recipient: S.Address, circuitId: S.U256, sbt: S.SBT)
    requires AddressesMatch(b) && HashesDistinct(b) && SameTokens(b, sbts, sbtOwners) && Used(b, recipient, circuitId)
    ensures SameTokens(b, sbts[b.idOf(recipient, circuitId) := sbt],
                       sbtOwners[Identifier(b, recipient, circuitId) := AsHubToken(sbt)])
  {
    var sbts' := sbts[b.idOf(recipient, circuitId) := sbt];
    var sbtOwners' := sbtOwners[Identifier(b, recipient, circuitId) := AsHubToken(sbt)];
    forall p, c | Used(b, p, c) ensures SameTokenAt(b, sbts', sbtOwners', p, c) {
      assert SameTokenAt(b, sbts, sbtOwners, p, c);
      assert IdsApart(b, p, c, recipient, circuitId);
      assert IdentifiersApart(b, p, c, recipient, circuitId);
    }
  }

  lemma MintReplays(b: Bridge, call: S.Call, h: H.State)
    requires AddressesMatch(b) && Cooperative(b) && call.MintSbt? && Used(b, call.recipient, call.circuitId)
    requires h.verifier == b.verifier && call.actionNullifier !in h.usedNullifiers
    ensures H.Apply(b.world, Replay(b, call), h) == H.Done(H.Minted(b.world, 0, MintOnHub(b, call), h))
  {
    var onHub := MintOnHub(b, call);
    assert H.Signed(b.world, onHub) == H.Signed(b.world, onHub.(signature := []));
    assert H.Receiver(onHub) == b.addressOf(call.recipient);
  }

  lemma MintKeepsNullifiers(b: Bridge, call: S.Call, s: S.State, h: H.State)
    requires call.MintSbt? && Used(b, call.recipient, call.circuitId) && AddressesMatch(b)
    requires SameNullifiers(b, s.nullifiers, h.usedNullifiers, h.nullifiersToIdentifiers)
    ensures var s' := S.StoreSbt(s, S.Token(b.idOf, call));
            var h' := H.Minted(b.world, 0, MintOnHub(b, call), h);
            SameNullifiers(b, s'.nullifiers, h'.usedNullifiers, h'.nullifiersToIdentifiers)
  {
    assert H.Receiver(MintOnHub(b, call)) == b.addressOf(call.recipient);
    assert SamePair(b, b.idOf(call.recipient, call.circuitId), Identifier(b, call.recipient, call.circuitId));
  }

  lemma MintKeepsTokens(b: Bridge, call: S.Call, s: S.State, h: H.State)
    requires AddressesMatch(b) && HashesDistinct(b) && call.MintSbt? && Used(b, call.recipient, call.circuitId)
    requires SameTokens(b, s.sbts, h.sbtOwners)
    ensures var s' := S.StoreSbt(s, S.Token(b.idOf, call));
            var h' := H.Minted(b.world, 0, MintOnHub(b, call), h);
            SameTokens(b, s'.sbts, h'.sbtOwners)
  {
    assert H.Receiver(MintOnHub(b, call)) == b.addressOf(call.recipient);
    TokenStoredOnBoth(b, s.sbts, h.sbtOwners, call.recipient, call.circuitId, S.Token(b.idOf, call));
  }

  lemma MintSimulated(b: Bridge, call: S.Call, s: S.State, h: H.State)
    requires Honest(b) && call.MintSbt? && Used(b, call.recipient, call.circuitId) && call.actionNullifier !in s.nullifiers
    requires SameAuthority(b, s, h) && SameTokens(b, s.sbts, h.sbtOwners)
    requires SameNullifiers(b, s.nullifiers, h.usedNullifiers, h.nullifiersToIdentifiers)
    ensures var s' := S.StoreSbt(s, S.Token(b.idOf, call));
            var r := H.Apply(b.world, Replay(b, call), h);
            && r.Done? && SameAuthority(b, s', r.state) && SameTokens(b, s'.sbts, r.state.sbtOwners)
            && SameNullifiers(b, s'.nullifiers, r.state.usedNullifiers, r.state.nullifiersToIdentifiers)
  {
    MintReplays(b, call, h);
    MintKeepsTokens(b, call, s, h);
    MintKeepsNullifiers(b, call, s, h);
  }

  lemma RevokeSimulated(b: Bridge, call: S.Call, s: S.State, h: H.State)
    requires Honest(b) && call.RevokeSbt? && Used(b, call.recipient, call.circuitId)
    requires b.idOf(call.recipient, call.circuitId) in s.sbts && s.admin == Some(call.admin)
    requires SameAuthority(b, s, h) && SameTokens(b, s.sbts, h.sbtOwners)
    ensures var id := b.idOf(call.recipient, call.circuitId);
            var sbts' := s.sbts[id := s.sbts[id].(revoked := true)];
            var r := H.Apply(b.world, Replay(b, call), h);
            r.Done? && r.state == h.(sbtOwners := r.state.sbtOwners) && SameTokens(b, sbts', r.state.sbtOwners)
  {
    var id := b.idOf(call.recipient, call.circuitId);
    assert SameTokenAt(b, s.sbts, h.sbtOwners, call.recipient, call.circuitId);
    TokenStoredOnBoth(b, s.sbts, h.sbtOwners, call.recipient, call.circuitId, s.sbts[id].(revoked := true));
  }

  lemma SetAdminSimulated(b: Bridge, env: S.Env, call: S.Call, s: S.State, h: H.State)
    requires AddressesMatch(b) && Related(b, s, h) && call.SetAdmin? && call.newAdmin in b.participants
    requires S.Invoke(b.idOf, env, call, s).Ok?
    ensures var r := H.Apply(b.world, Replay(b, call), h);
            r.Done? && Related(b, S.Invoke(b.idOf, env, call, s).value, r.state)
  {
  }

  lemma MintRelated(b: Bridge, call: S.Call, s: S.State, h: H.State)
    requires Honest(b) && Related(b, s, h) && call.MintSbt? && Used(b, call.recipient, call.circuitId)
    requires call.actionNullifier !in s.nullifiers
    ensures var s' := S.StoreSbt(s, S.Token(b.idOf, call)).(mintCount := s.mintCount + 1);
            var r := H.Apply(b.world, Replay(b, call), h);
            r.Done? && Related(b, s', r.state)
  {
    SS.MintKeepsIndex(b.idOf, s, S.Token(b.idOf, call));
    MintSimulated(b, call, s, h);
  }

  lemma RevokeRelated(b: Bridge, env: S.Env, call: S.Call, s: S.State, h: H.State)
    requires Honest(b) && Related(b, s, h) && call.RevokeSbt? && Used(b, call.recipient, call.circuitId)
    requires S.Invoke(b.idOf, env, call, s).Ok?
    ensures var r := H.Apply(b.world, Replay(b, call), h);
            r.Done? && Related(b, S.Invoke(b.idOf, env, call, s).value, r.state)
  {
    SS.InvokeKeepsIndex(b.idOf, env, call, s);
    SS.RevokeOnlyMarks(b.idOf, env, call, s);
    RevokeSimulated(b, call, s, h);
  }

  lemma StepSimulated(b: Bridge, env: S.Env, call: S.Call, s: S.State, h: H.State)
    requires Honest(b) && Related(b, s, h) && Involves(b, call)
    requires S.Invoke(b.idOf, env, call, s).Ok?
    ensures var r := H.Apply(b.world, Replay(b, call), h);
            r.Done? && Related(b, S.Invoke(b.idOf, env, call, s).value, r.state)
  {
    match call
    case MintSbt(_, _, _, _, _, _) =>
      SS.MintOnlyStores(b.idOf, env, call, s);
      MintRelated(b, call, s, h);
    case RevokeSbt(_, _, _) => RevokeRelated(b, env, call, s, h);
    case SetAdmin(_, _) => SetAdminSimulated(b, env, call, s, h);
  }

  // ----- Whole runs -----

  /** The hub operations for the invocations that succeed, in order. */
  function Replayed(b: Bridge, invocations: seq<S.Invocation>, s: S.State): seq<H.Op>
    decreases invocations
  {
    if invocations == [] then []
    else
      var rest := Replayed(b, invocations[1..], S.After(b.idOf, invocations[0], s));
      if S.Succeeds(b.idOf, invocations[0], s) then [Replay(b, invocations[0].call)] + rest else rest
  }

  /** Every one of the operations goes through. */
  predicate AllDone(w: H.World, ops: seq<H.Op>, h: H.State)
    decreases ops
  {
    ops == [] || (H.Apply(w, ops[0], h).Done? && AllDone(w, ops[1..], H.Apply(w, ops[0], h).state))
  }

  /** Along the run from s, every invocation that succeeds is about participants and pairs of the bridge. */
  predicate AllInvolved(b: Bridge, invocations: seq<S.Invocation>, s: S.State)
    decreases invocations
  {
    invocations == [] ||
    ((S.Succeeds(b.idOf, invocations[0], s) ==> Involves(b, invocations[0].call))
     && AllInvolved(b, invocations[1..], S.After(b.idOf, invocations[0], s)))
  }

  lemma {:induction false} RunSimulated(b: Bridge, invocations: seq<S.Invocation>, s: S.State, h: H.State)
    requires Honest(b) && Related(b, s, h) && AllInvolved(b, invocations, s)
    ensures AllDone(b.world, Replayed(b, invocations, s), h)
    ensures Related(b, S.Run(b.idOf, invocations, s), H.Run(b.world, Replayed(b, invocations, s), h))
    decreases invocations
  {
    if invocations != [] {
      var call, next := invocations[0].call, S.After(b.idOf, invocations[0], s);
      if S.Succeeds(b.idOf, invocations[0], s) {
        StepSimulated(b, invocations[0].env, call, s, h);
        RunSimulated(b, invocations[1..], next, H.Apply(b.world, Replay(b, call), h).state);
        assert Replayed(b, invocations, s)[1..] == Replayed(b, invocations[1..], next);
      } else {
        RunSimulated(b, invocations[1..], s, h);
      }
    }
  }

  // ----- The same answers -----

  /** The token the Stellar contract answers with, in the hub's terms. */
  function OnStellar(r: S.Result<S.SBT>): Option<H.SBT> {
    if r.Ok? then Some(AsHubToken(r.value)) else None
  }

  function OnHub(r: H.Reading): Option<H.SBT> {
    if r.Found? then Some(r.sbt) else None
  }

  lemma TokensReadAlike(b: Bridge, s: S.State, h: H.State, recipient: S.Address, circuitId: S.U256, now: nat)
    requires SameTokens(b, s.sbts, h.sbtOwners) && Used(b, recipient, circuitId)
    ensures OnHub(H.Readable(h, Identifier(b, recipient, circuitId), now))
         == OnStellar(S.GetSbt(b.idOf, s, recipient, circuitId, now))
        <==> now > 0 || b.idOf(recipient, circuitId) in s.sbts
  {
    assert SameTokenAt(b, s.sbts, h.sbtOwners, recipient, circuitId);
  }

  lemma RelatedAnswerAlike(b: Bridge, s: S.State, h: H.State, recipient: S.Address, circuitId: S.U256, nullifier: nat, now: nat)
    requires Related(b, s, h) && Used(b, recipient, circuitId)
    ensures OnHub(H.GetSBT(b.world, h, b.addressOf(recipient), circuitId, now))
         == OnStellar(S.GetSbt(b.idOf, s, recipient, circuitId, now))
        <==> now > 0 || b.idOf(recipient, circuitId) in s.sbts
    ensures OnHub(H.GetSBTByNullifier(h, nullifier, now)) == OnStellar(S.GetSbtByNullifier(s, nullifier, now))
        <==> now > 0 || nullifier in s.nullifiers
  {
    TokensReadAlike(b, s, h, recipient, circuitId, now);
    if nullifier in s.nullifiers {
      assert SamePair(b, s.nullifiers[nullifier], h.nullifiersToIdentifiers[nullifier]);
      var p, c :| Used(b, p, c) && s.nullifiers[nullifier] == b.idOf(p, c)
        && h.nullifiersToIdentifiers[nullifier] == Identifier(b, p, c);
      TokensReadAlike(b, s, h, p, c, now);
    }
  }

  /**
   * The main result.  Any run of the Stellar contract from its construction is replayed on a hub deployed by the
   * matching owner; no replayed step fails; and the two then answer every query, by recipient and circuit and by
   * nullifier, alike at every time but zero.  At time zero the hub alone answers for tokens that do not exist.
   */
  lemma StellarRunsOnHub(b: Bridge, admin: S.Address, invocations: seq<S.Invocation>,
                         recipient: S.Address, circuitId: S.U256, nullifier: nat, now: nat)
    requires Honest(b) && admin in b.participants && Used(b, recipient, circuitId)
    requires AllInvolved(b, invocations, S.Constructed(admin))
    ensures var ops := Replayed(b, invocations, S.Constructed(admin));
            var s := S.Run(b.idOf, invocations, S.Constructed(admin));
            var h := H.Run(b.world, ops, H.Deployed(b.addressOf(admin), b.verifier));
            && AllDone(b.world, ops, H.Deployed(b.addressOf(admin), b.verifier))
            && (OnHub(H.GetSBT(b.world, h, b.addressOf(recipient), circuitId, now))
                == OnStellar(S.GetSbt(b.idOf, s, recipient, circuitId, now))
                <==> now > 0 || b.idOf(recipient, circuitId) in s.sbts)
            && (OnHub(H.GetSBTByNullifier(h, nullifier, now)) == OnStellar(S.GetSbtByNullifier(s, nullifier, now))
                <==> now > 0 || nullifier in s.nullifiers)
  {
    var s0, h0 := S.Constructed(admin), H.Deployed(b.addressOf(admin), b.verifier);
    RunSimulated(b, invocations, s0, h0);
    RelatedAnswerAlike(b, S.Run(b.idOf, invocations, s0), H.Run(b.world, Replayed(b, invocations, s0), h0),
                       recipient, circuitId, nullifier, now);
  }

  // ----- The assumptions can be met -----

  const WORD_LIMIT: nat := 0x1_0000000000000000_0000000000000000_0000000000000000_0000000000000000

  function SmallHash(p: nat, c: nat): nat { (p + 4 * c) % WORD_LIMIT }

  /** Two participants, three pairs, and hashes into 256 bits. */
  function SmallBridge(): Bridge {
    Bridge({1, 2}, {(1, 7), (2, 7), (1, 8)}, p => p, SmallHash,
           H.World(1, SmallHash, (m, signature) => H.Signer(9)), 9, m => [])
  }

  lemma BoundedHashesCanBeHonest()
    ensures Honest(SmallBridge())
    ensures forall p, c :: SmallBridge().idOf(p, c) < WORD_LIMIT && SmallBridge().world.identifier(p, c) < WORD_LIMIT
  {
    var b := SmallBridge();
    forall p: S.Address, c: S.U256 | Used(b, p, c) ensures b.idOf(p, c) == Identifier(b, p, c) == SmallHash(p, c) > 0 {
      SmallPair(p, c);
    }
    forall p: S.Address, c: S.U256, q: S.Address, d: S.U256 | Used(b, p, c) && Used(b, q, d)
      ensures IdsApart(b, p, c, q, d) && IdentifiersApart(b, p, c, q, d)
    {
      SmallPair(p, c);
      SmallPair(q, d);
    }
  }

  lemma SmallPair(p: S.Address, c: S.U256)
    requires Used(SmallBridge(), p, c)
    ensures 1 <= p <= 2 && 7 <= c <= 8 && SmallHash(p, c) == p + 4 * c
  {
  }
}
