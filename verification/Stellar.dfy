/**
 * The Soroban contract that issues the same tokens: a two-way index between tokens and nullifiers,
 * and the storage lifetimes computed from a token's expiry.
 */
module StellarModel {
  import opened Common

  type Address = nat
  type U256 = nat

  const SECONDS_IN_DAY: nat := 86400
  const DAY_IN_LEDGERS: nat := 17280
  const U32_LIMIT: nat := 0x1_0000_0000

  datatype Error =
    | NotFound | NullifierAlreadyUsed | InvalidExpiration | AdminNotSet
    | Revoked | Expired | FailedToParseDaysUntilExpiry | InvalidAdmin

  datatype SBT = SBT(
    circuitId: U256, id: U256, recipient: Address, expiry: nat,
    actionNullifier: U256, publicValues: seq<U256>, revoked: bool, minter: Address)

  /** An invocation fails with an error of the contract, or traps (arithmetic overflow, missing authorisation). */
  datatype Result<+T> = Ok(value: T) | Err(error: Error) | Trap

  /** The ledger time of an invocation and the addresses that authorised it. */
  datatype Env = Env(now: nat, authorised: set<Address>)

  /** keccak256 of the circuit id and the recipient, as a number. */
  type IdHash = (Address, U256) -> U256

  datatype State = State(
    admin: Option<Address>,
    sbts: map<U256, SBT>,
    nullifiers: map<U256, U256>,
    mintCount: nat)  // history, not storage

  datatype Ttl = Ttl(threshold: nat, bump: nat)

  // ----- Lifetimes -----

  function CalcSbtTtlParams(now: nat, expiration: nat): Result<Ttl> {
    if expiration < now then Trap
    else
      var days := (expiration - now) / SECONDS_IN_DAY;
      if days >= U32_LIMIT then Err(FailedToParseDaysUntilExpiry)
      else if days * DAY_IN_LEDGERS >= U32_LIMIT then Trap
      else if days * DAY_IN_LEDGERS < DAY_IN_LEDGERS then Trap
      else Ok(Ttl(days * DAY_IN_LEDGERS - DAY_IN_LEDGERS, days * DAY_IN_LEDGERS))
  }

  // ----- Reading -----

  function GetSbtById(s: State, id: U256, now: nat): Result<SBT> {
    if id !in s.sbts then Err(NotFound)
    else if s.sbts[id].revoked then Err(Revoked)
    else if s.sbts[id].expiry < now then Err(Expired)
    else Ok(s.sbts[id])
  }

  function GetSbt(idOf: IdHash, s: State, recipient: Address, circuitId: U256, now: nat): Result<SBT> {
    GetSbtById(s, idOf(recipient, circuitId), now)
  }

  function GetSbtByNullifier(s: State, nullifier: U256, now: nat): Result<SBT> {
    if nullifier in s.nullifiers then GetSbtById(s, s.nullifiers[nullifier], now) else Err(NotFound)
  }

  // ----- Invocations -----

  datatype Call =
    | MintSbt(admin: Address, recipient: Address, circuitId: U256, expiration: nat,
              actionNullifier: U256, publicValues: seq<U256>)
    | RevokeSbt(admin: Address, recipient: Address, circuitId: U256)
    | SetAdmin(currentAdmin: Address, newAdmin: Address)

  /** The checks every administrative call starts with. */
  function AdminCheck(env: Env, s: State, admin: Address): Result<()> {
    if s.admin.None? then Err(AdminNotSet)
    else if s.admin.value != admin then Err(InvalidAdmin)
    else if admin !in env.authorised then Trap
    else Ok(())
  }

  function Token(idOf: IdHash, call: Call): SBT
    requires call.MintSbt?
  {
    SBT(call.circuitId, idOf(call.recipient, call.circuitId), call.recipient, call.expiration,
        call.actionNullifier, call.publicValues, false, call.admin)
  }

  /** Storing a token under its id, and its id under its nullifier. */
  function StoreSbt(s: State, sbt: SBT): State {
    s.(sbts := s.sbts[sbt.id := sbt], nullifiers := s.nullifiers[sbt.actionNullifier := sbt.id])
  }

  function MintOutcome(idOf: IdHash, env: Env, call: Call, s: State): Result<State>
    requires call.MintSbt?
  {
    match AdminCheck(env, s, call.admin)
    case Err(e) => Err(e)
    case Trap => Trap
    case Ok(_) =>
      if call.actionNullifier in s.nullifiers then Err(NullifierAlreadyUsed)
      else
        match CalcSbtTtlParams(env.now, call.expiration)
        case Err(e) => Err(e)
        case Trap => Trap
        case Ok(_) => Ok(StoreSbt(s, Token(idOf, call)).(mintCount := s.mintCount + 1))
  }

  function RevokeOutcome(idOf: IdHash, env: Env, call: Call, s: State): Result<State>
    requires call.RevokeSbt?
  {
    match AdminCheck(env, s, call.admin)
    case Err(e) => Err(e)
    case Trap => Trap
    case Ok(_) =>
      match GetSbt(idOf, s, call.recipient, call.circuitId, env.now)
      case Err(e) => Err(e)
      case Trap => Trap
      case Ok(sbt) =>
        match CalcSbtTtlParams(env.now, sbt.expiry)
        case Err(e) => Err(e)
        case Trap => Trap
        case Ok(_) =>
          var id := idOf(call.recipient, call.circuitId);
          Ok(s.(sbts := s.sbts[id := sbt.(revoked := true)],
                nullifiers := s.nullifiers[sbt.actionNullifier := id]))
  }

  function SetAdminOutcome(env: Env, call: Call, s: State): Result<State>
    requires call.SetAdmin?
  {
    match AdminCheck(env, s, call.currentAdmin)
    case Err(e) => Err(e)
    case Trap => Trap
    case Ok(_) =>
      if call.newAdmin !in env.authorised then Trap
      else Ok(s.(admin := Some(call.newAdmin)))
  }

  function Invoke(idOf: IdHash, env: Env, call: Call, s: State): Result<State> {
    match call
    case MintSbt(_, _, _, _, _, _) => MintOutcome(idOf, env, call, s)
    case RevokeSbt(_, _, _) => RevokeOutcome(idOf, env, call, s)
    case SetAdmin(_, _) => SetAdminOutcome(env, call, s)
  }

  datatype Invocation = Invocation(env: Env, call: Call)

  predicate Succeeds(idOf: IdHash, invocation: Invocation, s: State) {
    Invoke(idOf, invocation.env, invocation.call, s).Ok?
  }

  /** An invocation that fails, either way, changes nothing. */
  function After(idOf: IdHash, invocation: Invocation, s: State): State {
    if Succeeds(idOf, invocation, s) then Invoke(idOf, invocation.env, invocation.call, s).value else s
  }

  function Run(idOf: IdHash, invocations: seq<Invocation>, s: State): State
    decreases invocations
  {
    if invocations == [] then s else Run(idOf, invocations[1..], After(idOf, invocations[0], s))
  }

  function Constructed(admin: Address): State { State(Some(admin), map[], map[], 0) }

  ghost predicate Reachable(idOf: IdHash, s: State) {
    exists admin, invocations :: Run(idOf, invocations, Constructed(admin)) == s
  }
}

module StellarSafety {
  import opened Common
  import opened StellarModel

  // ----- The two-way index -----

  predicate FiledUnder(idOf: IdHash, s: State, id: U256)
    requires id in s.sbts
  {
    && s.sbts[id].id == id == idOf(s.sbts[id].recipient, s.sbts[id].circuitId)
    && s.sbts[id].actionNullifier in s.nullifiers
    && s.nullifiers[s.sbts[id].actionNullifier] == id
  }

  ghost predicate TwoWayIndex(idOf: IdHash, s: State) {
    && (forall id :: id in s.sbts ==> FiledUnder(idOf, s, id))
    && (forall n :: n in s.nullifiers ==> s.nullifiers[n] in s.sbts)
    && |s.nullifiers| == s.mintCount
  }

  /** No nullifier is dropped or made to point elsewhere, and no token disappears. */
  ghost predicate Extends(a: State, b: State) {
    && (forall n :: n in a.nullifiers ==> n in b.nullifiers && b.nullifiers[n] == a.nullifiers[n])
    && a.sbts.Keys <= b.sbts.Keys
    && a.mintCount <= b.mintCount
  }

  /** A revocation writes the nullifier entry back as it was: only the token's flag changes. */
  lemma RevokeOnlyMarks(idOf: IdHash, env: Env, call: Call, s: State)
    requires TwoWayIndex(idOf, s) && call.RevokeSbt? && Invoke(idOf, env, call, s).Ok?
    ensures var id := idOf(call.recipient, call.circuitId);
            id in s.sbts && s.admin == Some(call.admin)
            && Invoke(idOf, env, call, s) == Ok(s.(sbts := s.sbts[id := s.sbts[id].(revoked := true)]))
  {
    var r := Invoke(idOf, env, call, s).value;
    assert r.nullifiers == s.nullifiers;
  }

  /** What a mint that succeeds needed, and what it stores. */
  lemma MintOnlyStores(idOf: IdHash, env: Env, call: Call, s: State)
    requires call.MintSbt? && Invoke(idOf, env, call, s).Ok?
    ensures s.admin == Some(call.admin) && call.admin in env.authorised && call.actionNullifier !in s.nullifiers
    ensures Invoke(idOf, env, call, s) == Ok(StoreSbt(s, Token(idOf, call)).(mintCount := s.mintCount + 1))
    ensures CalcSbtTtlParams(env.now, call.expiration).Ok?
  {
  }

  /** Filing a token under a new nullifier, whatever was stored under its id. */
  lemma MintKeepsIndex(idOf: IdHash, s: State, sbt: SBT)
    requires TwoWayIndex(idOf, s) && sbt.id == idOf(sbt.recipient, sbt.circuitId) && sbt.actionNullifier !in s.nullifiers
    ensures var s' := StoreSbt(s, sbt).(mintCount := s.mintCount + 1); TwoWayIndex(idOf, s') && Extends(s, s')
  {
    var s' := StoreSbt(s, sbt);
    assert s'.nullifiers.Keys == s.nullifiers.Keys + {sbt.actionNullifier};
    forall id | id in s'.sbts ensures FiledUnder(idOf, s', id) {
      if id != sbt.id { assert FiledUnder(idOf, s, id); }
    }
    forall n | n in s'.nullifiers ensures s'.nullifiers[n] in s'.sbts {
      if n != sbt.actionNullifier { assert s.nullifiers[n] in s.sbts; }
    }
  }

  lemma RevokeKeepsIndex(idOf: IdHash, s: State, id: U256)
    requires TwoWayIndex(idOf, s) && id in s.sbts
    ensures var s' := s.(sbts := s.sbts[id := s.sbts[id].(revoked := true)]); TwoWayIndex(idOf, s') && Extends(s, s')
  {
  }

  lemma InvokeKeepsIndex(idOf: IdHash, env: Env, call: Call, s: State)
    requires TwoWayIndex(idOf, s)
    ensures var r := Invoke(idOf, env, call, s); r.Ok? ==> TwoWayIndex(idOf, r.value) && Extends(s, r.value)
  {
    var r := Invoke(idOf, env, call, s);
    if r.Ok? && call.MintSbt? {
      MintOnlyStores(idOf, env, call, s);
      MintKeepsIndex(idOf, s, Token(idOf, call));
    }
    if r.Ok? && call.RevokeSbt? {
      RevokeOnlyMarks(idOf, env, call, s);
      RevokeKeepsIndex(idOf, s, idOf(call.recipient, call.circuitId));
    }
  }

  lemma InvokeKeepsIndexIfAny(idOf: IdHash, env: Env, call: Call, s: State)
    ensures var r := Invoke(idOf, env, call, s);
            TwoWayIndex(idOf, s) && r.Ok? ==> TwoWayIndex(idOf, r.value) && Extends(s, r.value)
  {
    if TwoWayIndex(idOf, s) { InvokeKeepsIndex(idOf, env, call, s); }
  }

  lemma {:induction false} RunKeepsIndex(idOf: IdHash, invocations: seq<Invocation>, s: State)
    requires TwoWayIndex(idOf, s)
    ensures TwoWayIndex(idOf, Run(idOf, invocations, s)) && Extends(s, Run(idOf, invocations, s))
    decreases invocations
  {
    if invocations != [] {
      InvokeKeepsIndex(idOf, invocations[0].env, invocations[0].call, s);
      RunKeepsIndex(idOf, invocations[1..], After(idOf, invocations[0], s));
    }
  }

  /** Every reachable state is indexed both ways, with one nullifier for each successful mint. */
  lemma ReachableIndex(idOf: IdHash, s: State)
    requires Reachable(idOf, s)
    ensures forall id :: id in s.sbts ==>
              s.sbts[id].id == id && s.sbts[id].actionNullifier in s.nullifiers
              && s.nullifiers[s.sbts[id].actionNullifier] == id
    ensures forall n :: n in s.nullifiers ==> s.nullifiers[n] in s.sbts
    ensures |s.nullifiers| == s.mintCount
    ensures TwoWayIndex(idOf, s)
  {
    var admin, invocations :| Run(idOf, invocations, Constructed(admin)) == s;
    RunKeepsIndex(idOf, invocations, Constructed(admin));
  }

  /** Whatever happens later, a nullifier keeps its token id. */
  lemma NullifiersAreForGood(idOf: IdHash, s: State, later: seq<Invocation>, nullifier: U256)
    requires Reachable(idOf, s) && nullifier in s.nullifiers
    ensures var s' := Run(idOf, later, s);
            nullifier in s'.nullifiers && s'.nullifiers[nullifier] == s.nullifiers[nullifier]
            && s'.nullifiers[nullifier] in s'.sbts
  {
    ReachableIndex(idOf, s);
    RunKeepsIndex(idOf, later, s);
  }

  // ----- Lifetimes -----

  /** The calculation succeeds exactly for expiries from one day to 248551 whole days ahead. */
  lemma TtlExactly(now: nat, expiration: nat)
    ensures CalcSbtTtlParams(now, expiration).Ok? <==>
              now <= expiration && 1 <= (expiration - now) / 86400 <= 248551
    ensures CalcSbtTtlParams(now, expiration).Ok? ==>
              var ttl := CalcSbtTtlParams(now, expiration).value;
              && ttl.threshold + 17280 == ttl.bump < 0x1_0000_0000
              && 5 * ttl.bump <= expiration - now < 5 * ttl.bump + 86400
  {
  }

  // ----- How long a token can be read -----

  /** Along the run from s no mint under this id succeeds; attempts that fail do not matter. */
  predicate NoMintUnder(idOf: IdHash, run: seq<Invocation>, s: State, id: U256)
    decreases run
  {
    run == [] ||
    (!(Succeeds(idOf, run[0], s) && run[0].call.MintSbt? && idOf(run[0].call.recipient, run[0].call.circuitId) == id)
     && NoMintUnder(idOf, run[1..], After(idOf, run[0], s), id))
  }

  /** Nor does a revocation. */
  predicate NoRevocationUnder(idOf: IdHash, run: seq<Invocation>, s: State, id: U256)
    decreases run
  {
    run == [] ||
    (!(Succeeds(idOf, run[0], s) && run[0].call.RevokeSbt? && idOf(run[0].call.recipient, run[0].call.circuitId) == id)
     && NoRevocationUnder(idOf, run[1..], After(idOf, run[0], s), id))
  }

  /** A stored token stays as it is through a run that does not mint or, unless it is revoked already, revoke under its id. */
  lemma {:induction false} TokenStays(idOf: IdHash, run: seq<Invocation>, s: State, id: U256)
    requires id in s.sbts && NoMintUnder(idOf, run, s, id)
    requires s.sbts[id].revoked || NoRevocationUnder(idOf, run, s, id)
    ensures id in Run(idOf, run, s).sbts && Run(idOf, run, s).sbts[id] == s.sbts[id]
    decreases run
  {
    if run != [] {
      TokenStays(idOf, run[1..], After(idOf, run[0], s), id);
    }
  }

  /**
   * A successful mint can be read, by recipient and circuit and by nullifier, at exactly the times up to its expiry,
   * which lies at least a day ahead, through any run in which no mint and no revocation under the same id succeeds.
   */
  lemma MintIsReadableUntilExpiry(idOf: IdHash, env: Env, call: Call, s: State, later: seq<Invocation>, now: nat)
    requires Reachable(idOf, s) && call.MintSbt? && Invoke(idOf, env, call, s).Ok?
    requires var minted, id := Invoke(idOf, env, call, s).value, idOf(call.recipient, call.circuitId);
             NoMintUnder(idOf, later, minted, id) && NoRevocationUnder(idOf, later, minted, id)
    ensures env.now + 86400 <= call.expiration
    ensures var s' := Run(idOf, later, Invoke(idOf, env, call, s).value);
            && (GetSbt(idOf, s', call.recipient, call.circuitId, now) ==
                  if now <= call.expiration then Ok(Token(idOf, call)) else Err(Expired))
            && GetSbtByNullifier(s', call.actionNullifier, now) == GetSbt(idOf, s', call.recipient, call.circuitId, now)
  {
    TtlExactly(env.now, call.expiration);
    var minted := Invoke(idOf, env, call, s).value;
    ReachableIndex(idOf, s);
    InvokeKeepsIndex(idOf, env, call, s);
    RunKeepsIndex(idOf, later, minted);
    TokenStays(idOf, later, minted, idOf(call.recipient, call.circuitId));
  }

  /**
   * A revocation that succeeds happens at least a day before expiry, and hides the token, by recipient and circuit
   * and by its nullifier, at all times, through any run in which no mint under the same id succeeds.
   */
  lemma RevocationHides(idOf: IdHash, env: Env, call: Call, s: State, later: seq<Invocation>, now: nat)
    requires Reachable(idOf, s) && call.RevokeSbt? && Invoke(idOf, env, call, s).Ok?
    requires NoMintUnder(idOf, later, Invoke(idOf, env, call, s).value, idOf(call.recipient, call.circuitId))
    ensures var id := idOf(call.recipient, call.circuitId);
            var s' := Run(idOf, later, Invoke(idOf, env, call, s).value);
            && id in s.sbts && env.now + 86400 <= s.sbts[id].expiry
            && GetSbt(idOf, s', call.recipient, call.circuitId, now) == Err(Revoked)
            && GetSbtByNullifier(s', s.sbts[id].actionNullifier, now) == Err(Revoked)
  {
    var id, revoked := idOf(call.recipient, call.circuitId), Invoke(idOf, env, call, s).value;
    TtlExactly(env.now, s.sbts[id].expiry);
    ReachableIndex(idOf, s);
    InvokeKeepsIndex(idOf, env, call, s);
    RunKeepsIndex(idOf, later, revoked);
    TokenStays(idOf, later, revoked, id);
  }
}

/** The contract with its storage updated in place; the host rolls back an invocation that fails. */
module StellarContract {
  import opened Common
  import opened StellarModel
  import opened StellarSafety
  import opened StellarExact

  class SBTContract {
    const idOf: IdHash
    var admin: Option<Address>
    var sbts: map<U256, SBT>
    var nullifiers: map<U256, U256>
    ghost var mintCount: nat

    ghost function Current(): State
      reads this
    {
      State(admin, sbts, nullifiers, mintCount)
    }

    constructor (idOf: IdHash, admin: Address)
      ensures this.idOf == idOf && Current() == Constructed(admin)
      ensures TwoWayIndex(idOf, Current())
    {
      this.idOf, this.admin, sbts, nullifiers, mintCount := idOf, Some(admin), map[], map[], 0;
    }

    /** The index is kept, and nothing recorded is undone. */
    twostate predicate Sound()
      reads this
    {
      old(TwoWayIndex(idOf, Current())) ==> TwoWayIndex(idOf, Current()) && Extends(old(Current()), Current())
    }

    ghost predicate Settles<T>(outcome: Result<State>, before: State, result: Result<T>)
      reads this
    {
      match outcome
      case Ok(s) => result.Ok? && Current() == s
      case Err(e) => result == Err(e) && Current() == before
      case Trap => result == Trap && Current() == before
    }

    method RequireAdmin(env: Env, claimed: Address) returns (r: Result<()>)
      ensures r == AdminCheck(env, Current(), claimed)
      ensures r.Ok? <==> admin == Some(claimed) && claimed in env.authorised
      ensures r.Trap? <==> admin == Some(claimed) && claimed !in env.authorised
    {
      if admin.None? { return Err(AdminNotSet); }
      if admin.value != claimed { return Err(InvalidAdmin); }
      if claimed !in env.authorised { return Trap; }
      return Ok(());
    }

    method MintSbt(env: Env, claimed: Address, recipient: Address, circuitId: U256, expiration: nat,
                   actionNullifier: U256, publicValues: seq<U256>) returns (r: Result<U256>)
      modifies this
      ensures Settles(
                Invoke(idOf, env, Call.MintSbt(claimed, recipient, circuitId, expiration, actionNullifier, publicValues),
                       old(Current())),
                old(Current()), r)
      ensures r.Ok? ==> r.value == idOf(recipient, circuitId)
      ensures r.Ok? <==>
                && Authorised(env, claimed, old(Current())) && actionNullifier !in old(nullifiers)
                && Ahead(env.now, expiration)
      ensures Sound()
    {
      MintExactly(
        idOf, env, Call.MintSbt(claimed, recipient, circuitId, expiration, actionNullifier, publicValues), Current());
      InvokeKeepsIndexIfAny(
        idOf, env, Call.MintSbt(claimed, recipient, circuitId, expiration, actionNullifier, publicValues), Current());
      var permitted := RequireAdmin(env, claimed);
      if permitted.Err? { return Err(permitted.error); }
      if permitted.Trap? { return Trap; }
      if actionNullifier in nullifiers { return Err(NullifierAlreadyUsed); }

      var id := idOf(recipient, circuitId);
      var sbt := SBT(circuitId, id, recipient, expiration, actionNullifier, publicValues, false, claimed);
      var sbts0, nullifiers0 := sbts, nullifiers;
      sbts := sbts[id := sbt];
      nullifiers := nullifiers[actionNullifier := id];

      var ttl := CalcSbtTtlParams(env.now, expiration);
      if !ttl.Ok? {
        sbts, nullifiers := sbts0, nullifiers0;
        return if ttl.Trap? then Trap else Err(ttl.error);
      }
      mintCount := mintCount + 1;
      return Ok(id);
    }

    method RevokeSbt(env: Env, claimed: Address, recipient: Address, circuitId: U256) returns (r: Result<()>)
      modifies this
      ensures Settles(Invoke(idOf, env, Call.RevokeSbt(claimed, recipient, circuitId), old(Current())), old(Current()), r)
      ensures r.Ok? <==>
                && Authorised(env, claimed, old(Current())) && idOf(recipient, circuitId) in old(sbts)
                && !old(sbts)[idOf(recipient, circuitId)].revoked
                && Ahead(env.now, old(sbts)[idOf(recipient, circuitId)].expiry)
      ensures Sound()
    {
      RevokeExactly(idOf, env, Call.RevokeSbt(claimed, recipient, circuitId), Current());
      InvokeKeepsIndexIfAny(idOf, env, Call.RevokeSbt(claimed, recipient, circuitId), Current());
      var permitted := RequireAdmin(env, claimed);
      if permitted.Err? { return Err(permitted.error); }
      if permitted.Trap? { return Trap; }

      var id := idOf(recipient, circuitId);
      var found := Find(id, env.now);
      if !found.Ok? { return if found.Trap? then Trap else Err(found.error); }
      var sbt := found.value.(revoked := true);
      var sbts0, nullifiers0 := sbts, nullifiers;
      sbts := sbts[id := sbt];
      nullifiers := nullifiers[sbt.actionNullifier := id];

      var ttl := CalcSbtTtlParams(env.now, sbt.expiry);
      if !ttl.Ok? {
        sbts, nullifiers := sbts0, nullifiers0;
        return if ttl.Trap? then Trap else Err(ttl.error);
      }
      return Ok(());
    }

    method Find(id: U256, now: nat) returns (r: Result<SBT>)
      ensures r == GetSbtById(Current(), id, now)
    {
      if id !in sbts { return Err(NotFound); }
      if sbts[id].revoked { return Err(Revoked); }
      if sbts[id].expiry < now { return Err(Expired); }
      return Ok(sbts[id]);
    }

    method FindByNullifier(nullifier: U256, now: nat) returns (r: Result<SBT>)
      ensures r == GetSbtByNullifier(Current(), nullifier, now)
    {
      if nullifier !in nullifiers { return Err(NotFound); }
      r := Find(nullifiers[nullifier], now);
    }

    method SetAdmin(env: Env, currentAdmin: Address, newAdmin: Address) returns (r: Result<()>)
      modifies this
      ensures Settles(Invoke(idOf, env, Call.SetAdmin(currentAdmin, newAdmin), old(Current())), old(Current()), r)
      ensures r.Ok? <==> Authorised(env, currentAdmin, old(Current())) && newAdmin in env.authorised
      ensures Sound()
    {
      InvokeKeepsIndexIfAny(idOf, env, Call.SetAdmin(currentAdmin, newAdmin), Current());
      var permitted := RequireAdmin(env, currentAdmin);
      if permitted.Err? { return Err(permitted.error); }
      if permitted.Trap? { return Trap; }
      if newAdmin !in env.authorised { return Trap; }
      admin := Some(newAdmin);
      return Ok(());
    }

    method Perform(env: Env, call: Call)
      modifies this
      ensures Current() == After(idOf, Invocation(env, call), old(Current()))
    {
      match call {
        case MintSbt(claimed, recipient, circuitId, expiration, actionNullifier, publicValues) =>
          var r := MintSbt(env, claimed, recipient, circuitId, expiration, actionNullifier, publicValues);
        case RevokeSbt(claimed, recipient, circuitId) =>
          var r := RevokeSbt(env, claimed, recipient, circuitId);
        case SetAdmin(currentAdmin, newAdmin) =>
          var r := SetAdmin(env, currentAdmin, newAdmin);
      }
    }

    /** Any life of the contract, driven on the object, keeps the index and forgets nothing. */
    method Live(invocations: seq<Invocation>)
      requires TwoWayIndex(idOf, Current())
      modifies this
      ensures Current() == Run(idOf, invocations, old(Current()))
      ensures TwoWayIndex(idOf, Current()) && Extends(old(Current()), Current())
    {
      var i := 0;
      assert invocations[0..] == invocations;
      while i < |invocations|
        invariant 0 <= i <= |invocations|
        invariant Run(idOf, invocations[i..], Current()) == Run(idOf, invocations, old(Current()))
      {
        assert invocations[i..][1..] == invocations[i + 1..];
        Perform(invocations[i].env, invocations[i].call);
        i := i + 1;
      }
      RunKeepsIndex(idOf, invocations, old(Current()));
    }
  }
}
