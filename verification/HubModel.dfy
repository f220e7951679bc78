/**
 * The Hub contract as functions on values: identity tokens guarded by nullifiers,
 * minted on the verifier's signature.
 *
 * Minting hands control to the receiver in the middle of the call.  What the receiver does is a sequence of
 * further operations (calls back into the contract, and frames of other contracts), after which it accepts
 * or refuses the token; so an operation is a finite tree, and the theorems quantify over all such trees.
 */
module HubModel {
  import opened Common

  type Address = nat
  type Bytes32 = nat
  type Bytes = seq<bv8>

  const ZERO_ADDRESS: Address := 0
  const ADDRESS_LIMIT: nat := 0x1_00000000_00000000_00000000_00000000_00000000

  datatype SBT = SBT(expiry: nat, publicValues: seq<nat>, revoked: bool)

  const EMPTY_SBT: SBT := SBT(0, [], false)

  /** The arguments the verifier signs, chain id included. */
  datatype Attestation = Attestation(
    circuitId: Bytes32, sbtReceiver: nat, expiration: nat, customFee: nat,
    nullifier: nat, publicValues: seq<nat>, chainId: nat)

  /** The three ways a call can fail, as a caller's catch clauses tell them apart. */
  datatype Failure =
    | Error(reason: string)
    | Panic(code: nat)
    | LowLevel(data: Bytes)

  datatype Recovery = Signer(address: Address) | Unrecoverable(reason: string)

  /** What the contract sees of the chain: its id, the identifier hash and signature recovery. */
  datatype World = World(
    chainId: nat,
    identifier: (Address, Bytes32) -> Bytes32,
    recover: (Attestation, Bytes) -> Recovery)

  /** One successful mint, as history. */
  datatype Mint = Mint(receiver: Address, circuitId: Bytes32, nullifier: nat, fee: nat)

  datatype State = State(
    owner: Address,
    verifier: Address,
    usedNullifiers: set<nat>,
    sbtOwners: map<Bytes32, SBT>,
    nullifiersToIdentifiers: map<nat, Bytes32>,
    tokenIds: nat,
    tokenOwners: map<nat, Address>,
    balances: map<Address, nat>,
    ether: nat,
    collected: nat,
    forceFed: nat,
    mints: seq<Mint>)

  datatype SetSBTCall = SetSBTCall(
    circuitId: Bytes32, sbtReceiver: nat, expiration: nat, customFee: nat,
    nullifier: nat, publicValues: seq<nat>, signature: Bytes)

  /** What a receiver does in the ERC-721 callback: its code, then how it refuses the token, or None to accept. */
  datatype Reaction = Reaction(code: seq<Op>, refusal: Option<Failure>)

  const ACCEPTS := Reaction([], None)

  /** Everything that can happen to the contract. */
  datatype Op =
    | Set(value: nat, call: SetSBTCall, reaction: Reaction)
    | Revoke(sender: Address, sbtOwner: Address, circuitId: Bytes32)
    | ChangeVerifier(sender: Address, newVerifier: Address)
    | CollectFees(sender: Address, accepted: bool)
    | TransferOwnership(sender: Address, newOwner: Address)
    | RenounceOwnership(sender: Address)
    | TransferToken(tokenId: nat, to: Address)
    | Frame(body: seq<Op>, commits: bool)  // code of another contract
    | ForceFeed(wei: nat)                  // ether that arrives without running any code

  datatype Outcome = Done(state: State) | Reverted(failure: Failure)

  /** A reverted call leaves no trace. */
  function Settled(outcome: Outcome, before: State): State {
    match outcome
    case Done(s) => s
    case Reverted(_) => before
  }

  function Receiver(call: SetSBTCall): Address { call.sbtReceiver % ADDRESS_LIMIT }

  function BalanceOf(balances: map<Address, nat>, who: Address): nat {
    if who in balances then balances[who] else 0
  }

  const MISSING_FEE := Error("Missing Fee")
  const NOT_SIGNED := Error("The Verifier did not sign the provided arguments in the provided order")
  const ALREADY_PROVEN := Error("this is already been proven")
  const MINT_TO_ZERO := Error("ERC721: mint to the zero address")
  const NOT_OWNER := Error("Ownable: caller is not the owner")
  const EXPIRED := Error("SBT is expired or does not exist")
  const REVOKED := Error("SBT has been revoked")
  const NO_TRANSFERS := Error("Cannot transfer this type of token")

  function Signed(w: World, call: SetSBTCall): Attestation {
    Attestation(call.circuitId, call.sbtReceiver, call.expiration, call.customFee,
                call.nullifier, call.publicValues, w.chainId)
  }

  /** Storing the token under its identifier and minting it. */
  function Recorded(w: World, call: SetSBTCall, s: State): State {
    var receiver := Receiver(call);
    var identifier := w.identifier(receiver, call.circuitId);
    s.(sbtOwners := s.sbtOwners[identifier := SBT(call.expiration, call.publicValues, false)],
       nullifiersToIdentifiers := s.nullifiersToIdentifiers[call.nullifier := identifier],
       tokenIds := s.tokenIds + 1,
       tokenOwners := s.tokenOwners[s.tokenIds + 1 := receiver],
       balances := s.balances[receiver := BalanceOf(s.balances, receiver) + 1],
       mints := s.mints + [Mint(receiver, call.circuitId, call.nullifier, call.customFee)])
  }

  /** The state in which the receiver's callback runs: fee taken, nullifier spent, token minted. */
  function Minted(w: World, value: nat, call: SetSBTCall, s: State): State {
    Recorded(w, call,
      s.(usedNullifiers := if call.nullifier != 0 then s.usedNullifiers + {call.nullifier} else s.usedNullifiers,
         ether := s.ether + value))
  }

  /** The first check a call of setSBT fails, if any. */
  function MintBlocked(w: World, value: nat, call: SetSBTCall, s: State): Option<Failure> {
    if value != call.customFee then Some(MISSING_FEE)
    else
      match w.recover(Signed(w, call), call.signature)
      case Unrecoverable(reason) => Some(Error(reason))
      case Signer(signer) =>
        if signer != s.verifier then Some(NOT_SIGNED)
        else if call.nullifier != 0 && call.nullifier in s.usedNullifiers then Some(ALREADY_PROVEN)
        else if Receiver(call) == ZERO_ADDRESS then Some(MINT_TO_ZERO)
        else None
  }

  // ----- Reading -----

  function Stored(s: State, identifier: Bytes32): SBT {
    if identifier in s.sbtOwners then s.sbtOwners[identifier] else EMPTY_SBT
  }

  function IdentifierOf(s: State, nullifier: nat): Bytes32 {
    if nullifier in s.nullifiersToIdentifiers then s.nullifiersToIdentifiers[nullifier] else 0
  }

  datatype Reading = Found(sbt: SBT) | Unreadable(failure: Failure)

  function Readable(s: State, identifier: Bytes32, now: nat): Reading {
    var sbt := Stored(s, identifier);
    if sbt.expiry < now then Unreadable(EXPIRED)
    else if sbt.revoked then Unreadable(REVOKED)
    else Found(sbt)
  }

  function GetSBT(w: World, s: State, owner: Address, circuitId: Bytes32, now: nat): Reading {
    Readable(s, w.identifier(owner, circuitId), now)
  }

  function GetSBTByNullifier(s: State, nullifier: nat, now: nat): Reading {
    Readable(s, IdentifierOf(s, nullifier), now)
  }

  // ----- Operations -----

  function SetSBT(w: World, value: nat, call: SetSBTCall, reaction: Reaction, s: State): Outcome
    decreases reaction
  {
    match MintBlocked(w, value, call, s)
    case Some(failure) => Reverted(failure)
    case None =>
      var after := Run(w, reaction.code, Minted(w, value, call, s));
      match reaction.refusal
      case Some(failure) => Reverted(failure)
      case None => Done(after)
  }

  function Apply(w: World, op: Op, s: State): Outcome
    decreases op
  {
    match op
    case Set(value, call, reaction) => SetSBT(w, value, call, reaction, s)
    case Revoke(sender, sbtOwner, circuitId) =>
      var identifier := w.identifier(sbtOwner, circuitId);
      if sender != s.owner then Reverted(NOT_OWNER)
      else Done(s.(sbtOwners := s.sbtOwners[identifier := Stored(s, identifier).(revoked := true)]))
    case ChangeVerifier(sender, newVerifier) =>
      if sender != s.owner then Reverted(NOT_OWNER) else Done(s.(verifier := newVerifier))
    case CollectFees(sender, accepted) =>
      if sender != s.owner then Reverted(NOT_OWNER)
      else if !accepted then Reverted(LowLevel([]))
      else Done(s.(ether := 0, collected := s.collected + s.ether))
    case TransferOwnership(sender, newOwner) =>
      if sender != s.owner then Reverted(NOT_OWNER)
      else if newOwner == ZERO_ADDRESS then Reverted(Error("Ownable: new owner is the zero address"))
      else Done(s.(owner := newOwner))
    case RenounceOwnership(sender) =>
      if sender != s.owner then Reverted(NOT_OWNER) else Done(s.(owner := ZERO_ADDRESS))
    case TransferToken(_, _) => Reverted(NO_TRANSFERS)
    case Frame(body, commits) => if commits then Done(Run(w, body, s)) else Reverted(LowLevel([]))
    case ForceFeed(wei) => Done(s.(ether := s.ether + wei, forceFed := s.forceFed + wei))
  }

  /** Operations one after another, whether they go through or not. */
  function Run(w: World, ops: seq<Op>, s: State): State
    decreases ops
  {
    if ops == [] then s else Run(w, ops[1..], Settled(Apply(w, ops[0], s), s))
  }

  /** Every state the contract is in while an operation is carried out, inside calls that later revert too. */
  function Points(w: World, op: Op, s: State): seq<State>
    decreases op, 0
  {
    var inside :=
      match op
      case Set(value, call, reaction) =>
        if MintBlocked(w, value, call, s).Some? then [] else RunPoints(w, reaction.code, Minted(w, value, call, s))
      case Frame(body, _) => RunPoints(w, body, s)
      case _ => [];
    inside + [Settled(Apply(w, op, s), s)]
  }

  function RunPoints(w: World, ops: seq<Op>, s: State): seq<State>
    decreases ops
  {
    if ops == [] then [s]
    else [s] + Points(w, ops[0], s) + RunPoints(w, ops[1..], Settled(Apply(w, ops[0], s), s))
  }

  function Deployed(owner: Address, verifier: Address): State {
    State(owner, verifier, {}, map[], map[], 0, map[], map[], 0, 0, 0, [])
  }

  /** The states of all lives of the contract, in the middle of nested calls as well as between transactions. */
  ghost predicate Reachable(w: World, s: State) {
    exists owner, verifier, ops :: s in RunPoints(w, ops, Deployed(owner, verifier))
  }
}
