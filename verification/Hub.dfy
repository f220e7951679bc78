/** The Hub contract itself, its storage updated in place. */
module HubContract {
  import opened Common
  import opened HubModel
  import opened HubSafety
  import opened HubExact

  /** What a revert puts back: the contract's storage and its ether. */
  datatype Storage = Storage(
    owner: Address,
    verifier: Address,
    usedNullifiers: set<nat>,
    sbtOwners: map<Bytes32, SBT>,
    nullifiersToIdentifiers: map<nat, Bytes32>,
    tokenIds: nat,
    tokenOwners: map<nat, Address>,
    balances: map<Address, nat>,
    ether: nat)

  function StorageOf(s: State): Storage {
    Storage(s.owner, s.verifier, s.usedNullifiers, s.sbtOwners, s.nullifiersToIdentifiers,
            s.tokenIds, s.tokenOwners, s.balances, s.ether)
  }

  class Hub {
    const world: World
    var owner: Address
    var verifier: Address
    var usedNullifiers: set<nat>
    var sbtOwners: map<Bytes32, SBT>
    var nullifiersToIdentifiers: map<nat, Bytes32>
    var tokenIds: nat
    var tokenOwners: map<nat, Address>
    var balances: map<Address, nat>
    var ether: nat
    ghost var collected: nat
    ghost var forceFed: nat
    ghost var mints: seq<Mint>

    ghost function Current(): State
      reads this
    {
      State(owner, verifier, usedNullifiers, sbtOwners, nullifiersToIdentifiers, tokenIds, tokenOwners,
            balances, ether, collected, forceFed, mints)
    }

    constructor (world: World, owner: Address, verifier: Address)
      ensures this.world == world && Current() == Deployed(owner, verifier)
      ensures Invariant(world, Current())
    {
      this.world, this.owner, this.verifier := world, owner, verifier;
      usedNullifiers, sbtOwners, nullifiersToIdentifiers := {}, map[], map[];
      tokenIds, tokenOwners, balances := 0, map[], map[];
      ether, collected, forceFed, mints := 0, 0, 0, [];
    }

    function Snapshot(): (storage: Storage)
      reads this
      ensures storage == StorageOf(Current())
    {
      Storage(owner, verifier, usedNullifiers, sbtOwners, nullifiersToIdentifiers, tokenIds, tokenOwners, balances, ether)
    }

    method Restore(storage: Storage, ghost s: State)
      requires storage == StorageOf(s)
      modifies this
      ensures Current() == s
    {
      owner, verifier, usedNullifiers := storage.owner, storage.verifier, storage.usedNullifiers;
      sbtOwners, nullifiersToIdentifiers := storage.sbtOwners, storage.nullifiersToIdentifiers;
      tokenIds, tokenOwners, balances := storage.tokenIds, storage.tokenOwners, storage.balances;
      ether := storage.ether;
      collected, forceFed, mints := s.collected, s.forceFed, s.mints;
    }

    /** The outcome of an operation, and the object in the state that outcome says. */
    ghost predicate Settles(outcome: Outcome, before: State, failure: Option<Failure>)
      reads this
    {
      match outcome
      case Done(s) => Current() == s && failure == None
      case Reverted(f) => Current() == before && failure == Some(f)
    }

    method SetSBT(value: nat, call: SetSBTCall, reaction: Reaction) returns (failure: Option<Failure>)
      modifies this
      ensures Settles(HubModel.SetSBT(world, value, call, reaction, old(Current())), old(Current()), failure)
      ensures failure.None? <==>
                && value == call.customFee && SignedByVerifier(world, call, old(Current()))
                && (call.nullifier == 0 || call.nullifier !in old(usedNullifiers))
                && To(call) != 0 && reaction.refusal.None?
      ensures Preserved(world, old(Current()), Current())
      decreases reaction, 3
    {
      SetSBTExactly(world, value, call, reaction, Current());
      ApplyPreserves(world, Set(value, call, reaction), Current());
      if value != call.customFee { return Some(MISSING_FEE); }
      failure := CheckSignature(call);
      if failure.Some? { return; }
      var snapshot := Snapshot();
      ghost var before := Current();
      failure := SpendAndMint(value, call, reaction);
      if failure.Some? { Restore(snapshot, before); }
    }

    /** What a properly signed call goes on to do; on failure the caller reverts. */
    method SpendAndMint(value: nat, call: SetSBTCall, reaction: Reaction) returns (failure: Option<Failure>)
      modifies this
      ensures call.nullifier != 0 && call.nullifier in old(usedNullifiers) ==> failure == Some(ALREADY_PROVEN)
      ensures !(call.nullifier != 0 && call.nullifier in old(usedNullifiers)) && Receiver(call) == ZERO_ADDRESS ==>
                failure == Some(MINT_TO_ZERO)
      ensures !(call.nullifier != 0 && call.nullifier in old(usedNullifiers)) && Receiver(call) != ZERO_ADDRESS ==>
                && failure == reaction.refusal
                && Current() == Run(world, reaction.code, Minted(world, value, call, old(Current())))
      decreases reaction, 2
    {
      ether := ether + value;
      if call.nullifier != 0 {
        if call.nullifier in usedNullifiers { return Some(ALREADY_PROVEN); }
        usedNullifiers := usedNullifiers + {call.nullifier};
      }
      failure := RecordAndMint(call, reaction);
    }

    method CheckSignature(call: SetSBTCall) returns (failure: Option<Failure>)
      ensures var recovered := world.recover(Signed(world, call), call.signature);
              failure == match recovered
                         case Unrecoverable(reason) => Some(Error(reason))
                         case Signer(signer) => if signer == verifier then None else Some(NOT_SIGNED)
    {
      var recovered := world.recover(Signed(world, call), call.signature);
      if recovered.Unrecoverable? { return Some(Error(recovered.reason)); }
      return if recovered.address == verifier then None else Some(NOT_SIGNED);
    }

    /** The second half of setSBT: store the token under its identifier, then mint. */
    method RecordAndMint(call: SetSBTCall, reaction: Reaction) returns (failure: Option<Failure>)
      modifies this
      ensures Receiver(call) == ZERO_ADDRESS ==> failure == Some(MINT_TO_ZERO)
      ensures Receiver(call) != ZERO_ADDRESS ==>
                failure == reaction.refusal && Current() == Run(world, reaction.code, Recorded(world, call, old(Current())))
      decreases reaction, 1
    {
      var receiver := call.sbtReceiver % ADDRESS_LIMIT;
      var identifier := world.identifier(receiver, call.circuitId);
      sbtOwners := sbtOwners[identifier := SBT(call.expiration, call.publicValues, false)];
      nullifiersToIdentifiers := nullifiersToIdentifiers[call.nullifier := identifier];
      tokenIds := tokenIds + 1;
      failure := SafeMint(receiver, tokenIds, Mint(receiver, call.circuitId, call.nullifier, call.customFee), reaction);
    }

    /** ERC-721 minting, the receiver's code included; on failure the caller reverts. */
    method SafeMint(to: Address, tokenId: nat, mint: Mint, reaction: Reaction) returns (failure: Option<Failure>)
      modifies this
      ensures to == ZERO_ADDRESS ==> failure == Some(MINT_TO_ZERO)
      ensures to != ZERO_ADDRESS ==>
                var minted := old(Current()).(tokenOwners := old(tokenOwners)[tokenId := to],
                                              balances := old(balances)[to := BalanceOf(old(balances), to) + 1],
                                              mints := old(mints) + [mint]);
                failure == reaction.refusal && Current() == Run(world, reaction.code, minted)
      decreases reaction, 0
    {
      if to == ZERO_ADDRESS { return Some(MINT_TO_ZERO); }
      balances := balances[to := BalanceOf(balances, to) + 1];
      tokenOwners := tokenOwners[tokenId := to];
      mints := mints + [mint];
      PerformAll(reaction.code);
      failure := reaction.refusal;
    }

    method GetSBT(sbtOwner: Address, circuitId: Bytes32, now: nat) returns (sbt: Reading)
      ensures sbt == HubModel.GetSBT(world, Current(), sbtOwner, circuitId, now)
    {
      sbt := Get(world.identifier(sbtOwner, circuitId), now);
    }

    method GetSBTByNullifier(nullifier: nat, now: nat) returns (sbt: Reading)
      ensures sbt == HubModel.GetSBTByNullifier(Current(), nullifier, now)
    {
      var identifier := if nullifier in nullifiersToIdentifiers then nullifiersToIdentifiers[nullifier] else 0;
      sbt := Get(identifier, now);
    }

    method Get(identifier: Bytes32, now: nat) returns (sbt: Reading)
      ensures sbt == Readable(Current(), identifier, now)
    {
      var s := if identifier in sbtOwners then sbtOwners[identifier] else EMPTY_SBT;
      if !(s.expiry >= now) { return Unreadable(EXPIRED); }
      if s.revoked { return Unreadable(REVOKED); }
      return Found(s);
    }

    method RevokeSBT(sender: Address, sbtOwner: Address, circuitId: Bytes32) returns (failure: Option<Failure>)
      modifies this
      ensures Settles(Apply(world, Revoke(sender, sbtOwner, circuitId), old(Current())), old(Current()), failure)
      ensures failure.None? ==> forall now :: HubModel.GetSBT(world, Current(), sbtOwner, circuitId, now).Unreadable?
      ensures Preserved(world, old(Current()), Current())
    {
      ApplyPreserves(world, Revoke(sender, sbtOwner, circuitId), Current());
      if sender != owner { return Some(NOT_OWNER); }
      var identifier := world.identifier(sbtOwner, circuitId);
      var s := if identifier in sbtOwners then sbtOwners[identifier] else EMPTY_SBT;
      sbtOwners := sbtOwners[identifier := s.(revoked := true)];
      return None;
    }

    method ChangeVerifier(sender: Address, newVerifier: Address) returns (failure: Option<Failure>)
      modifies this
      ensures Settles(Apply(world, Op.ChangeVerifier(sender, newVerifier), old(Current())), old(Current()), failure)
      ensures Preserved(world, old(Current()), Current())
    {
      ApplyPreserves(world, Op.ChangeVerifier(sender, newVerifier), Current());
      if sender != owner { return Some(NOT_OWNER); }
      verifier := newVerifier;
      return None;
    }

    method CollectFees(sender: Address, accepted: bool) returns (failure: Option<Failure>)
      modifies this
      ensures Settles(Apply(world, Op.CollectFees(sender, accepted), old(Current())), old(Current()), failure)
      ensures ether + collected == old(ether + collected)
      ensures Preserved(world, old(Current()), Current())
    {
      ApplyPreserves(world, Op.CollectFees(sender, accepted), Current());
      if sender != owner { return Some(NOT_OWNER); }
      if !accepted { return Some(LowLevel([])); }
      collected, ether := collected + ether, 0;
      return None;
    }

    /** One operation of the tree, as the chain carries it out on this contract. */
    method Perform(op: Op) returns (failure: Option<Failure>)
      modifies this
      ensures Settles(Apply(world, op, old(Current())), old(Current()), failure)
      decreases op, 4
    {
      match op {
        case Set(value, call, reaction) => failure := SetSBT(value, call, reaction);
        case Revoke(sender, sbtOwner, circuitId) => failure := RevokeSBT(sender, sbtOwner, circuitId);
        case ChangeVerifier(sender, newVerifier) => failure := ChangeVerifier(sender, newVerifier);
        case CollectFees(sender, accepted) => failure := CollectFees(sender, accepted);
        case TransferOwnership(sender, newOwner) =>
          if sender != owner { return Some(NOT_OWNER); }
          if newOwner == ZERO_ADDRESS { return Some(Error("Ownable: new owner is the zero address")); }
          owner := newOwner;
          return None;
        case RenounceOwnership(sender) =>
          if sender != owner { return Some(NOT_OWNER); }
          owner := ZERO_ADDRESS;
          return None;
        case TransferToken(_, _) => return Some(NO_TRANSFERS);
        case Frame(body, commits) =>
          var snapshot := Snapshot();
          ghost var before := Current();
          PerformAll(body);
          if commits { return None; }
          Restore(snapshot, before);
          return Some(LowLevel([]));
        case ForceFeed(wei) =>
          ether, forceFed := ether + wei, forceFed + wei;
          return None;
      }
    }

    /** Operations in order: a receiver's code, a frame's body, or a whole life of the contract. */
    method PerformAll(ops: seq<Op>)
      modifies this
      ensures Current() == Run(world, ops, old(Current()))
      ensures Preserved(world, old(Current()), Current())
      decreases ops
    {
      if Invariant(world, Current()) { RunKeepsInvariant(world, ops, Current()); }
      var i := 0;
      assert ops[0..] == ops;
      while i < |ops|
        invariant 0 <= i <= |ops|
        invariant Run(world, ops[i..], Current()) == Run(world, ops, old(Current()))
      {
        assert ops[i..][1..] == ops[i + 1..];
        var _ := Perform(ops[i]);
        i := i + 1;
      }
    }
  }
}
