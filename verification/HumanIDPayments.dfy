/** The HumanIDPayments contract itself: storage updated in place, loops, and reverts that undo what was done. */
module HumanIDPaymentsContract {
  import opened Common
  import opened PaymentsModel
  import opened PaymentsSafety
  import opened PaymentsExact

  class HumanIDPayments {
    const chain: Chain
    var payments: map<Bytes32, Payment>
    var oracleAddress: Address
    var admins: set<Address>
    var balance: nat
    ghost var log: seq<Transfer>

    ghost function Current(): State
      reads this
    {
      State(payments, oracleAddress, admins, balance, log)
    }

    constructor (chain: Chain, oracle: Address, deployer: Address)
      ensures this.chain == chain && Current() == Deployed(oracle, deployer)
    {
      this.chain := chain;
      payments, oracleAddress, admins, balance, log := map[], oracle, {deployer}, 0, [];
    }

    /** Deployment, which reverts when the oracle is the zero address. */
    static method Deploy(chain: Chain, oracle: Address, deployer: Address) returns (c: HumanIDPayments?)
      ensures (c == null) <==> oracle == ZERO_ADDRESS
      ensures c != null ==> fresh(c) && c.chain == chain && c.Current() == Deployed(oracle, deployer)
      ensures c != null ==> Safe(c.Current())
    {
      if oracle == ZERO_ADDRESS { return null; }
      c := new HumanIDPayments(chain, oracle, deployer);
    }

    /** What a call that keeps control leaves behind: the new state, or the old one and the error. */
    ghost predicate Settles(entered: Entered, before: State, error: Option<Error>)
      reads this
    {
      match entered
      case Reverted(e) => Current() == before && error == Some(e)
      case Returned(s) => Current() == s && error == None
      case HandedOver(_) => false
    }

    /** What a call that pays a recipient leaves behind, once the recipient's code has run. */
    ghost predicate SettlesAfter(entered: Entered, before: State, now: nat, recipientCode: seq<Action>, accepts: bool,
                                 error: Option<Error>)
      reads this
    {
      match entered
      case Reverted(e) => Current() == before && error == Some(e)
      case Returned(_) => false
      case HandedOver(s) =>
        if accepts then Current() == ExecAll(chain, now, recipientCode, s).state && error == None
        else Current() == before && error == Some(TransferFailed)
    }

    // ----- Paying -----

    method ProcessPayment(now: nat, sender: Address, item: Item) returns (error: Option<Error>)
      modifies this`payments
      ensures error == Rejection(chain, now, oracleAddress, old(payments), item)
      ensures payments == if error.None? then old(payments)[item.commitment := Recorded(now, sender, item)]
                          else old(payments)
      ensures error.None? <==>
                && item.amount > 0 && Free(old(Current()), item.commitment)
                && item.timestamp <= now <= item.timestamp + 31536000
                && chain.recover(PaymentMessage(item.amount, item.commitment, item.service, chain.chainId, item.timestamp),
                                 item.signature) == Some(old(oracleAddress))
      ensures error.None? ==>
                payments == old(payments)[item.commitment :=
                  Payment(item.commitment, item.service, now, sender, item.amount, false)]
    {
      if item.amount == 0 { return Some(InvalidAmount); }
      if item.commitment in payments && payments[item.commitment].amount != 0 { return Some(PaymentAlreadyExists); }
      if item.timestamp > now { return Some(TimestampInFuture); }
      if now - item.timestamp > PAYMENT_WINDOW { return Some(SignatureTooOld); }
      var message := PaymentMessage(item.amount, item.commitment, item.service, chain.chainId, item.timestamp);
      var signer := chain.recover(message, item.signature);
      if signer.None? { return Some(UnrecoverableSignature); }
      if signer.value != oracleAddress { return Some(InvalidSignature); }
      payments := payments[item.commitment := Payment(item.commitment, item.service, now, sender, item.amount, false)];
      return None;
    }

    method Pay(now: nat, sender: Address, value: nat, commitment: Bytes32, service: Bytes32, timestamp: nat, signature: Bytes)
      returns (error: Option<Error>)
      modifies this
      ensures Settles(Enter(chain, now, sender, value, Entry.Pay(commitment, service, timestamp, signature), old(Current())),
                      old(Current()), error)
      ensures error.None? <==>
                && value > 0 && Free(old(Current()), commitment) && timestamp <= now <= timestamp + 31536000
                && chain.recover(PaymentMessage(value, commitment, service, chain.chainId, timestamp), signature)
                   == Some(old(oracleAddress))
    {
      PayExactly(chain, now, sender, value, commitment, service, timestamp, signature, Current());
      var item := Item(commitment, service, value, timestamp, signature);
      balance := balance + value;
      error := ProcessPayment(now, sender, item);
      if error.Some? { balance := balance - value; }
      assert [item][1..] == [];
      assert ProcessAll(chain, now, oracleAddress, sender, payments, []) == Stored(payments);
    }

    /** The first loop of batchPay, which panics when the sum does not fit. */
    method TotalAmount(amounts: seq<nat>) returns (total: Option<nat>)
      ensures total == if SeqTotal(amounts, Self) < UINT256_LIMIT then Some(SeqTotal(amounts, Self)) else None
    {
      var totalAmount := 0;
      var i := 0;
      while i < |amounts|
        invariant 0 <= i <= |amounts|
        invariant totalAmount == SeqTotal(amounts[..i], Self) < UINT256_LIMIT
      {
        TotalOfPrefix(amounts, i + 1);
        assert amounts[..i + 1] == amounts[..i] + [amounts[i]];
        SeqTotalAppend(amounts[..i], amounts[i], Self);
        totalAmount := totalAmount + amounts[i];
        if totalAmount >= UINT256_LIMIT { return None; }
        i := i + 1;
      }
      assert amounts[..i] == amounts;
      return Some(totalAmount);
    }

    method BatchPay(now: nat, sender: Address, value: nat, batch: Batch) returns (error: Option<Error>)
      modifies this
      ensures Settles(Enter(chain, now, sender, value, Entry.BatchPay(batch), old(Current())), old(Current()), error)
      ensures error.None? <==>
                && |batch.commitments| > 0 && SameLengths(batch)
                && value == SeqTotal(batch.amounts, Self) < UINT256_LIMIT
                && (forall i :: 0 <= i < |batch.commitments| ==> ItemAccepted(chain, now, old(Current()), batch, i))
                && (forall i, j :: 0 <= i < j < |batch.commitments| ==> batch.commitments[i] != batch.commitments[j])
    {
      BatchItemsExactly(chain, now, sender, value, batch, Current());
      var length := |batch.commitments|;
      if length == 0 { return Some(EmptyBatch); }
      if |batch.services| != length || |batch.amounts| != length ||
         |batch.timestamps| != length || |batch.signatures| != length {
        return Some(ArrayLengthMismatch);
      }

      var totalAmount := TotalAmount(batch.amounts);
      if totalAmount.None? { return Some(ArithmeticPanic); }
      if value != totalAmount.value { return Some(IncorrectTotalAmount); }

      var before := payments;
      ghost var items := batch.Items();
      balance := balance + value;
      var i := 0;
      assert items[0..] == items;
      while i < length
        invariant 0 <= i <= length
        invariant oracleAddress == old(oracleAddress) && admins == old(admins) && log == old(log)
        invariant balance == old(balance) + value
        invariant ProcessAll(chain, now, oracleAddress, sender, payments, items[i..])
               == ProcessAll(chain, now, oracleAddress, sender, before, items)
      {
        assert items[i..][1..] == items[i + 1..];
        error := ProcessPayment(now, sender,
          Item(batch.commitments[i], batch.services[i], batch.amounts[i], batch.timestamps[i], batch.signatures[i]));
        if error.Some? {
          payments, balance := before, balance - value;
          return;
        }
        i := i + 1;
      }
      return None;
    }

    // ----- Paying out -----

    /**
     * A low-level call that sends ether: the recipient's code runs in the middle of it.
     * It fails, leaving no trace, when the balance is short or the recipient reverts.
     */
    method SendEther(now: nat, amount: nat, recipientCode: seq<Action>, accepts: bool, ghost entryInLog: Transfer)
      returns (success: bool)
      modifies this
      ensures success <==> amount <= old(balance) && accepts
      ensures Current() == if success
                           then ExecAll(chain, now, recipientCode,
                             old(Current()).(balance := old(balance) - amount, log := old(log) + [entryInLog])).state
                           else old(Current())
      decreases recipientCode, 1
    {
      if amount > balance { return false; }
      var payments0, oracle0, admins0, balance0 := payments, oracleAddress, admins, balance;
      ghost var log0 := log;
      balance := balance - amount;
      log := log + [entryInLog];
      PerformAll(now, recipientCode);
      if !accepts {
        payments, oracleAddress, admins, balance, log := payments0, oracle0, admins0, balance0, log0;
      }
      return accepts;
    }

    method Refund(now: nat, value: nat, commitment: Bytes32, timestamp: nat, signature: Bytes,
                  recipientCode: seq<Action>, accepts: bool)
      returns (error: Option<Error>)
      modifies this
      ensures SettlesAfter(
                Enter(chain, now, 0, value, Entry.Refund(commitment, timestamp, signature), old(Current())),
                old(Current()), now, recipientCode, accepts, error)
      ensures error.None? <==>
                && value == 0 && Refundable(old(Current()), commitment) && timestamp <= now <= timestamp + 600
                && chain.recover(RefundMessage(commitment, chain.chainId, timestamp), signature) == Some(old(oracleAddress))
                && accepts
      decreases recipientCode, 2
    {
      RefundExactly(chain, now, 0, value, commitment, timestamp, signature, Current());
      if value != 0 { return Some(NotPayable); }
      if commitment !in payments || payments[commitment].amount == 0 { return Some(PaymentDoesNotExist); }
      var payment := payments[commitment];
      if payment.refunded { return Some(AlreadyRefunded); }
      if timestamp > now { return Some(TimestampInFuture); }
      if now - timestamp > REFUND_WINDOW { return Some(SignatureTooOld); }
      var signer := chain.recover(RefundMessage(commitment, chain.chainId, timestamp), signature);
      if signer.None? { return Some(UnrecoverableSignature); }
      if signer.value != oracleAddress { return Some(InvalidSignature); }

      payments := payments[commitment := payment.(refunded := true)];
      var success := SendEther(now, payment.amount, recipientCode, accepts,
                               RefundIssued(commitment, payment.sender, payment.amount));
      if !success {
        payments := payments[commitment := payment];
        assert payments == old(payments);
        return Some(TransferFailed);
      }
      return None;
    }

    method ForceRefund(now: nat, sender: Address, value: nat, commitment: Bytes32,
                       recipientCode: seq<Action>, accepts: bool)
      returns (error: Option<Error>)
      modifies this
      ensures SettlesAfter(Enter(chain, now, sender, value, Entry.ForceRefund(commitment), old(Current())),
                           old(Current()), now, recipientCode, accepts, error)
      ensures error.None? <==> value == 0 && sender in old(admins) && Refundable(old(Current()), commitment) && accepts
      decreases recipientCode, 2
    {
      ForceRefundExactly(chain, now, sender, value, commitment, Current());
      if value != 0 { return Some(NotPayable); }
      if sender !in admins { return Some(MissingRole); }
      if commitment !in payments || payments[commitment].amount == 0 { return Some(PaymentDoesNotExist); }
      var payment := payments[commitment];
      if payment.refunded { return Some(AlreadyRefunded); }

      payments := payments[commitment := payment.(refunded := true)];
      var success := SendEther(now, payment.amount, recipientCode, accepts,
                               RefundIssued(commitment, payment.sender, payment.amount));
      if !success {
        payments := payments[commitment := payment];
        assert payments == old(payments);
        return Some(TransferFailed);
      }
      return None;
    }

    method WithdrawTo(now: nat, sender: Address, value: nat, amount: nat, to: Address,
                      recipientCode: seq<Action>, accepts: bool)
      returns (error: Option<Error>)
      modifies this
      ensures SettlesAfter(Enter(chain, now, sender, value, Entry.WithdrawTo(amount, to), old(Current())),
                           old(Current()), now, recipientCode, accepts, error)
      ensures error.None? <==> value == 0 && sender in old(admins) && to != 0 && amount <= old(balance) && accepts
      decreases recipientCode, 2
    {
      WithdrawalsExactly(chain, now, sender, value, amount, to, Current());
      if value != 0 { return Some(NotPayable); }
      if sender !in admins { return Some(MissingRole); }
      if to == ZERO_ADDRESS { return Some(InvalidRecipient); }
      if amount > balance { return Some(InsufficientBalance); }
      var success := SendEther(now, amount, recipientCode, accepts, Withdrawn(to, amount));
      return if success then None else Some(TransferFailed);
    }

    method Withdraw(now: nat, sender: Address, value: nat, amount: nat, recipientCode: seq<Action>, accepts: bool)
      returns (error: Option<Error>)
      modifies this
      ensures SettlesAfter(Enter(chain, now, sender, value, Entry.Withdraw(amount), old(Current())),
                           old(Current()), now, recipientCode, accepts, error)
      ensures error.None? <==> value == 0 && sender in old(admins) && amount <= old(balance) && accepts
      decreases recipientCode, 2
    {
      WithdrawalsExactly(chain, now, sender, value, amount, sender, Current());
      if value != 0 { return Some(NotPayable); }
      if sender !in admins { return Some(MissingRole); }
      if amount > balance { return Some(InsufficientBalance); }
      var success := SendEther(now, amount, recipientCode, accepts, Withdrawn(sender, amount));
      return if success then None else Some(TransferFailed);
    }

    method WithdrawAll(now: nat, sender: Address, value: nat, recipientCode: seq<Action>, accepts: bool)
      returns (error: Option<Error>)
      modifies this
      ensures SettlesAfter(Enter(chain, now, sender, value, Entry.WithdrawAll, old(Current())),
                           old(Current()), now, recipientCode, accepts, error)
      ensures error.None? <==> value == 0 && sender in old(admins) && old(balance) > 0 && accepts
      decreases recipientCode, 2
    {
      WithdrawalsExactly(chain, now, sender, value, 0, sender, Current());
      if value != 0 { return Some(NotPayable); }
      if sender !in admins { return Some(MissingRole); }
      var amount := balance;
      if amount == 0 { return Some(NoBalanceToWithdraw); }
      var success := SendEther(now, amount, recipientCode, accepts, Withdrawn(sender, amount));
      return if success then None else Some(TransferFailed);
    }

    // ----- Everything else -----

    method Deposit(value: nat) returns (error: Option<Error>)
      modifies this
      ensures Settles(Enter(chain, 0, 0, value, Entry.Deposit, old(Current())), old(Current()), error)
    {
      if value == 0 { return Some(MustSendETH); }
      Receive(value);
      return None;
    }

    method Receive(value: nat)
      modifies this
      ensures Current() == old(Current()).(balance := old(balance) + value, log := old(log) + [Deposited(value)])
    {
      balance := balance + value;
      log := log + [Deposited(value)];
    }

    method SetOracleAddress(sender: Address, value: nat, newOracle: Address) returns (error: Option<Error>)
      modifies this
      ensures Settles(Enter(chain, 0, sender, value, Entry.SetOracleAddress(newOracle), old(Current())),
                      old(Current()), error)
      ensures error.None? <==> value == 0 && sender in old(admins) && newOracle != 0
      ensures oracleAddress == if error.None? then newOracle else old(oracleAddress)
    {
      SetOracleExactly(chain, 0, sender, value, newOracle, Current());
      if value != 0 { return Some(NotPayable); }
      if sender !in admins { return Some(MissingRole); }
      if newOracle == ZERO_ADDRESS { return Some(InvalidOracleAddress); }
      oracleAddress := newOracle;
      return None;
    }

    /** One action of the tree, as the chain carries it out on this contract. */
    method Perform(now: nat, action: Action)
      modifies this
      ensures Current() == Exec(chain, now, action, old(Current())).state
      decreases action, 3
    {
      match action {
        case ForceFeed(wei) =>
          balance := balance + wei;
          log := log + [ForceFed(wei)];
        case Frame(body, commits) =>
          var payments0, oracle0, admins0, balance0 := payments, oracleAddress, admins, balance;
          ghost var log0 := log;
          PerformAll(now, body);
          if !commits {
            payments, oracleAddress, admins, balance, log := payments0, oracle0, admins0, balance0, log0;
          }
        case Call(sender, value, entry, recipientCode, accepts) =>
          var error := Dispatch(now, sender, value, entry, recipientCode, accepts);
      }
    }

    method Dispatch(now: nat, sender: Address, value: nat, entry: Entry, recipientCode: seq<Action>, accepts: bool)
      returns (error: Option<Error>)
      modifies this
      ensures Current() == Exec(chain, now, Call(sender, value, entry, recipientCode, accepts), old(Current())).state
      decreases recipientCode, 3
    {
      match entry {
        case Pay(commitment, service, timestamp, signature) =>
          error := Pay(now, sender, value, commitment, service, timestamp, signature);
        case BatchPay(batch) => error := BatchPay(now, sender, value, batch);
        case Refund(commitment, timestamp, signature) =>
          error := Refund(now, value, commitment, timestamp, signature, recipientCode, accepts);
        case ForceRefund(commitment) => error := ForceRefund(now, sender, value, commitment, recipientCode, accepts);
        case Deposit => error := Deposit(value);
        case Receive => error := None; Receive(value);
        case Withdraw(amount) => error := Withdraw(now, sender, value, amount, recipientCode, accepts);
        case WithdrawTo(amount, to) => error := WithdrawTo(now, sender, value, amount, to, recipientCode, accepts);
        case WithdrawAll => error := WithdrawAll(now, sender, value, recipientCode, accepts);
        case SetOracleAddress(newOracle) => error := SetOracleAddress(sender, value, newOracle);
        case ChangeRoles(newAdmins) =>
          error := if value != 0 then Some(NotPayable) else None;
          if value == 0 { admins := newAdmins; }
      }
    }

    method PerformAll(now: nat, actions: seq<Action>)
      modifies this
      ensures Current() == ExecAll(chain, now, actions, old(Current())).state
      decreases actions, 0
    {
      var i := 0;
      assert actions[0..] == actions;
      while i < |actions|
        invariant 0 <= i <= |actions|
        invariant ExecAll(chain, now, actions[i..], Current()).state == ExecAll(chain, now, actions, old(Current())).state
      {
        assert actions[i..][1..] == actions[i + 1..];
        Perform(now, actions[i]);
        i := i + 1;
      }
    }

    /** Any life of the contract, driven on the object, stays within the invariant. */
    method Live(transactions: seq<Transaction>)
      requires Safe(Current())
      modifies this
      ensures Current() == Run(chain, transactions, old(Current())).state
      ensures Safe(Current()) && Extends(old(Current()), Current())
    {
      var i := 0;
      assert transactions[0..] == transactions;
      while i < |transactions|
        invariant 0 <= i <= |transactions|
        invariant Run(chain, transactions[i..], Current()).state == Run(chain, transactions, old(Current())).state
      {
        assert transactions[i..][1..] == transactions[i + 1..];
        Perform(transactions[i].now, transactions[i].action);
        i := i + 1;
      }
      RunSafe(chain, transactions, old(Current()));
    }
  }

  lemma {:induction false} TotalOfPrefix(amounts: seq<nat>, n: nat)
    requires n <= |amounts|
    ensures SeqTotal(amounts[..n], Self) <= SeqTotal(amounts, Self)
  {
    assert amounts == amounts[..n] + amounts[n..];
    SeqTotalConcat(amounts[..n], amounts[n..], Self);
  }
}
