/**
 * Every entry point of HumanIDPayments, exactly: when it goes through, what it leaves, and which error it gives,
 * spelled out in the terms of a caller, with the constants as numbers.
 */
module PaymentsExact {
  import opened Common
  import opened PaymentsModel
  import opened PaymentsBatch

  // ----- Payments -----

  /** The commitment is free: nothing of a nonzero amount is stored under it. */
  predicate Free(s: State, commitment: Bytes32) {
    commitment in s.payments ==> s.payments[commitment].amount == 0
  }

  /** pay goes through exactly for a positive amount, a free commitment and the oracle's signature of at most a year ago. */
  lemma PayExactly(chain: Chain, now: nat, sender: Address, value: nat,
                   commitment: Bytes32, service: Bytes32, timestamp: nat, signature: Bytes, s: State)
    ensures var r := Enter(chain, now, sender, value, Pay(commitment, service, timestamp, signature), s);
            && (r.Returned? <==>
                  && value > 0 && Free(s, commitment) && timestamp <= now <= timestamp + 31536000
                  && chain.recover(PaymentMessage(value, commitment, service, chain.chainId, timestamp), signature)
                     == Some(s.oracle))
            && (r.Returned? ==>
                  r.state == s.(payments := s.payments[commitment := Payment(commitment, service, now, sender, value, false)],
                                balance := s.balance + value))
            && !r.HandedOver?
  {
    OneItem(chain, now, sender, s, Item(commitment, service, value, timestamp, signature));
  }

  lemma OneItem(chain: Chain, now: nat, sender: Address, s: State, item: Item)
    ensures ProcessAll(chain, now, s.oracle, sender, s.payments, [item]) ==
              match Rejection(chain, now, s.oracle, s.payments, item)
              case Some(error) => Failed(error)
              case None => Stored(s.payments[item.commitment := Recorded(now, sender, item)])
  {
    assert [item][1..] == [];
    var stored := s.payments[item.commitment := Recorded(now, sender, item)];
    assert ProcessAll(chain, now, s.oracle, sender, stored, []) == Stored(stored);
  }

  /** Which error a refused payment gives: that of the first check it fails. */
  lemma PayErrors(chain: Chain, now: nat, sender: Address, value: nat,
                  commitment: Bytes32, service: Bytes32, timestamp: nat, signature: Bytes, s: State)
    ensures var r := Enter(chain, now, sender, value, Pay(commitment, service, timestamp, signature), s);
            var signer := chain.recover(PaymentMessage(value, commitment, service, chain.chainId, timestamp), signature);
            && (value == 0 ==> r == Reverted(InvalidAmount))
            && (value > 0 && !Free(s, commitment) ==> r == Reverted(PaymentAlreadyExists))
            && (value > 0 && Free(s, commitment) ==>
                  && (timestamp > now ==> r == Reverted(TimestampInFuture))
                  && (now > timestamp + 31536000 ==> r == Reverted(SignatureTooOld))
                  && (timestamp <= now <= timestamp + 31536000 ==>
                        && (signer.None? ==> r == Reverted(UnrecoverableSignature))
                        && (signer.Some? && signer.value != s.oracle ==> r == Reverted(InvalidSignature))))
  {
    OneItem(chain, now, sender, s, Item(commitment, service, value, timestamp, signature));
  }

  // ----- Refunds -----

  /** There is a payment under the commitment, not refunded yet, that the balance covers. */
  predicate Refundable(s: State, commitment: Bytes32) {
    && commitment in s.payments && s.payments[commitment].amount != 0 && !s.payments[commitment].refunded
    && s.payments[commitment].amount <= s.balance
  }

  /** The state in which the payer's code runs. */
  predicate RefundSent(s: State, commitment: Bytes32, s': State)
    requires commitment in s.payments
  {
    var p := s.payments[commitment];
    && s'.payments == s.payments[commitment := Payment(p.commitment, p.service, p.timestamp, p.sender, p.amount, true)]
    && s'.balance + p.amount == s.balance && s'.log == s.log + [RefundIssued(commitment, p.sender, p.amount)]
    && s'.oracle == s.oracle && s'.admins == s.admins
  }

  /** refund sends exactly with the oracle's signature of at most ten minutes ago. */
  lemma RefundExactly(chain: Chain, now: nat, sender: Address, value: nat,
                      commitment: Bytes32, timestamp: nat, signature: Bytes, s: State)
    ensures var r := Enter(chain, now, sender, value, Refund(commitment, timestamp, signature), s);
            && (r.HandedOver? <==>
                  && value == 0 && Refundable(s, commitment) && timestamp <= now <= timestamp + 600
                  && chain.recover(RefundMessage(commitment, chain.chainId, timestamp), signature) == Some(s.oracle))
            && (r.HandedOver? ==> RefundSent(s, commitment, r.state))
            && !r.Returned?
  {
  }

  /** forceRefund sends exactly for administrators. */
  lemma ForceRefundExactly(chain: Chain, now: nat, sender: Address, value: nat, commitment: Bytes32, s: State)
    ensures var r := Enter(chain, now, sender, value, ForceRefund(commitment), s);
            && (r.HandedOver? <==> value == 0 && sender in s.admins && Refundable(s, commitment))
            && (r.HandedOver? ==> RefundSent(s, commitment, r.state))
            && !r.Returned?
  {
  }

  /** Which error a refused refund gives. */
  lemma RefundErrors(chain: Chain, now: nat, sender: Address, commitment: Bytes32, timestamp: nat, signature: Bytes, s: State)
    ensures var r := Enter(chain, now, sender, 0, Refund(commitment, timestamp, signature), s);
            var signer := chain.recover(RefundMessage(commitment, chain.chainId, timestamp), signature);
            if Free(s, commitment) then r == Reverted(PaymentDoesNotExist)
            else if s.payments[commitment].refunded then r == Reverted(AlreadyRefunded)
            else if timestamp > now then r == Reverted(TimestampInFuture)
            else if now > timestamp + 600 then r == Reverted(SignatureTooOld)
            else if signer.None? then r == Reverted(UnrecoverableSignature)
            else if signer.value != s.oracle then r == Reverted(InvalidSignature)
            else s.payments[commitment].amount > s.balance ==> r == Reverted(TransferFailed)
  {
  }

  lemma ForceRefundErrors(chain: Chain, now: nat, sender: Address, commitment: Bytes32, s: State)
    ensures var r := Enter(chain, now, sender, 0, ForceRefund(commitment), s);
            if sender !in s.admins then r == Reverted(MissingRole)
            else if Free(s, commitment) then r == Reverted(PaymentDoesNotExist)
            else if s.payments[commitment].refunded then r == Reverted(AlreadyRefunded)
            else s.payments[commitment].amount > s.balance ==> r == Reverted(TransferFailed)
  {
  }

  // ----- Withdrawals, deposits, the oracle -----

  predicate WithdrawalSent(s: State, to: Address, amount: nat, s': State) {
    && s'.balance + amount == s.balance && s'.log == s.log + [Withdrawn(to, amount)]
    && s'.payments == s.payments && s'.oracle == s.oracle && s'.admins == s.admins
  }

  /** The three ways to withdraw: administrators only, within the balance, to themselves or to a nonzero address. */
  lemma WithdrawalsExactly(chain: Chain, now: nat, sender: Address, value: nat, amount: nat, to: Address, s: State)
    ensures var r := Enter(chain, now, sender, value, Withdraw(amount), s);
            && (r.HandedOver? <==> value == 0 && sender in s.admins && amount <= s.balance)
            && (r.HandedOver? ==> WithdrawalSent(s, sender, amount, r.state)) && !r.Returned?
    ensures var r := Enter(chain, now, sender, value, WithdrawTo(amount, to), s);
            && (r.HandedOver? <==> value == 0 && sender in s.admins && to != 0 && amount <= s.balance)
            && (r.HandedOver? ==> WithdrawalSent(s, to, amount, r.state)) && !r.Returned?
    ensures var r := Enter(chain, now, sender, value, WithdrawAll, s);
            && (r.HandedOver? <==> value == 0 && sender in s.admins && s.balance > 0)
            && (r.HandedOver? ==> WithdrawalSent(s, sender, s.balance, r.state)) && !r.Returned?
  {
  }

  lemma WithdrawalErrors(chain: Chain, now: nat, sender: Address, amount: nat, to: Address, s: State)
    ensures sender !in s.admins ==>
              && Enter(chain, now, sender, 0, Withdraw(amount), s) == Reverted(MissingRole)
              && Enter(chain, now, sender, 0, WithdrawTo(amount, to), s) == Reverted(MissingRole)
              && Enter(chain, now, sender, 0, WithdrawAll, s) == Reverted(MissingRole)
    ensures sender in s.admins ==>
              && (to == 0 ==> Enter(chain, now, sender, 0, WithdrawTo(amount, to), s) == Reverted(InvalidRecipient))
              && (amount > s.balance ==>
                    && Enter(chain, now, sender, 0, Withdraw(amount), s) == Reverted(InsufficientBalance)
                    && (to != 0 ==> Enter(chain, now, sender, 0, WithdrawTo(amount, to), s) == Reverted(InsufficientBalance)))
              && (s.balance == 0 ==> Enter(chain, now, sender, 0, WithdrawAll, s) == Reverted(NoBalanceToWithdraw))
  {
  }

  lemma DepositsExactly(chain: Chain, now: nat, sender: Address, value: nat, s: State)
    ensures var s' := State(s.payments, s.oracle, s.admins, s.balance + value, s.log + [Deposited(value)]);
            && Enter(chain, now, sender, value, Deposit, s) == (if value > 0 then Returned(s') else Reverted(MustSendETH))
            && Enter(chain, now, sender, value, Receive, s) == Returned(s')
  {
  }

  /** The oracle changes exactly when an administrator names another nonzero one. */
  lemma SetOracleExactly(chain: Chain, now: nat, sender: Address, value: nat, newOracle: Address, s: State)
    ensures Enter(chain, now, sender, value, SetOracleAddress(newOracle), s) ==
              if value != 0 then Reverted(NotPayable)
              else if sender !in s.admins then Reverted(MissingRole)
              else if newOracle == 0 then Reverted(InvalidOracleAddress)
              else Returned(State(s.payments, newOracle, s.admins, s.balance, s.log))
  {
  }

  /** Only pay, batchPay, deposit and receive take ether. */
  lemma OnlyFourTakeEther(chain: Chain, now: nat, sender: Address, value: nat, entry: Entry, s: State)
    requires value > 0 && !entry.Pay? && !entry.BatchPay? && !entry.Deposit? && !entry.Receive?
    ensures Enter(chain, now, sender, value, entry, s) == Reverted(NotPayable)
  {
  }

  // ----- Batches -----

  /** What each item of a batch must meet on its own, read off the arrays. */
  ghost predicate ItemAccepted(chain: Chain, now: nat, s: State, batch: Batch, i: nat)
    requires i < |batch.commitments| == |batch.services| == |batch.amounts| == |batch.timestamps| == |batch.signatures|
  {
    && batch.amounts[i] > 0 && Free(s, batch.commitments[i])
    && batch.timestamps[i] <= now <= batch.timestamps[i] + 31536000
    && chain.recover(PaymentMessage(batch.amounts[i], batch.commitments[i], batch.services[i], chain.chainId,
                                    batch.timestamps[i]),
                     batch.signatures[i]) == Some(s.oracle)
  }

  /** The record each item leaves, read off the arrays. */
  ghost predicate ItemRecorded(now: nat, sender: Address, batch: Batch, i: nat, payments: map<Bytes32, Payment>)
    requires i < |batch.commitments| == |batch.services| == |batch.amounts|
  {
    && batch.commitments[i] in payments
    && payments[batch.commitments[i]]
       == Payment(batch.commitments[i], batch.services[i], now, sender, batch.amounts[i], false)
  }

  predicate SameLengths(batch: Batch) {
    |batch.commitments| == |batch.services| == |batch.amounts| == |batch.timestamps| == |batch.signatures|
  }

  lemma RejectionIs(chain: Chain, now: nat, s: State, batch: Batch, i: nat)
    requires i < |batch.commitments| == |batch.services| == |batch.amounts| == |batch.timestamps| == |batch.signatures|
    ensures Rejection(chain, now, s.oracle, s.payments, batch.Items()[i]).None? <==> ItemAccepted(chain, now, s, batch, i)
  {
  }

  lemma AcceptableIs(chain: Chain, now: nat, s: State, batch: Batch)
    requires SameLengths(batch)
    ensures Acceptable(chain, now, s.oracle, s.payments, batch.Items()) <==>
              && (forall i :: 0 <= i < |batch.commitments| ==> ItemAccepted(chain, now, s, batch, i))
              && (forall i, j :: 0 <= i < j < |batch.commitments| ==> batch.commitments[i] != batch.commitments[j])
  {
    var items := batch.Items();
    forall i | 0 <= i < |items|
      ensures Rejection(chain, now, s.oracle, s.payments, items[i]).None? <==> ItemAccepted(chain, now, s, batch, i)
    {
      RejectionIs(chain, now, s, batch, i);
    }
    if Acceptable(chain, now, s.oracle, s.payments, items) {
      forall i | 0 <= i < |items| ensures ItemAccepted(chain, now, s, batch, i) {
        assert items[i] in items;
      }
      forall i, j | 0 <= i < j < |items| ensures batch.commitments[i] != batch.commitments[j] {
        assert items[i].commitment != items[j].commitment;
      }
    }
  }

  lemma StoresIs(now: nat, sender: Address, batch: Batch, before: map<Bytes32, Payment>, after: map<Bytes32, Payment>)
    requires SameLengths(batch) && Stores(now, sender, before, batch.Items(), after)
    ensures forall i :: 0 <= i < |batch.commitments| ==> ItemRecorded(now, sender, batch, i, after)
    ensures forall c :: c !in batch.commitments ==>
              (c in after <==> c in before) && (c in after ==> after[c] == before[c])
  {
    var items := batch.Items();
    forall i | 0 <= i < |items| ensures ItemRecorded(now, sender, batch, i, after) {
      assert items[i] in items;
    }
    forall c | c !in batch.commitments ensures (c in after <==> c in before) && (c in after ==> after[c] == before[c]) {
      forall item | item in items ensures item.commitment != c {
        var i :| 0 <= i < |items| && items[i] == item;
        assert batch.commitments[i] != c;
      }
    }
  }

  /**
   * batchPay goes through exactly for a nonempty batch of equally long arrays whose amounts sum to the ether sent
   * without overflow, every item acceptable and no commitment twice; each item is then recorded, and nothing else changes.
   */
  lemma BatchItemsExactly(chain: Chain, now: nat, sender: Address, value: nat, batch: Batch, s: State)
    ensures var r := Enter(chain, now, sender, value, BatchPay(batch), s);
            && (r.Returned? <==>
                  && |batch.commitments| > 0 && SameLengths(batch)
                  && value == SeqTotal(batch.amounts, Self)
                  && value < 0x1_0000000000000000_0000000000000000_0000000000000000_0000000000000000
                  && (forall i :: 0 <= i < |batch.commitments| ==> ItemAccepted(chain, now, s, batch, i))
                  && (forall i, j :: 0 <= i < j < |batch.commitments| ==> batch.commitments[i] != batch.commitments[j]))
            && (r.Returned? ==>
                  && (forall i :: 0 <= i < |batch.commitments| ==> ItemRecorded(now, sender, batch, i, r.state.payments))
                  && (forall c :: c !in batch.commitments ==>
                        (c in r.state.payments <==> c in s.payments)
                        && (c in r.state.payments ==> r.state.payments[c] == s.payments[c]))
                  && r.state == State(r.state.payments, s.oracle, s.admins, s.balance + value, s.log))
            && !r.HandedOver?
  {
    BatchPayExactly(chain, now, sender, value, batch, s);
    if SameLengths(batch) {
      AcceptableIs(chain, now, s, batch);
      var r := Enter(chain, now, sender, value, BatchPay(batch), s);
      if r.Returned? { StoresIs(now, sender, batch, s.payments, r.state.payments); }
    }
  }

  /** Which error the checks before the items give. */
  lemma BatchErrors(chain: Chain, now: nat, sender: Address, value: nat, batch: Batch, s: State)
    ensures var r := Enter(chain, now, sender, value, BatchPay(batch), s);
            if |batch.commitments| == 0 then r == Reverted(EmptyBatch)
            else if !SameLengths(batch) then r == Reverted(ArrayLengthMismatch)
            else if SeqTotal(batch.amounts, Self) >= 0x1_0000000000000000_0000000000000000_0000000000000000_0000000000000000
            then r == Reverted(ArithmeticPanic)
            else value != SeqTotal(batch.amounts, Self) ==> r == Reverted(IncorrectTotalAmount)
  {
  }

  // ----- What a failure leaves -----

  /** A call that reverts, or whose recipient refuses the ether, and a frame that reverts, leave no trace. */
  lemma FailuresLeaveNoTrace(chain: Chain, now: nat, sender: Address, value: nat, entry: Entry,
                             code: seq<Action>, accepts: bool, s: State)
    ensures var r := Enter(chain, now, sender, value, entry, s);
            var after := Exec(chain, now, Call(sender, value, entry, code, accepts), s).state;
            && (r.Reverted? || (r.HandedOver? && !accepts) ==> after == s)
            && (r.Returned? ==> after == r.state)
            && (r.HandedOver? && accepts ==> after == ExecAll(chain, now, code, r.state).state)
    ensures Exec(chain, now, Frame(code, false), s).state == s
    ensures Exec(chain, now, Frame(code, true), s).state == ExecAll(chain, now, code, s).state
  {
  }

  /** The states an execution is said to visit are all there are: the hand-over, everything inside, and the end. */
  lemma {:induction false} NothingGoesUnvisited(chain: Chain, now: nat, action: Action, s: State, point: State)
    ensures var r := Exec(chain, now, action, s); r.state == s || r.state in r.visited
    ensures action.Call? ==>
              var r := Enter(chain, now, action.sender, action.value, action.entry, s);
              r.HandedOver? && (point == r.state || point in ExecAll(chain, now, action.recipientCode, r.state).visited) ==>
                point in Exec(chain, now, action, s).visited
    ensures action.Frame? && point in ExecAll(chain, now, action.body, s).visited ==>
              point in Exec(chain, now, action, s).visited
    decreases action, 0
  {
    match action
    case ForceFeed(_) =>
    case Frame(body, commits) => NothingGoesUnvisitedInSequence(chain, now, body, s, point);
    case Call(sender, value, entry, code, _) =>
      var r := Enter(chain, now, sender, value, entry, s);
      if r.HandedOver? { NothingGoesUnvisitedInSequence(chain, now, code, r.state, point); }
  }

  lemma {:induction false} NothingGoesUnvisitedInSequence(chain: Chain, now: nat, actions: seq<Action>, s: State, point: State)
    ensures var r := ExecAll(chain, now, actions, s); r.state == s || r.state in r.visited
    ensures actions != [] ==>
              var first := Exec(chain, now, actions[0], s);
              point in first.visited || point in ExecAll(chain, now, actions[1..], first.state).visited ==>
                point in ExecAll(chain, now, actions, s).visited
    decreases actions
  {
    if actions != [] {
      var first := Exec(chain, now, actions[0], s);
      NothingGoesUnvisited(chain, now, actions[0], s, point);
      NothingGoesUnvisitedInSequence(chain, now, actions[1..], first.state, point);
    }
  }

  lemma NothingGoesUnvisitedInRuns(chain: Chain, transactions: seq<Transaction>, s: State, point: State)
    ensures s in Run(chain, transactions, s).visited
    ensures transactions != [] ==>
              var first := Exec(chain, transactions[0].now, transactions[0].action, s);
              point in first.visited || point in Run(chain, transactions[1..], first.state).visited ==>
                point in Run(chain, transactions, s).visited
  {
  }
}
