/**
 * What holds at every point of every run of HumanIDPayments, inside nested calls too:
 * ether is conserved, and a payment is refunded at most once, in full, to whoever made it.
 */
module PaymentsSafety {
  import opened Common
  import opened PaymentsModel

  // ----- The accounts -----

  function Paid(p: Payment): nat { p.amount }

  function PaidBack(p: Payment): nat { if p.refunded then p.amount else 0 }

  function DepositedPart(t: Transfer): nat {
    match t case Deposited(amount) => amount case _ => 0
  }

  function ForceFedPart(t: Transfer): nat {
    match t case ForceFed(amount) => amount case _ => 0
  }

  function WithdrawnPart(t: Transfer): nat {
    match t case Withdrawn(_, amount) => amount case _ => 0
  }

  ghost predicate Conserved(s: State) {
    s.balance + MapTotal(s.payments, PaidBack) + SeqTotal(s.log, WithdrawnPart)
    == MapTotal(s.payments, Paid) + SeqTotal(s.log, DepositedPart) + SeqTotal(s.log, ForceFedPart)
  }

  /** The refunds of one commitment, in the order the ether left. */
  function RefundsOf(log: seq<Transfer>, commitment: Bytes32): seq<Transfer> {
    if log == [] then []
    else
      var earlier := RefundsOf(log[..|log| - 1], commitment);
      var last := log[|log| - 1];
      if last.RefundIssued? && last.commitment == commitment then earlier + [last] else earlier
  }

  /** The refunds a payments map says have been made: one, in full, to the payer, or none. */
  function RefundsRecorded(payments: map<Bytes32, Payment>, commitment: Bytes32): seq<Transfer> {
    if commitment in payments && payments[commitment].refunded
    then [RefundIssued(commitment, payments[commitment].sender, payments[commitment].amount)]
    else []
  }

  ghost predicate RefundedOnce(s: State) {
    forall c :: RefundsOf(s.log, c) == RefundsRecorded(s.payments, c)
  }

  ghost predicate PaymentsFiled(s: State) {
    forall c :: c in s.payments ==> s.payments[c].commitment == c && s.payments[c].amount > 0
  }

  ghost predicate Safe(s: State) {
    PaymentsFiled(s) && Conserved(s) && RefundedOnce(s)
  }

  /** A payment may become refunded; nothing else about it changes, and no transfer is forgotten. */
  ghost predicate Extends(earlier: State, later: State) {
    && earlier.log <= later.log
    && forall c :: c in earlier.payments ==>
         c in later.payments
         && (later.payments[c] == earlier.payments[c] || later.payments[c] == earlier.payments[c].(refunded := true))
  }

  lemma ExtendsTransitive(a: State, b: State, c: State)
    requires Extends(a, b) && Extends(b, c)
    ensures Extends(a, c)
  {
    assert a.log <= c.log;
  }

  // ----- One entry -----

  lemma LogGrows(log: seq<Transfer>, t: Transfer)
    ensures SeqTotal(log + [t], WithdrawnPart) == SeqTotal(log, WithdrawnPart) + WithdrawnPart(t)
    ensures SeqTotal(log + [t], DepositedPart) == SeqTotal(log, DepositedPart) + DepositedPart(t)
    ensures SeqTotal(log + [t], ForceFedPart) == SeqTotal(log, ForceFedPart) + ForceFedPart(t)
  {
    SeqTotalAppend(log, t, WithdrawnPart);
    SeqTotalAppend(log, t, DepositedPart);
    SeqTotalAppend(log, t, ForceFedPart);
  }

  lemma RefundsGrow(log: seq<Transfer>, t: Transfer, commitment: Bytes32)
    ensures RefundsOf(log + [t], commitment) ==
              RefundsOf(log, commitment) + if t.RefundIssued? && t.commitment == commitment then [t] else []
  {
    assert (log + [t])[..|log|] == log;
  }

  lemma RecordedOnce(payments: map<Bytes32, Payment>, commitment: Bytes32, payment: Payment)
    requires commitment !in payments && !payment.refunded
    ensures var more := payments[commitment := payment];
            && MapTotal(more, Paid) == MapTotal(payments, Paid) + payment.amount
            && MapTotal(more, PaidBack) == MapTotal(payments, PaidBack)
            && forall c :: RefundsRecorded(more, c) == RefundsRecorded(payments, c)
  {
    MapTotalInsert(payments, Paid, commitment, payment);
    MapTotalInsert(payments, PaidBack, commitment, payment);
  }

  /** Storing items records exactly their total, leaves older payments alone and refunds nothing. */
  lemma {:induction false} ProcessAllSafe(
    chain: Chain, now: nat, oracle: Address, sender: Address, payments: map<Bytes32, Payment>, items: seq<Item>)
    requires forall c :: c in payments ==> payments[c].commitment == c && payments[c].amount > 0
    ensures var r := ProcessAll(chain, now, oracle, sender, payments, items);
            r.Stored? ==>
              && (forall c :: c in r.payments ==> r.payments[c].commitment == c && r.payments[c].amount > 0)
              && (forall c :: c in payments ==> c in r.payments && r.payments[c] == payments[c])
              && (forall c :: RefundsRecorded(r.payments, c) == RefundsRecorded(payments, c))
              && MapTotal(r.payments, Paid) == MapTotal(payments, Paid) + SeqTotal(items, AmountOf)
              && MapTotal(r.payments, PaidBack) == MapTotal(payments, PaidBack)
    decreases items
  {
    if items != [] && Rejection(chain, now, oracle, payments, items[0]).None? {
      assert items[0].commitment !in payments;
      var payment := Recorded(now, sender, items[0]);
      RecordedOnce(payments, items[0].commitment, payment);
      ProcessAllSafe(chain, now, oracle, sender, payments[items[0].commitment := payment], items[1..]);
    }
  }

  function AmountOf(item: Item): nat { item.amount }

  lemma {:induction false} ItemsTotal(batch: Batch, from: nat)
    requires batch.LengthsMatch() && from <= |batch.amounts|
    ensures SeqTotal(batch.Items()[from..], AmountOf) == SeqTotal(batch.amounts[from..], Self)
    decreases |batch.amounts| - from
  {
    if from < |batch.amounts| {
      assert batch.Items()[from..][1..] == batch.Items()[from + 1..];
      assert batch.amounts[from..][1..] == batch.amounts[from + 1..];
      ItemsTotal(batch, from + 1);
    }
  }

  lemma PaymentsSafe(chain: Chain, now: nat, sender: Address, value: nat, items: seq<Item>, s: State)
    requires Safe(s) && value == SeqTotal(items, AmountOf)
    ensures var r := EnterPayments(chain, now, sender, value, items, s);
            r.Returned? ==> Safe(r.state) && Extends(s, r.state)
  {
    ProcessAllSafe(chain, now, s.oracle, sender, s.payments, items);
  }

  function Marked(payments: map<Bytes32, Payment>, commitment: Bytes32): map<Bytes32, Payment>
    requires commitment in payments
  {
    payments[commitment := payments[commitment].(refunded := true)]
  }

  function Issued(payment: Payment): Transfer { RefundIssued(payment.commitment, payment.sender, payment.amount) }

  /** Marking a payment moves its amount to what was paid back. */
  lemma MarkingPaysBack(payments: map<Bytes32, Payment>, commitment: Bytes32)
    requires commitment in payments && !payments[commitment].refunded
    ensures MapTotal(Marked(payments, commitment), Paid) == MapTotal(payments, Paid)
    ensures MapTotal(Marked(payments, commitment), PaidBack) == MapTotal(payments, PaidBack) + payments[commitment].amount
  {
    var payment := payments[commitment];
    MapTotalUpdate(payments, Paid, commitment, payment.(refunded := true));
    MapTotalUpdate(payments, PaidBack, commitment, payment.(refunded := true));
  }

  /** And its one refund is the one that is recorded. */
  lemma MarkingRecordsTheRefund(s: State, commitment: Bytes32, c: Bytes32)
    requires RefundedOnce(s) && commitment in s.payments && !s.payments[commitment].refunded
    requires s.payments[commitment].commitment == commitment
    ensures RefundsOf(s.log + [Issued(s.payments[commitment])], c) == RefundsRecorded(Marked(s.payments, commitment), c)
  {
    RefundsGrow(s.log, Issued(s.payments[commitment]), c);
    assert RefundsOf(s.log, c) == RefundsRecorded(s.payments, c);
  }

  /** The books after a refund, as far as they do not depend on why it was allowed. */
  lemma RefundKeepsBooks(s: State, commitment: Bytes32, s': State)
    requires Safe(s) && commitment in s.payments && !s.payments[commitment].refunded
    requires s.payments[commitment].amount <= s.balance
    requires s'.payments == Marked(s.payments, commitment) && s'.balance == s.balance - s.payments[commitment].amount
    requires s'.log == s.log + [Issued(s.payments[commitment])]
    ensures Safe(s')
  {
    MarkingPaysBack(s.payments, commitment);
    LogGrows(s.log, Issued(s.payments[commitment]));
    forall c ensures RefundsOf(s'.log, c) == RefundsRecorded(s'.payments, c) {
      MarkingRecordsTheRefund(s, commitment, c);
    }
  }

  lemma RefundSafe(s: State, commitment: Bytes32)
    requires Safe(s) && RefundBlocked(s, commitment).None?
    ensures var r := SendRefund(s, commitment);
            r.HandedOver? ==> Safe(r.state) && Extends(s, r.state) && r.state.payments[commitment].refunded
  {
    var r := SendRefund(s, commitment);
    if r.HandedOver? { RefundKeepsBooks(s, commitment, r.state); }
  }

  /** A movement of ether that concerns no payment. */
  lemma MovementSafe(s: State, balance: nat, t: Transfer)
    requires Safe(s) && !t.RefundIssued?
    requires balance + WithdrawnPart(t) == s.balance + DepositedPart(t) + ForceFedPart(t)
    ensures var s' := s.(balance := balance, log := s.log + [t]); Safe(s') && Extends(s, s')
  {
    LogGrows(s.log, t);
    forall c ensures RefundsOf(s.log + [t], c) == RefundsRecorded(s.payments, c) { RefundsGrow(s.log, t, c); }
  }

  lemma WithdrawalSafe(s: State, to: Address, amount: nat)
    requires Safe(s)
    ensures var r := SendWithdrawal(s, to, amount); r.HandedOver? ==> Safe(r.state) && Extends(s, r.state)
  {
    if amount <= s.balance { MovementSafe(s, s.balance - amount, Withdrawn(to, amount)); }
  }

  lemma BatchPaySafe(chain: Chain, now: nat, sender: Address, value: nat, batch: Batch, s: State)
    requires Safe(s)
    ensures var r := EnterBatchPay(chain, now, sender, value, batch, s);
            r.Returned? ==> Safe(r.state) && Extends(s, r.state)
  {
    if batch.LengthsMatch() && value == SeqTotal(batch.amounts, Self) {
      ItemsTotal(batch, 0);
      assert batch.Items()[0..] == batch.Items() && batch.amounts[0..] == batch.amounts;
      PaymentsSafe(chain, now, sender, value, batch.Items(), s);
    }
  }

  lemma EnterSafe(chain: Chain, now: nat, sender: Address, value: nat, entry: Entry, s: State)
    requires Safe(s)
    ensures var r := Enter(chain, now, sender, value, entry, s);
            !r.Reverted? ==> Safe(r.state) && Extends(s, r.state)
  {
    match entry
    case Pay(commitment, service, timestamp, signature) =>
      var items := [Item(commitment, service, value, timestamp, signature)];
      assert items[1..] == [];
      PaymentsSafe(chain, now, sender, value, items, s);
    case BatchPay(batch) => BatchPaySafe(chain, now, sender, value, batch, s);
    case Refund(commitment, _, _) =>
      if RefundBlocked(s, commitment).None? { RefundSafe(s, commitment); }
    case ForceRefund(commitment) =>
      if RefundBlocked(s, commitment).None? { RefundSafe(s, commitment); }
    case Deposit => MovementSafe(s, s.balance + value, Deposited(value));
    case Receive => MovementSafe(s, s.balance + value, Deposited(value));
    case Withdraw(amount) => WithdrawalSafe(s, sender, amount);
    case WithdrawTo(amount, to) => WithdrawalSafe(s, to, amount);
    case WithdrawAll => WithdrawalSafe(s, sender, s.balance);
    case SetOracleAddress(_) =>
    case ChangeRoles(_) =>
  }

  // ----- Whole trees and whole runs -----

  ghost predicate AllSafe(from: State, visited: seq<State>) {
    forall v :: v in visited ==> Safe(v) && Extends(from, v)
  }

  lemma AllSafeFrom(a: State, b: State, visited: seq<State>)
    requires Extends(a, b) && AllSafe(b, visited)
    ensures AllSafe(a, visited)
  {
    forall v | v in visited ensures Extends(a, v) { ExtendsTransitive(a, b, v); }
  }

  lemma {:induction false} ExecSafe(chain: Chain, now: nat, action: Action, s: State)
    requires Safe(s)
    ensures var r := Exec(chain, now, action, s);
            Safe(r.state) && Extends(s, r.state) && AllSafe(s, r.visited)
    decreases action, 0
  {
    match action
    case ForceFeed(wei) => MovementSafe(s, s.balance + wei, ForceFed(wei));
    case Frame(body, _) => ExecAllSafe(chain, now, body, s);
    case Call(sender, value, entry, recipientCode, _) =>
      EnterSafe(chain, now, sender, value, entry, s);
      var entered := Enter(chain, now, sender, value, entry, s);
      if entered.HandedOver? {
        ExecAllSafe(chain, now, recipientCode, entered.state);
        var r := ExecAll(chain, now, recipientCode, entered.state);
        AllSafeFrom(s, entered.state, r.visited);
        ExtendsTransitive(s, entered.state, r.state);
      }
  }

  lemma {:induction false} ExecAllSafe(chain: Chain, now: nat, actions: seq<Action>, s: State)
    requires Safe(s)
    ensures var r := ExecAll(chain, now, actions, s);
            Safe(r.state) && Extends(s, r.state) && AllSafe(s, r.visited)
    decreases actions
  {
    if actions != [] {
      var first := Exec(chain, now, actions[0], s);
      var rest := ExecAll(chain, now, actions[1..], first.state);
      ExecSafe(chain, now, actions[0], s);
      ExecAllSafe(chain, now, actions[1..], first.state);
      AllSafeFrom(s, first.state, rest.visited);
      ExtendsTransitive(s, first.state, rest.state);
    }
  }

  lemma {:induction false} RunSafe(chain: Chain, transactions: seq<Transaction>, s: State)
    requires Safe(s)
    ensures var r := Run(chain, transactions, s);
            Safe(r.state) && Extends(s, r.state) && AllSafe(s, r.visited)
  {
    if transactions != [] {
      var first := Exec(chain, transactions[0].now, transactions[0].action, s);
      var rest := Run(chain, transactions[1..], first.state);
      ExecSafe(chain, transactions[0].now, transactions[0].action, s);
      RunSafe(chain, transactions[1..], first.state);
      AllSafeFrom(s, first.state, rest.visited);
      ExtendsTransitive(s, first.state, rest.state);
    }
  }

  /**
   * The main result.  From deployment on, at every point of every run (between transactions,
   * inside a payee's code, and inside frames that later revert) the books balance, every payment
   * has been refunded exactly when its flag says so, at most once, in full and to its sender.
   */
  lemma EveryPointIsSafe(chain: Chain, oracle: Address, deployer: Address, transactions: seq<Transaction>, point: State)
    requires point in Run(chain, transactions, Deployed(oracle, deployer)).visited
    ensures point.balance + MapTotal(point.payments, PaidBack) + SeqTotal(point.log, WithdrawnPart)
         == MapTotal(point.payments, Paid) + SeqTotal(point.log, DepositedPart) + SeqTotal(point.log, ForceFedPart)
    ensures forall c :: RefundsOf(point.log, c) ==
              if c in point.payments && point.payments[c].refunded
              then [RefundIssued(c, point.payments[c].sender, point.payments[c].amount)]
              else []
  {
    RunSafe(chain, transactions, Deployed(oracle, deployer));
  }

  /** While the payee's code runs, its payment is already marked, so no nested refund of it gets through. */
  lemma NoRefundInsideARefund(chain: Chain, now: nat, s: State, sent: State, commitment: Bytes32,
                              recipientCode: seq<Action>, inside: State,
                              sender: Address, value: nat, nested: Entry)
    requires Safe(s) && RefundBlocked(s, commitment).None? && SendRefund(s, commitment) == HandedOver(sent)
    requires inside in ExecAll(chain, now, recipientCode, sent).visited
    requires (nested.Refund? || nested.ForceRefund?) && nested.commitment == commitment
    ensures commitment in inside.payments && inside.payments[commitment].refunded
    ensures Enter(chain, now, sender, value, nested, inside).Reverted?
  {
    RefundSafe(s, commitment);
    ExecAllSafe(chain, now, recipientCode, sent);
  }

  /** A payment recorded at some point is still there, unchanged but for its refunded flag, ever after. */
  lemma RecordedPaymentsLast(chain: Chain, oracle: Address, deployer: Address,
                             before: seq<Transaction>, after: seq<Transaction>, commitment: Bytes32, point: State)
    requires var s := Run(chain, before, Deployed(oracle, deployer)).state;
             commitment in s.payments && point in Run(chain, after, s).visited
    ensures var payment := Run(chain, before, Deployed(oracle, deployer)).state.payments[commitment];
            commitment in point.payments
            && (point.payments[commitment] == payment || point.payments[commitment] == payment.(refunded := true))
  {
    RunSafe(chain, before, Deployed(oracle, deployer));
    RunSafe(chain, after, Run(chain, before, Deployed(oracle, deployer)).state);
  }
}
